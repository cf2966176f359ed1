/**
 * The order-book page (`app/page.tsx`): running totals per level, the
 * projection of the book onto the rows it renders, the page's own snapshot
 * handler, and the comparison of the last two trade prices.
 */
module Display {
  import opened Wrappers
  import opened Ladder
  import opened TradeInfoList
  import LastPrice

  /** A rendered row: `[price, size, total]`. */
  datatype DisplayLevel = DisplayLevel(price: Price, size: Size, total: real)

  /** The exact sum of the sizes of a ladder. */
  function SizeSum(l: Levels): real
  {
    if l == [] then 0.0 else SizeSum(l[..|l| - 1]) + l[|l| - 1].size
  }

  lemma {:induction false} SizeSumAppend(a: Levels, b: Levels)
    ensures SizeSum(a + b) == SizeSum(a) + SizeSum(b)
    decreases |b|
  {
    if b != [] {
      var init := b[..|b| - 1];
      assert (a + b)[..|a + b| - 1] == a + init;
      assert (a + b)[|a + b| - 1] == b[|b| - 1];
      SizeSumAppend(a, init);
      assert SizeSum(a + b) == SizeSum(a + init) + b[|b| - 1].size;
    } else {
      assert a + b == a;
    }
  }

  /** Each level with the exact running total of the sizes up to and including it. */
  function Totals(l: Levels): (r: seq<DisplayLevel>)
    ensures |r| == |l|
  {
    if l == [] then []
    else Totals(l[..|l| - 1]) + [DisplayLevel(l[|l| - 1].price, l[|l| - 1].size, SizeSum(l))]
  }

  /** Row `i` keeps level `i`'s price and size and carries the sum of sizes `0..i`. */
  lemma {:induction false} TotalsAt(l: Levels, i: nat)
    requires i < |l|
    ensures Totals(l)[i] == DisplayLevel(l[i].price, l[i].size, SizeSum(l[..i + 1]))
  {
    if i < |l| - 1 {
      var init := l[..|l| - 1];
      TotalsAt(init, i);
      assert init[..i + 1] == l[..i + 1];
    } else {
      assert l[..i + 1] == l;
    }
  }

  /** With sizes that are never negative, the running totals never decrease. */
  lemma TotalsNondecreasing(l: Levels)
    requires forall x :: x in l ==> x.size >= 0.0
    ensures forall i, j :: 0 <= i <= j < |l| ==> Totals(l)[i].total <= Totals(l)[j].total
  {
    forall i, j | 0 <= i <= j < |l|
      ensures Totals(l)[i].total <= Totals(l)[j].total
    {
      TotalsAt(l, i);
      TotalsAt(l, j);
      var gap := l[i + 1..j + 1];
      assert l[..j + 1] == l[..i + 1] + gap;
      SizeSumAppend(l[..i + 1], gap);
      SizeSumNonnegative(gap);
    }
  }

  lemma {:induction false} SizeSumNonnegative(l: Levels)
    requires forall x :: x in l ==> x.size >= 0.0
    ensures SizeSum(l) >= 0.0
  {
    if l != [] {
      assert l[|l| - 1] in l;
      assert forall x :: x in l[..|l| - 1] ==> x in l;
      SizeSumNonnegative(l[..|l| - 1]);
    }
  }

  /**
   * `calculateTotal`: a running total `currentTotal`, updated level by level
   * while the rows are produced.
   */
  method CalculateTotal(values: Levels) returns (r: seq<DisplayLevel>)
    ensures r == Totals(values)
    ensures |r| == |values|
    ensures forall i :: 0 <= i < |values| ==>
              r[i] == DisplayLevel(values[i].price, values[i].size, SizeSum(values[..i + 1]))
    ensures values != [] ==> r[|values| - 1].total == SizeSum(values)
  {
    var currentTotal := 0.0;
    r := [];
    var i := 0;
    while i < |values|
      invariant 0 <= i <= |values|
      invariant currentTotal == SizeSum(values[..i])
      invariant r == Totals(values[..i])
    {
      assert values[..i + 1][..i] == values[..i];
      currentTotal := currentTotal + values[i].size;
      r := r + [DisplayLevel(values[i].price, values[i].size, currentTotal)];
      i := i + 1;
    }
    assert values[..|values|] == values;
    forall k | 0 <= k < |values|
      ensures r[k] == DisplayLevel(values[k].price, values[k].size, SizeSum(values[..k + 1]))
    {
      TotalsAt(values, k);
    }
    if values != [] {
      assert values[..|values|] == values;
    }
  }

  /** `reverse()`: index `k` of the result is index `|s| - 1 - k` of the input. */
  function Reverse<T>(s: seq<T>): (r: seq<T>)
    ensures |r| == |s|
    ensures forall k :: 0 <= k < |s| ==> r[k] == s[|s| - 1 - k]
  {
    seq(|s|, k requires 0 <= k < |s| => s[|s| - 1 - k])
  }

  /** Reversing a non-empty sequence puts its head last. */
  lemma ReverseCons<T>(s: seq<T>)
    requires s != []
    ensures Reverse(s) == Reverse(s[1..]) + [s[0]]
  {
    var r := Reverse(s[1..]) + [s[0]];
    forall k | 0 <= k < |s| ensures Reverse(s)[k] == r[k] {
      if k < |s| - 1 {
        assert r[k] == Reverse(s[1..])[k] == s[1..][|s| - 2 - k];
      }
    }
  }

  lemma {:induction false} SizeSumReverse(l: Levels)
    ensures SizeSum(Reverse(l)) == SizeSum(l)
  {
    if l != [] {
      SizeSumReverse(l[1..]);
      ReverseCons(l);
      SizeSumAppend(Reverse(l[1..]), [l[0]]);
      SizeSumAppend([l[0]], l[1..]);
      assert l == [l[0]] + l[1..];
    } else {
      assert Reverse(l) == [];
    }
  }

  /** The first `m` elements of a reversal are the reversal of the last `m`. */
  lemma ReversePrefix<T>(s: seq<T>, i: nat)
    requires i <= |s|
    ensures Reverse(s)[..|s| - i] == Reverse(s[i..])
  {
    var t := s[i..];
    forall k | 0 <= k < |s| - i ensures Reverse(s)[k] == Reverse(t)[k] {
      assert Reverse(t)[k] == t[|t| - 1 - k];
    }
  }

  /** The page's rows: both ask and bid rows, and `previous` passed through as it is. */
  datatype DisplayBook = DisplayBook(asks: seq<DisplayLevel>, bids: seq<DisplayLevel>, previous: Book)

  /**
   * `formattedDisplayTradeInfoList`: the first `Depth` levels of each side;
   * bids accumulated in stored order, asks accumulated in reverse and
   * reversed back. Applied to the engine's book state.
   */
  function Project(s: BookState): (r: DisplayBook)
    ensures |r.asks| == |Take(s.latest.asks, Depth)| <= Depth
    ensures |r.bids| == |Take(s.latest.bids, Depth)| <= Depth
    ensures r.previous == s.previous
  {
    var asks := Reverse(Take(s.latest.asks, Depth));
    var bids := Take(s.latest.bids, Depth);
    DisplayBook(Reverse(Totals(asks)), Totals(bids), s.previous)
  }

  /**
   * Bid rows are the first `Depth` bids in stored order, row `i` carrying
   * the sum of sizes `0..i`, so the last row carries the sum of all shown
   * sizes; `previous` is passed through unchanged.
   */
  lemma ProjectBids(s: BookState)
    ensures Project(s).previous == s.previous
    ensures |Project(s).bids| == |Take(s.latest.bids, Depth)|
    ensures forall i :: 0 <= i < |Project(s).bids| ==>
              var b := Take(s.latest.bids, Depth);
              Project(s).bids[i] == DisplayLevel(b[i].price, b[i].size, SizeSum(b[..i + 1]))
    ensures Project(s).bids != [] ==>
              Project(s).bids[|Project(s).bids| - 1].total == SizeSum(Take(s.latest.bids, Depth))
  {
    var b := Take(s.latest.bids, Depth);
    forall i | 0 <= i < |b|
      ensures Project(s).bids[i] == DisplayLevel(b[i].price, b[i].size, SizeSum(b[..i + 1]))
    {
      TotalsAt(b, i);
    }
    if b != [] {
      assert b[..|b|] == b;
    }
  }

  /**
   * Ask rows are the first `Depth` asks in stored order, row `i` carrying
   * the sum of sizes from `i` to the last shown ask, so the first row
   * carries the sum of all shown sizes.
   */
  lemma ProjectAsks(s: BookState)
    ensures |Project(s).asks| == |Take(s.latest.asks, Depth)|
    ensures forall i :: 0 <= i < |Project(s).asks| ==>
              var a := Take(s.latest.asks, Depth);
              Project(s).asks[i] == DisplayLevel(a[i].price, a[i].size, SizeSum(a[i..]))
    ensures Project(s).asks != [] ==> Project(s).asks[0].total == SizeSum(Take(s.latest.asks, Depth))
  {
    var a := Take(s.latest.asks, Depth);
    var rows := Reverse(Totals(Reverse(a)));
    assert Project(s).asks == rows;
    forall i | 0 <= i < |a|
      ensures rows[i] == DisplayLevel(a[i].price, a[i].size, SizeSum(a[i..]))
    {
      AskRow(a, i);
    }
    if a != [] {
      assert a[0..] == a;
    }
  }

  /** Row `i` of the reversed accumulation carries the sizes from `i` to the end. */
  lemma AskRow(a: Levels, i: nat)
    requires i < |a|
    ensures Reverse(Totals(Reverse(a)))[i] == DisplayLevel(a[i].price, a[i].size, SizeSum(a[i..]))
  {
    AccumulatedFromEnd(a, i);
  }

  /** Accumulating the reversed ladder, the row for level `i` holds the sizes from `i` to the end. */
  lemma AccumulatedFromEnd(a: Levels, i: nat)
    requires i < |a|
    ensures Totals(Reverse(a))[|a| - 1 - i] == DisplayLevel(a[i].price, a[i].size, SizeSum(a[i..]))
  {
    var rev := Reverse(a);
    var k: nat := |a| - 1 - i;
    TotalsAt(rev, k);
    ReversePrefix(a, i);
    assert rev[..k + 1] == Reverse(a[i..]);
    SizeSumReverse(a[i..]);
  }

  /**
   * Bids 99/5, 98/3 show totals 5 and 8; asks 101/3, 100/2 show 101 with
   * total 5 above 100 with total 2, the best ask carrying its own size.
   */
  lemma ProjectExample()
    ensures var s := BookState(Book([Level(101.0, 3.0), Level(100.0, 2.0)], [Level(99.0, 5.0), Level(98.0, 3.0)]), EmptyBook);
            && Project(s).bids == [DisplayLevel(99.0, 5.0, 5.0), DisplayLevel(98.0, 3.0, 8.0)]
            && Project(s).asks == [DisplayLevel(101.0, 3.0, 5.0), DisplayLevel(100.0, 2.0, 2.0)]
  {
    var s := BookState(Book([Level(101.0, 3.0), Level(100.0, 2.0)], [Level(99.0, 5.0), Level(98.0, 3.0)]), EmptyBook);
    var bids := s.latest.bids;
    assert bids[..1] == [Level(99.0, 5.0)];
    assert SizeSum(bids[..1]) == 5.0;
    assert SizeSum(bids) == 8.0;
    assert Totals(bids[..1]) == [DisplayLevel(99.0, 5.0, 5.0)];
    assert Totals(bids) == [DisplayLevel(99.0, 5.0, 5.0), DisplayLevel(98.0, 3.0, 8.0)];
    var rev := [Level(100.0, 2.0), Level(101.0, 3.0)];
    assert Reverse(s.latest.asks) == rev by {
      assert s.latest.asks[1..] == [Level(100.0, 2.0)];
      assert Reverse([Level(100.0, 2.0)]) == [Level(100.0, 2.0)];
    }
    assert rev[..1] == [Level(100.0, 2.0)];
    assert SizeSum(rev[..1]) == 2.0;
    assert SizeSum(rev) == 5.0;
    assert Totals(rev[..1]) == [DisplayLevel(100.0, 2.0, 2.0)];
    var t := [DisplayLevel(100.0, 2.0, 2.0), DisplayLevel(101.0, 3.0, 5.0)];
    assert Totals(rev) == t;
    assert Reverse(t) == [DisplayLevel(101.0, 3.0, 5.0), DisplayLevel(100.0, 2.0, 2.0)] by {
      assert t[1..] == [DisplayLevel(101.0, 3.0, 5.0)];
      assert Reverse([DisplayLevel(101.0, 3.0, 5.0)]) == [DisplayLevel(101.0, 3.0, 5.0)];
    }
  }

  // ---------------------------------------------------------------------
  // The page's own snapshot handler

  /** The page keeps each side as a price-keyed record. */
  datatype RecordBook = RecordBook(asks: map<Price, Size>, bids: map<Price, Size>)

  datatype PageState = PageState(latest: RecordBook, previous: RecordBook)

  /**
   * The page's `handleInitTradeInfoList`: every price of the snapshot, with
   * the size of its last entry, in both `latest` and `previous`.
   */
  function PageSnapshot(p: Payload): (s: PageState)
    ensures s.latest == s.previous
    ensures s.latest.asks.Keys == Prices(p.asks) && s.latest.bids.Keys == Prices(p.bids)
    ensures forall q :: q in s.latest.asks ==> LastFor(p.asks, q) == Some(s.latest.asks[q])
    ensures forall q :: q in s.latest.bids ==> LastFor(p.bids, q) == Some(s.latest.bids[q])
  {
    FromEntriesLast(p.asks);
    FromEntriesLast(p.bids);
    var b := RecordBook(FromEntries(p.asks), FromEntries(p.bids));
    PageState(b, b)
  }

  // ---------------------------------------------------------------------
  // The last-price indicator

  /** `hasSetLatestPrice`, `isLatestPriceHigher`, `isLatestPriceEqual`, `isLatestPriceLower`. */
  datatype PriceFlags = PriceFlags(hasSetLatest: bool, higher: bool, equal: bool, lower: bool)

  /**
   * The flags computed from the two slots. An unset slot becomes `NaN`
   * under `Number(...)`, and every comparison with `NaN` is false.
   */
  function Flags(info: LastPrice.LastPriceInfo): (f: PriceFlags)
    ensures f.hasSetLatest <==> info.latest.Some?
    ensures f.higher <==> info.latest.Some? && info.previous.Some? && info.latest.value > info.previous.value
    ensures f.lower <==> info.latest.Some? && info.previous.Some? && info.latest.value < info.previous.value
    ensures info.latest.Some? && info.previous.Some? ==>
              (f.higher || f.equal || f.lower)
              && !(f.higher && f.equal) && !(f.higher && f.lower) && !(f.equal && f.lower)
    ensures info.latest.None? || info.previous.None? ==> !f.higher && !f.equal && !f.lower
  {
    match (info.latest, info.previous)
    case (Some(l), Some(p)) => PriceFlags(true, l > p, l == p, l < p)
    case _ => PriceFlags(info.latest.Some?, false, false, false)
  }

  datatype Arrow = NoArrow | Up | Down

  /** The arrow is rendered when a latest price is set and not equal: up when higher, down otherwise. */
  function ArrowOf(f: PriceFlags): (r: Arrow)
    ensures r != NoArrow <==> f.hasSetLatest && !f.equal
    ensures r == Up ==> f.higher
    ensures r == Down ==> !f.higher
  {
    if f.hasSetLatest && !f.equal then (if f.higher then Up else Down) else NoArrow
  }

  /**
   * The arrow in terms of the two slots: shown exactly when `latest` is set
   * and differs from `previous` or `previous` is unset; up exactly when
   * `latest` is above `previous`. With `previous` unset it points down.
   */
  lemma ArrowShown(info: LastPrice.LastPriceInfo)
    ensures ArrowOf(Flags(info)) != NoArrow <==>
              info.latest.Some? && (info.previous.None? || info.latest.value != info.previous.value)
    ensures ArrowOf(Flags(info)) == Up <==>
              info.latest.Some? && info.previous.Some? && info.latest.value > info.previous.value
    ensures info.latest.Some? && info.previous.None? ==> ArrowOf(Flags(info)) == Down
  {
  }
}
