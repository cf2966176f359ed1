/**
 * Price ladders of one side of an order book, and the dictionary operations
 * the reconciliation engine performs on them: building a price-keyed
 * dictionary from a ladder (`Object.fromEntries`), folding a batch of
 * changes into it, and listing it back best price first.
 */
module Ladder {
  import opened Wrappers

  type Price = real
  type Size = real

  /** One `[price, size]` entry of a ladder or of a change batch. */
  datatype Level = Level(price: Price, size: Size)

  type Levels = seq<Level>

  /** Number of levels kept per side (`slice(0, 8)`). */
  const Depth: nat := 8

  /** `s.slice(0, n)`: the first `n` elements, or all of them when fewer. */
  function Take<T>(s: seq<T>, n: nat): (r: seq<T>)
    ensures |r| == if |s| < n then |s| else n
    ensures r == s[..|r|]
  {
    if |s| <= n then s else s[..n]
  }

  /** The prices that occur in a ladder. */
  function Prices(l: Levels): set<Price>
  {
    set x | x in l :: x.price
  }

  predicate StrictlyDescending(l: Levels)
  {
    forall i, j :: 0 <= i < j < |l| ==> l[i].price > l[j].price
  }

  /** `l` lists exactly the entries of dictionary `m`, highest price first. */
  ghost predicate IsListing(l: Levels, m: map<Price, Size>)
  {
    && StrictlyDescending(l)
    && (forall x :: x in l <==> x.price in m && m[x.price] == x.size)
  }

  lemma HeadIsBest(l: Levels, x: Level)
    requires StrictlyDescending(l) && x in l
    ensures x.price <= l[0].price
    ensures x in l[1..] <==> x.price < l[0].price
  {
    var k :| 0 <= k < |l| && l[k] == x;
    if x in l[1..] {
      var j :| 0 <= j < |l| - 1 && l[1..][j] == x;
      assert l[j + 1] == x;
    }
    if k > 0 {
      assert l[1..][k - 1] == x;
    }
  }

  /** Inserts a level at its place in a ladder kept highest price first. */
  function Insert(x: Level, l: Levels): (r: Levels)
    ensures |r| == |l| + 1
  {
    if l == [] || x.price > l[0].price then [x] + l
    else [l[0]] + Insert(x, l[1..])
  }

  /** A level above every price of a descending ladder can go in front of it. */
  lemma ConsDescending(x: Level, l: Levels)
    requires StrictlyDescending(l) && forall y :: y in l ==> x.price > y.price
    ensures StrictlyDescending([x] + l)
  {
    forall i, j | 0 <= i < j < |[x] + l| ensures ([x] + l)[i].price > ([x] + l)[j].price {
      if i == 0 {
        assert ([x] + l)[j] == l[j - 1];
        assert l[j - 1] in l;
      } else {
        assert ([x] + l)[i] == l[i - 1] && ([x] + l)[j] == l[j - 1];
      }
    }
  }

  /** `Insert` adds exactly the one level. */
  lemma {:induction false} InsertElements(x: Level, l: Levels)
    ensures forall y :: y in Insert(x, l) <==> y == x || y in l
  {
    if l != [] && x.price <= l[0].price {
      InsertElements(x, l[1..]);
      assert l == [l[0]] + l[1..];
    }
  }

  /** Inserting a new price into a descending ladder keeps it descending and adds exactly that level. */
  lemma {:induction false} InsertCorrect(x: Level, l: Levels)
    requires StrictlyDescending(l) && x.price !in Prices(l)
    ensures StrictlyDescending(Insert(x, l))
    ensures forall y :: y in Insert(x, l) <==> y == x || y in l
  {
    InsertElements(x, l);
    if l == [] || x.price > l[0].price {
      forall y | y in l ensures x.price > y.price {
        HeadIsBest(l, y);
      }
      ConsDescending(x, l);
    } else {
      assert l[0] in l;
      assert x.price < l[0].price;
      var tl := l[1..];
      assert StrictlyDescending(tl);
      assert x.price !in Prices(tl) by {
        forall y | y in tl ensures y in l { }
      }
      InsertCorrect(x, tl);
      InsertElements(x, tl);
      forall y | y in Insert(x, tl) ensures l[0].price > y.price {
        if y in tl { HeadIsBest(l, y); }
      }
      ConsDescending(l[0], Insert(x, tl));
    }
  }

  lemma EmptyIfNoKeys(m: map<Price, Size>)
    ensures (forall p :: p !in m.Keys) ==> |m| == 0
  {
    if forall p :: p !in m.Keys {
      assert m.Keys == {};
    }
  }

  /** The listing of a dictionary: its entries, highest price first. */
  ghost function Listing(m: map<Price, Size>): (l: Levels)
    ensures IsListing(l, m)
    decreases m.Keys
  {
    if |m| == 0 then []
    else
      EmptyIfNoKeys(m);
      var p :| p in m.Keys;
      var rest := Listing(m - {p});
      InsertCorrect(Level(p, m[p]), rest);
      Insert(Level(p, m[p]), rest)
  }

  /** Dropping the head of a listing lists the dictionary without that price. */
  lemma ListingTail(l: Levels, m: map<Price, Size>)
    requires IsListing(l, m) && l != []
    ensures IsListing(l[1..], m - {l[0].price})
  {
    assert l[0] in l;
    forall x
      ensures x in l[1..] <==> x.price in m - {l[0].price} && m[x.price] == x.size
    {
      if x in l[1..] {
        HeadIsBest(l, x);
      }
      if x.price in m - {l[0].price} && m[x.price] == x.size {
        HeadIsBest(l, x);
      }
    }
  }

  /** A dictionary has exactly one listing. */
  lemma {:induction false} ListingUnique(a: Levels, b: Levels, m: map<Price, Size>)
    requires IsListing(a, m) && IsListing(b, m)
    ensures a == b
    decreases |a|
  {
    assert b != [] ==> b[0] in a;
    assert a != [] ==> a[0] in b;
    if a != [] {
      HeadIsBest(a, b[0]);
      HeadIsBest(b, a[0]);
      assert a[0] == b[0];
      ListingTail(a, m);
      ListingTail(b, m);
      ListingUnique(a[1..], b[1..], m - {a[0].price});
      assert a == [a[0]] + a[1..];
      assert b == [b[0]] + b[1..];
    }
  }

  /**
   * The size of the last entry for price `p` in `l`, or `None` when `p`
   * does not occur.
   */
  function LastFor(l: Levels, p: Price): (r: Option<Size>)
    ensures r.None? <==> p !in Prices(l)
    ensures r.Some? ==> exists i :: 0 <= i < |l| && l[i] == Level(p, r.value)
                                  && forall j :: i < j < |l| ==> l[j].price != p
  {
    if l == [] then None
    else
      var init := l[..|l| - 1];
      assert l == init + [l[|l| - 1]];
      assert forall y :: y in l <==> y in init || y == l[|l| - 1];
      if l[|l| - 1].price == p then Some(l[|l| - 1].size)
      else
        var r := LastFor(init, p);
        if r.Some? then
          var i :| 0 <= i < |init| && init[i] == Level(p, r.value)
                   && forall j :: i < j < |init| ==> init[j].price != p;
          assert l[i] == Level(p, r.value);
          r
        else r
  }

  /** `Object.fromEntries(l)`: a price-keyed dictionary, later entries overwriting earlier ones. */
  function FromEntries(l: Levels): (m: map<Price, Size>)
    ensures m.Keys == Prices(l)
  {
    if l == [] then map[]
    else
      var init := l[..|l| - 1];
      assert l == init + [l[|l| - 1]];
      assert forall y :: y in l <==> y in init || y == l[|l| - 1];
      FromEntries(init)[l[|l| - 1].price := l[|l| - 1].size]
  }

  /** Each dictionary entry carries the size of the LAST ladder entry with that price. */
  lemma {:induction false} FromEntriesAt(l: Levels, p: Price)
    ensures p in FromEntries(l) <==> p in Prices(l)
    ensures p in FromEntries(l) ==> LastFor(l, p) == Some(FromEntries(l)[p])
  {
    if l != [] {
      FromEntriesAt(l[..|l| - 1], p);
    }
  }

  /** `FromEntriesAt` for every key at once. */
  lemma FromEntriesLast(l: Levels)
    ensures forall p :: p in FromEntries(l) ==> LastFor(l, p) == Some(FromEntries(l)[p])
  {
    forall p | p in FromEntries(l) ensures LastFor(l, p) == Some(FromEntries(l)[p]) {
      FromEntriesAt(l, p);
    }
  }

  /** A ladder already best price first, without repeated prices, lists its own dictionary. */
  lemma {:induction false} FromEntriesOfDescending(l: Levels)
    requires StrictlyDescending(l)
    ensures IsListing(l, FromEntries(l))
  {
    if l != [] {
      var init := l[..|l| - 1];
      var last := l[|l| - 1];
      assert l == init + [last];
      InitAbove(l);
      FromEntriesOfDescending(init);
      SnocListing(init, last, FromEntries(init));
    }
  }

  /** All but the last level of a descending ladder: still descending, and above the last. */
  lemma InitAbove(l: Levels)
    requires StrictlyDescending(l) && l != []
    ensures StrictlyDescending(l[..|l| - 1])
    ensures forall x :: x in l[..|l| - 1] ==> x.price > l[|l| - 1].price
  {
    var init := l[..|l| - 1];
    forall x | x in init ensures x.price > l[|l| - 1].price {
      var k :| 0 <= k < |init| && init[k] == x;
      assert l[k] == x;
    }
  }

  /** A level below every price of a listing extends it to the dictionary with that entry added. */
  lemma SnocListing(l: Levels, x: Level, m: map<Price, Size>)
    requires IsListing(l, m) && forall y :: y in l ==> y.price > x.price
    ensures IsListing(l + [x], m[x.price := x.size])
  {
    var r := l + [x];
    forall i, j | 0 <= i < j < |r| ensures r[i].price > r[j].price {
      assert r[i] == l[i];
      assert l[i] in l;
      if j < |l| { assert r[j] == l[j]; }
    }
    forall y ensures y in r <==> y.price in m[x.price := x.size] && m[x.price := x.size][y.price] == y.size {
      assert y in r <==> y in l || y == x;
      if y in l { assert y.price != x.price; }
    }
  }

  /** One change: size 0 deletes the price, any other size inserts or overwrites it. */
  ghost function Apply(m: map<Price, Size>, c: Level): (r: map<Price, Size>)
    ensures c.size == 0.0 ==> c.price !in r
    ensures c.size != 0.0 ==> c.price in r && r[c.price] == c.size
    ensures forall p :: p != c.price ==> (p in r <==> p in m) && (p in m ==> r[p] == m[p])
  {
    if c.size == 0.0 then m - {c.price} else m[c.price := c.size]
  }

  /** A batch of changes applied in order to a dictionary. */
  ghost function Merge(m: map<Price, Size>, changes: Levels): (r: map<Price, Size>)
    ensures r.Keys <= m.Keys + Prices(changes)
  {
    if changes == [] then m
    else Apply(Merge(m, changes[..|changes| - 1]), changes[|changes| - 1])
  }

  /**
   * The entry for one price after a batch: decided by the last change for
   * that price (0 removes, anything else is the new size), and untouched
   * when the batch has none.
   */
  lemma {:induction false} MergeAt(m: map<Price, Size>, changes: Levels, p: Price)
    ensures LastFor(changes, p) == None ==>
              (p in Merge(m, changes) <==> p in m)
              && (p in m ==> Merge(m, changes)[p] == m[p])
    ensures LastFor(changes, p) == Some(0.0) ==> p !in Merge(m, changes)
    ensures forall s :: LastFor(changes, p) == Some(s) && s != 0.0 ==>
              p in Merge(m, changes) && Merge(m, changes)[p] == s
  {
    if changes != [] {
      MergeAt(m, changes[..|changes| - 1], p);
    }
  }

  /** Merged dictionaries never hold a size 0 that the old one did not. */
  lemma {:induction false} MergeNoNewZero(m: map<Price, Size>, changes: Levels)
    ensures forall p :: p in Merge(m, changes) && Merge(m, changes)[p] == 0.0 ==> p in m && m[p] == 0.0
  {
    if changes != [] {
      MergeNoNewZero(m, changes[..|changes| - 1]);
    }
  }
}
