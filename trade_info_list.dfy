/**
 * The order-book reconciliation engine of the `useTradeInfoList` hook: a
 * book state holding the `latest` and the `previous` ladders of both sides,
 * replaced wholesale by a snapshot message and merged with a delta message.
 */
module TradeInfoList {
  import opened Wrappers
  import opened Ladder

  /** Both sides of the book. */
  datatype Book = Book(asks: Levels, bids: Levels)

  /** The hook's state: the current book and the one it replaced. */
  datatype BookState = BookState(latest: Book, previous: Book)

  const EmptyBook: Book := Book([], [])

  /** The state before any message has arrived. */
  const Initial: BookState := BookState(EmptyBook, EmptyBook)

  /**
   * The `data` part of an order-book message. `kind` is its `type` field.
   * The sequence numbers, the timestamp and the symbol are carried on the
   * wire but never read, so they are not part of the model.
   */
  datatype Payload = Payload(kind: string, asks: Levels, bids: Levels)

  /** A parsed message; `data` is absent for control messages and unreadable payloads. */
  datatype Message = Message(data: Option<Payload>)

  predicate Bounded(b: Book)
  {
    |b.asks| <= Depth && |b.bids| <= Depth
  }

  /** A snapshot keeps the first `Depth` levels of each side exactly as received. */
  function SnapshotBook(p: Payload): (b: Book)
    ensures Bounded(b)
    ensures |b.asks| == (if |p.asks| < Depth then |p.asks| else Depth) && b.asks == p.asks[..|b.asks|]
    ensures |b.bids| == (if |p.bids| < Depth then |p.bids| else Depth) && b.bids == p.bids[..|b.bids|]
  {
    Book(Take(p.asks, Depth), Take(p.bids, Depth))
  }

  /** The dictionary of one side once a batch of changes has been folded into it. */
  ghost function Merged(l: Levels, changes: Levels): map<Price, Size>
  {
    Merge(FromEntries(l), changes)
  }

  /** One side after a delta: merged, highest price first, cut to `Depth` levels. */
  ghost function DeltaSide(l: Levels, changes: Levels): (r: Levels)
    ensures |r| <= Depth
  {
    Take(Listing(Merged(l, changes)), Depth)
  }

  /** A delta computes each side from that side of the old book and that side of the batch only. */
  ghost function DeltaBook(b: Book, p: Payload): (r: Book)
    ensures Bounded(r)
  {
    Book(DeltaSide(b.asks, p.asks), DeltaSide(b.bids, p.bids))
  }

  /** The message dispatch of `onmessage`. */
  ghost function Step(s: BookState, msg: Message): (r: BookState)
    ensures msg.data.Some? && msg.data.value.kind == "snapshot" ==>
              r.latest == r.previous && r.latest == SnapshotBook(msg.data.value)
    ensures msg.data.Some? && msg.data.value.kind == "delta" ==>
              r.previous == s.latest && r.latest == DeltaBook(s.latest, msg.data.value)
    ensures msg.data.None? || msg.data.value.kind !in {"snapshot", "delta"} ==> r == s
  {
    match msg.data
    case None => s
    case Some(p) =>
      if p.kind == "snapshot" then BookState(SnapshotBook(p), SnapshotBook(p))
      else if p.kind == "delta" then BookState(DeltaBook(s.latest, p), s.latest)
      else s
  }

  /** The state after a stream of messages, processed in arrival order. */
  ghost function Run(s: BookState, msgs: seq<Message>): (r: BookState)
    ensures Bounded(s.latest) && Bounded(s.previous) ==> Bounded(r.latest) && Bounded(r.previous)
  {
    if msgs == [] then s else Step(Run(s, msgs[..|msgs| - 1]), msgs[|msgs| - 1])
  }

  // ---------------------------------------------------------------------
  // Properties of a delta

  /**
   * After a delta a side is strictly descending by price (so no price is
   * repeated), holds at most `Depth` levels, each one an entry of the
   * merged dictionary, and every merged price left out ranks below all
   * `Depth` kept ones.
   */
  lemma DeltaSideShape(l: Levels, changes: Levels)
    ensures StrictlyDescending(DeltaSide(l, changes))
    ensures |DeltaSide(l, changes)| <= Depth
    ensures forall x :: x in DeltaSide(l, changes) ==>
              x.price in Merged(l, changes) && Merged(l, changes)[x.price] == x.size
    ensures forall p :: p in Merged(l, changes) && p !in Prices(DeltaSide(l, changes)) ==>
              |DeltaSide(l, changes)| == Depth
              && forall x :: x in DeltaSide(l, changes) ==> x.price > p
  {
    TakeOfListing(Listing(Merged(l, changes)), Merged(l, changes), DeltaSide(l, changes), Depth);
  }

  /** The first `n` levels of a listing: the `n` best entries of the dictionary. */
  lemma TakeOfListing(all: Levels, m: map<Price, Size>, r: Levels, n: nat)
    requires IsListing(all, m) && r == Take(all, n)
    ensures StrictlyDescending(r) && |r| <= n
    ensures forall x :: x in r ==> x.price in m && m[x.price] == x.size
    ensures forall p :: p in m && p !in Prices(r) ==>
              |r| == n && forall x :: x in r ==> x.price > p
  {
    assert r == all[..|r|];
    forall x | x in r ensures x in all {
      var i :| 0 <= i < |r| && r[i] == x;
      assert all[i] == x;
    }
    forall p | p in m && p !in Prices(r)
      ensures |r| == n && forall x :: x in r ==> x.price > p
    {
      assert Level(p, m[p]) in all;
      var j :| 0 <= j < |all| && all[j] == Level(p, m[p]);
      forall i | 0 <= i < |r| ensures all[i].price != p {
        assert r[i] in r;
      }
      assert j >= |r|;
      forall x | x in r ensures x.price > p {
        var i :| 0 <= i < |r| && r[i] == x;
        assert all[i] == x;
      }
    }
  }

  /** Where a price is evicted from a side after a delta: `Depth` better prices are kept. */
  ghost predicate KeptOrOutranked(r: Levels, x: Level)
  {
    x in r || (|r| == Depth && forall y :: y in r ==> y.price > x.price)
  }

  /**
   * One price after a delta. The last change for it in the batch decides:
   * size 0 removes it, whether it was on the ladder or not; any other size
   * puts it on the ladder with that size unless `Depth` better prices
   * push it out. A price the batch does not mention keeps the size the old
   * ladder gave it, under the same eviction rule, and a price on neither is
   * never invented.
   */
  lemma DeltaSideAt(l: Levels, changes: Levels, p: Price)
    ensures LastFor(changes, p) == Some(0.0) ==> p !in Prices(DeltaSide(l, changes))
    ensures forall s :: LastFor(changes, p) == Some(s) && s != 0.0 ==>
              KeptOrOutranked(DeltaSide(l, changes), Level(p, s))
    ensures forall s :: LastFor(changes, p) == None && LastFor(l, p) == Some(s) ==>
              KeptOrOutranked(DeltaSide(l, changes), Level(p, s))
    ensures LastFor(changes, p) == None && p !in Prices(l) ==> p !in Prices(DeltaSide(l, changes))
  {
    var m := Merged(l, changes);
    var r := DeltaSide(l, changes);
    DeltaSideShape(l, changes);
    MergeAt(FromEntries(l), changes, p);
    FromEntriesAt(l, p);
    if p in Prices(r) {
      var x :| x in r && x.price == p;
    }
    forall s | (LastFor(changes, p) == Some(s) && s != 0.0) || (LastFor(changes, p) == None && LastFor(l, p) == Some(s))
      ensures KeptOrOutranked(r, Level(p, s))
    {
      assert p in m && m[p] == s;
      if p in Prices(r) {
        var x :| x in r && x.price == p;
        assert x == Level(p, s);
      }
    }
  }

  /** A delta whose batch leaves a side alone keeps a side that is already descending and within depth. */
  lemma DeltaSideNoChanges(l: Levels)
    requires StrictlyDescending(l) && |l| <= Depth
    ensures DeltaSide(l, []) == l
  {
    FromEntriesOfDescending(l);
    ListingUnique(Listing(FromEntries(l)), l, FromEntries(l));
  }

  /** A delta stores a size 0 only if the old ladder already had one: the batch's zeros only delete. */
  lemma DeltaSideNoZero(l: Levels, changes: Levels)
    requires forall x :: x in l ==> x.size != 0.0
    ensures forall x :: x in DeltaSide(l, changes) ==> x.size != 0.0
  {
    DeltaSideShape(l, changes);
    MergeNoNewZero(FromEntries(l), changes);
    forall p | p in FromEntries(l) ensures FromEntries(l)[p] != 0.0 {
      FromEntriesAt(l, p);
      var i :| 0 <= i < |l| && l[i] == Level(p, FromEntries(l)[p]);
      assert l[i] in l;
    }
  }

  // ---------------------------------------------------------------------
  // Properties of every reachable state

  /** From the initial state, any message stream keeps both books within depth. */
  lemma {:induction false} ReachableBounded(msgs: seq<Message>)
    ensures Bounded(Run(Initial, msgs).latest) && Bounded(Run(Initial, msgs).previous)
  {
    if msgs != [] {
      ReachableBounded(msgs[..|msgs| - 1]);
      var s := Run(Initial, msgs[..|msgs| - 1]);
      var msg := msgs[|msgs| - 1];
      if msg.data.Some? && msg.data.value.kind == "delta" {
        DeltaSideShape(s.latest.asks, msg.data.value.asks);
        DeltaSideShape(s.latest.bids, msg.data.value.bids);
      }
    }
  }

  /**
   * The one-step lag: after a delta `previous` is the `latest` of the state
   * before it; after a snapshot the two are equal.
   */
  lemma RunLag(msgs: seq<Message>, msg: Message)
    requires msg.data.Some?
    ensures msg.data.value.kind == "delta" ==>
              Run(Initial, msgs + [msg]).previous == Run(Initial, msgs).latest
    ensures msg.data.value.kind == "snapshot" ==>
              Run(Initial, msgs + [msg]).previous == Run(Initial, msgs + [msg]).latest
  {
    assert (msgs + [msg])[..|msgs|] == msgs;
  }

  /** A listing found by other means is the listing. */
  lemma ListingIs(l: Levels, m: map<Price, Size>)
    requires IsListing(l, m)
    ensures Listing(m) == l
  {
    ListingUnique(Listing(m), l, m);
  }

  /** A delta without ask changes re-sorts the snapshot's asks 100/2, 101/3 highest first. */
  lemma ExampleAsksResorted()
    ensures DeltaSide([Level(100.0, 2.0), Level(101.0, 3.0)], []) == [Level(101.0, 3.0), Level(100.0, 2.0)]
  {
    var stored := [Level(100.0, 2.0), Level(101.0, 3.0)];
    assert stored[..1] == [Level(100.0, 2.0)];
    assert FromEntries(stored) == map[100.0 := 2.0, 101.0 := 3.0];
    ListingIs([Level(101.0, 3.0), Level(100.0, 2.0)], map[100.0 := 2.0, 101.0 := 3.0]);
  }

  /** Bid 99/5 changed to size 7 by a nonzero change. */
  lemma ExampleBidOverwritten()
    ensures DeltaSide([Level(99.0, 5.0)], [Level(99.0, 7.0)]) == [Level(99.0, 7.0)]
  {
    var m := FromEntries([Level(99.0, 5.0)]);
    assert m == map[99.0 := 5.0];
    assert Merge(m, [Level(99.0, 7.0)]) == map[99.0 := 7.0];
    ListingIs([Level(99.0, 7.0)], map[99.0 := 7.0]);
  }

  /** Bid 99/7 removed by a change of size 0. */
  lemma ExampleBidRemoved()
    ensures DeltaSide([Level(99.0, 7.0)], [Level(99.0, 0.0)]) == []
  {
    var m := FromEntries([Level(99.0, 7.0)]);
    assert m == map[99.0 := 7.0];
    assert Merge(m, [Level(99.0, 0.0)]) == map[];
    ListingIs([], map[]);
  }

  /**
   * A snapshot with asks 100/2, 101/3 and bid 99/5, then a delta setting
   * bid 99 to 7, then a delta removing bid 99. The snapshot is stored as
   * received; the first delta re-sorts the asks highest first; each delta
   * moves the book it replaces to `previous`.
   */
  lemma ExampleStream()
    ensures var snap := Message(Some(Payload("snapshot", [Level(100.0, 2.0), Level(101.0, 3.0)], [Level(99.0, 5.0)])));
            var raise := Message(Some(Payload("delta", [], [Level(99.0, 7.0)])));
            var remove := Message(Some(Payload("delta", [], [Level(99.0, 0.0)])));
            var a := Book([Level(100.0, 2.0), Level(101.0, 3.0)], [Level(99.0, 5.0)]);
            var b := Book([Level(101.0, 3.0), Level(100.0, 2.0)], [Level(99.0, 7.0)]);
            && Run(Initial, [snap]) == BookState(a, a)
            && Run(Initial, [snap, raise]) == BookState(b, a)
            && Run(Initial, [snap, raise, remove]) == BookState(Book(b.asks, []), b)
  {
    var snap := Message(Some(Payload("snapshot", [Level(100.0, 2.0), Level(101.0, 3.0)], [Level(99.0, 5.0)])));
    var raise := Message(Some(Payload("delta", [], [Level(99.0, 7.0)])));
    var remove := Message(Some(Payload("delta", [], [Level(99.0, 0.0)])));
    var b := Book([Level(101.0, 3.0), Level(100.0, 2.0)], [Level(99.0, 7.0)]);
    assert [snap, raise][..1] == [snap];
    assert [snap, raise, remove][..2] == [snap, raise];
    ExampleAsksResorted();
    ExampleBidOverwritten();
    ExampleBidRemoved();
    DeltaSideNoChanges(b.asks);
  }

  // ---------------------------------------------------------------------
  // The engine

  /**
   * `Object.entries(m)` sorted with the comparator `Number(b) - Number(a)`:
   * the entries are taken in whatever order the dictionary yields them and
   * each is inserted at its place, highest price first.
   */
  method SortedEntries(m: map<Price, Size>) returns (l: Levels)
    ensures l == Listing(m)
  {
    var rest := m;
    l := [];
    while |rest| != 0
      invariant rest.Keys <= m.Keys
      invariant forall p :: p in rest ==> rest[p] == m[p]
      invariant IsListing(l, m - rest.Keys)
      decreases rest.Keys
    {
      EmptyIfNoKeys(rest);
      var p :| p in rest.Keys;
      InsertCorrect(Level(p, rest[p]), l);
      l := Insert(Level(p, rest[p]), l);
      rest := rest - {p};
    }
    assert m - rest.Keys == m;
    ListingUnique(l, Listing(m), m);
  }

  /**
   * One side of `handleUpdateTradeInfoList`: the old ladder becomes a
   * dictionary, the batch is folded into it in order (size 0 deletes, any
   * other size inserts or overwrites), and the result is sorted by
   * descending price and cut to `Depth` levels.
   */
  method ApplyChanges(l: Levels, changes: Levels) returns (r: Levels)
    ensures r == DeltaSide(l, changes)
  {
    var m := FromEntries(l);
    var i := 0;
    while i < |changes|
      invariant 0 <= i <= |changes|
      invariant m == Merge(FromEntries(l), changes[..i])
    {
      var c := changes[i];
      if c.size == 0.0 {
        m := m - {c.price};
      } else {
        m := m[c.price := c.size];
      }
      assert changes[..i + 1][..i] == changes[..i];
      i := i + 1;
    }
    assert changes[..|changes|] == changes;
    var sorted := SortedEntries(m);
    r := Take(sorted, Depth);
  }

  /** The hook's book state, updated in place by each message. */
  class OrderBook {
    var latest: Book
    var previous: Book

    function State(): BookState
      reads this
    {
      BookState(latest, previous)
    }

    constructor ()
      ensures State() == Initial
    {
      latest := EmptyBook;
      previous := EmptyBook;
    }

    /** `handleInitTradeInfoList`: both `latest` and `previous` become the snapshot. */
    method ApplySnapshot(p: Payload)
      modifies this
      ensures latest == SnapshotBook(p) && previous == latest
    {
      var b := SnapshotBook(p);
      latest, previous := b, b;
    }

    /** `handleUpdateTradeInfoList`: the merged book becomes `latest`, the old `latest` becomes `previous`. */
    method ApplyDelta(p: Payload)
      modifies this
      ensures previous == old(latest)
      ensures latest == DeltaBook(old(latest), p)
    {
      var asks := ApplyChanges(latest.asks, p.asks);
      var bids := ApplyChanges(latest.bids, p.bids);
      latest, previous := Book(asks, bids), latest;
    }

    /** `onmessage`: dispatch on `data.type`; anything else leaves the state alone. */
    method OnMessage(msg: Message)
      modifies this
      ensures State() == Step(old(State()), msg)
    {
      if msg.data.Some? && msg.data.value.kind == "snapshot" {
        ApplySnapshot(msg.data.value);
      }
      if msg.data.Some? && msg.data.value.kind == "delta" {
        ApplyDelta(msg.data.value);
      }
    }
  }
}
