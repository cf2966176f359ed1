/**
 * The `useLastPrice` hook: a two-slot memory of trade prices fed by
 * `tradeHistoryApi` events, each listing the most recent trades newest first.
 */
module LastPrice {
  import opened Wrappers

  /** One trade of an event; the price is the only field the hook reads. */
  datatype Trade = Trade(price: real)

  /** `lastPriceInfo`; `None` stands for `undefined`. */
  datatype LastPriceInfo = LastPriceInfo(previous: Option<real>, latest: Option<real>)

  /** Both slots start out unset. */
  const Initial: LastPriceInfo := LastPriceInfo(None, None)

  /**
   * The events whose update does not throw: when `data` is present it must
   * hold a first trade, and a second one while `previous` is still unset.
   */
  predicate CanUpdate(pre: LastPriceInfo, data: Option<seq<Trade>>)
  {
    data.Some? ==> |data.value| >= 1 && (pre.previous.None? ==> |data.value| >= 2)
  }

  /**
   * The updater passed to `setLastPriceInfo`: `latest` becomes the newest
   * trade's price; `previous` becomes the second trade's price while it is
   * unset, and the old `latest` afterwards. An event without `data` reads as
   * `undefined` through the optional chaining.
   */
  function Update(pre: LastPriceInfo, data: Option<seq<Trade>>): (r: LastPriceInfo)
    requires CanUpdate(pre, data)
    ensures r.latest.Some? <==> data.Some?
    ensures data.Some? ==> r.latest.value == data.value[0].price
    ensures pre.previous.Some? ==> r.previous == pre.latest
    ensures pre.previous.None? ==> (r.previous.Some? <==> data.Some?)
    ensures pre.previous.None? && data.Some? ==> r.previous.value == data.value[1].price
  {
    var latest := if data.Some? then Some(data.value[0].price) else None;
    var previous :=
      if pre.previous.None? then (if data.Some? then Some(data.value[1].price) else None)
      else pre.latest;
    LastPriceInfo(previous, latest)
  }

  /**
   * From the initial state, where both slots are unset, an event without
   * `data` changes nothing, and the first event with trades sets `latest` to
   * its newest trade and `previous` to its second one.
   */
  lemma InitialUpdate(d: seq<Trade>)
    requires |d| >= 2
    ensures Initial.previous.None? && Initial.latest.None?
    ensures Update(Initial, None) == Initial
    ensures Update(Initial, Some(d)) == LastPriceInfo(Some(d[1].price), Some(d[0].price))
  {
  }

  /** A stream of events that all carry trades: two in the first, one at least in the rest. */
  predicate WellFormed(events: seq<seq<Trade>>)
  {
    && (|events| > 0 ==> |events[0]| >= 2)
    && forall i :: 0 <= i < |events| ==> |events[i]| >= 1
  }

  /** The state after a stream of events, from the initial state; once fed, both slots are set. */
  function Feed(events: seq<seq<Trade>>): (r: LastPriceInfo)
    requires WellFormed(events)
    ensures events != [] ==> r.previous.Some? && r.latest.Some?
  {
    if events == [] then Initial
    else
      var init := events[..|events| - 1];
      assert WellFormed(init) by {
        forall i | 0 <= i < |init| ensures |init[i]| >= 1 { assert init[i] == events[i]; }
        if |init| > 0 { assert init[0] == events[0]; }
      }
      Update(Feed(init), Some(events[|events| - 1]))
  }

  /**
   * The one-step lag: `latest` is the newest trade of the last event, and
   * `previous` is the newest trade of the event before it (or, after one
   * event only, that event's second trade). No older price is retained.
   */
  lemma {:induction false} FeedLag(events: seq<seq<Trade>>)
    requires WellFormed(events) && events != []
    ensures Feed(events).latest == Some(events[|events| - 1][0].price)
    ensures |events| == 1 ==> Feed(events).previous == Some(events[0][1].price)
    ensures |events| > 1 ==> Feed(events).previous == Some(events[|events| - 2][0].price)
  {
    var init := events[..|events| - 1];
    if |events| > 1 {
      assert WellFormed(init) by {
        forall i | 0 <= i < |init| ensures |init[i]| >= 1 { assert init[i] == events[i]; }
        assert init[0] == events[0];
      }
      FeedLag(init);
    }
  }
}
