/** CNode::AskFor: queue a request for an inventory item announced by a
    peer. mapAskFor is the peer's queue of requests keyed by the earliest
    time each may be sent, setAskFor the hashes already queued with it;
    mapAlreadyAskedFor (shared by all peers) remembers when each hash was
    last scheduled, so that the retries of one item are two minutes apart. */
module AskFor {
  import opened NetTypes

  /** Each retry of an item is at least two minutes after the last, in
      microseconds. */
  const RETRY_INTERVAL_MICROS: int := 2 * 60 * 1000000

  /** GetTimeMicros() is taken one second early. */
  const CLOCK_OFFSET_MICROS: int := 1000000

  function Max(a: int, b: int): int { if a < b then b else a }

  /** The caps on the queue sizes (MAPASKFOR_MAX_SZ, SETASKFOR_MAX_SZ) and the
      minimum spacing of the overflow warnings (WARNING_INTERVAL). */
  datatype Limits = Limits(mapAskForMax: nat, setAskForMax: nat, warningInterval: int)

  /** The static nLastTime after one step: one past the last value, or the
      (offset) clock if that is later. */
  function NextTick(nLastTime: int, nNowMicros: int): (r: int)
    ensures r > nLastTime && r >= nNowMicros - CLOCK_OFFSET_MICROS
    ensures r == nLastTime + 1 || r == nNowMicros - CLOCK_OFFSET_MICROS
  {
    Max(nNowMicros - CLOCK_OFFSET_MICROS, nLastTime + 1)
  }

  /** The time a request is queued for: two minutes after the hash was last
      scheduled (0 when never), and not before the tick. */
  function RequestTime(prior: int, tick: int): (r: int)
    ensures r >= prior + RETRY_INTERVAL_MICROS && r >= tick
    ensures r == prior + RETRY_INTERVAL_MICROS || r == tick
  {
    Max(prior + RETRY_INTERVAL_MICROS, tick)
  }

  /** The state shared by all peers. */
  class AskGlobals {
    var mapAlreadyAskedFor: map<seq<Byte>, int>
    var nLastTime: int

    constructor ()
      ensures mapAlreadyAskedFor == map[] && nLastTime == 0
    {
      mapAlreadyAskedFor := map[];
      nLastTime := 0;
    }
  }

  /** The request state of one peer. mapAskFor is a multimap; as AskFor only
      inserts into it, it is a multiset of (time, inventory) pairs here. */
  class AskQueue {
    var mapAskFor: multiset<(int, Inv)>
    var setAskFor: set<seq<Byte>>
    var nLastWarningTime: int
    var nNumWarningsSkipped: int

    constructor ()
      ensures mapAskFor == multiset{} && setAskFor == {} && nLastWarningTime == 0 && nNumWarningsSkipped == 0
    {
      mapAskFor := multiset{};
      setAskFor := {};
      nLastWarningTime := 0;
      nNumWarningsSkipped := 0;
    }

    /** The queues are over their caps: AskFor drops new items. */
    predicate Full(limits: Limits)
      reads this
    {
      |mapAskFor| > limits.mapAskForMax || |setAskFor| > limits.setAskForMax
    }

    /** The queues never exceed their caps by more than the one item that
      takes them over. */
    ghost predicate WithinCaps(limits: Limits)
      reads this
    {
      |mapAskFor| <= limits.mapAskForMax + 1 && |setAskFor| <= limits.setAskForMax + 1
    }

    /** AskFor at time nNow (seconds) and nNowMicros (microseconds). When the
      queues are full the item is dropped and at most one warning per
      interval is counted; a hash already queued is dropped; otherwise the
      hash joins setAskFor, nLastTime ticks, and the request is queued at
      RequestTime, which mapAlreadyAskedFor then remembers. */
    method AskFor(inv: Inv, g: AskGlobals, limits: Limits, nNow: int, nNowMicros: int)
      modifies this, g
      ensures old(WithinCaps(limits)) ==> WithinCaps(limits)
      ensures old(Full(limits)) ==>
        && mapAskFor == old(mapAskFor) && setAskFor == old(setAskFor)
        && g.mapAlreadyAskedFor == old(g.mapAlreadyAskedFor) && g.nLastTime == old(g.nLastTime)
        && (if nNow - old(nLastWarningTime) > limits.warningInterval
            then nLastWarningTime == nNow && nNumWarningsSkipped == 0
            else nLastWarningTime == old(nLastWarningTime) && nNumWarningsSkipped == old(nNumWarningsSkipped) + 1)
      ensures !old(Full(limits)) && inv.hash in old(setAskFor) ==>
        && mapAskFor == old(mapAskFor) && setAskFor == old(setAskFor)
        && g.mapAlreadyAskedFor == old(g.mapAlreadyAskedFor) && g.nLastTime == old(g.nLastTime)
        && nLastWarningTime == old(nLastWarningTime) && nNumWarningsSkipped == old(nNumWarningsSkipped)
      ensures !old(Full(limits)) && inv.hash !in old(setAskFor) ==>
        var prior := if inv.hash in old(g.mapAlreadyAskedFor) then old(g.mapAlreadyAskedFor)[inv.hash] else 0;
        var tick := NextTick(old(g.nLastTime), nNowMicros);
        var nRequestTime := RequestTime(prior, tick);
        && setAskFor == old(setAskFor) + {inv.hash}
        && g.nLastTime == tick
        && g.mapAlreadyAskedFor == old(g.mapAlreadyAskedFor)[inv.hash := nRequestTime]
        && mapAskFor == old(mapAskFor) + multiset{(nRequestTime, inv)}
        && nLastWarningTime == old(nLastWarningTime) && nNumWarningsSkipped == old(nNumWarningsSkipped)
    {
      if |mapAskFor| > limits.mapAskForMax || |setAskFor| > limits.setAskForMax {
        if nNow - nLastWarningTime > limits.warningInterval {
          nLastWarningTime := nNow;
          nNumWarningsSkipped := 0;
        } else {
          nNumWarningsSkipped := nNumWarningsSkipped + 1;
        }
        return;
      }
      // a peer may not have two requests outstanding for one item
      if inv.hash in setAskFor {
        return;
      }
      setAskFor := setAskFor + {inv.hash};

      var nRequestTime := 0;
      var found := inv.hash in g.mapAlreadyAskedFor;
      if found {
        nRequestTime := g.mapAlreadyAskedFor[inv.hash];
      }

      var nNowTick := nNowMicros - CLOCK_OFFSET_MICROS;
      g.nLastTime := g.nLastTime + 1;
      nNowTick := Max(nNowTick, g.nLastTime);
      g.nLastTime := nNowTick;

      nRequestTime := Max(nRequestTime + RETRY_INTERVAL_MICROS, nNowTick);
      g.mapAlreadyAskedFor := g.mapAlreadyAskedFor[inv.hash := nRequestTime];
      mapAskFor := mapAskFor + multiset{(nRequestTime, inv)};
    }
  }

  /** The request times of one item asked for again and again, each ask
      at the microsecond clock reading in clocks, starting from the time the
      item was last scheduled and the last tick. */
  function Schedule(prior: int, nLastTime: int, clocks: seq<int>): (r: seq<int>)
    ensures |r| == |clocks|
    decreases |clocks|
  {
    if clocks == [] then []
    else
      var tick := NextTick(nLastTime, clocks[0]);
      var t := RequestTime(prior, tick);
      [t] + Schedule(t, tick, clocks[1..])
  }

  /** Each retry of one item is scheduled at least two minutes after the
      one before, and the first two minutes after the prior schedule; so the
      schedule keeps the order of the asks. */
  lemma {:induction false} RetriesAreSpaced(prior: int, nLastTime: int, clocks: seq<int>)
    ensures var r := Schedule(prior, nLastTime, clocks);
      && (|r| > 0 ==> r[0] >= prior + RETRY_INTERVAL_MICROS)
      && (forall i | 0 < i < |r| :: r[i] >= r[i - 1] + RETRY_INTERVAL_MICROS)
    decreases |clocks|
  {
    if clocks != [] {
      var tick := NextTick(nLastTime, clocks[0]);
      var t := RequestTime(prior, tick);
      RetriesAreSpaced(t, tick, clocks[1..]);
      var r := Schedule(prior, nLastTime, clocks);
      var rest := Schedule(t, tick, clocks[1..]);
      assert r == [t] + rest;
      forall i | 0 < i < |r|
        ensures r[i] >= r[i - 1] + RETRY_INTERVAL_MICROS
      {
        assert r[i] == rest[i - 1];
        if i > 1 {
          assert r[i - 1] == rest[i - 2];
        }
      }
    }
  }

  /** The ticks of successive asks, from the last tick nLastTime. */
  function Ticks(nLastTime: int, clocks: seq<int>): (r: seq<int>)
    ensures |r| == |clocks|
    decreases |clocks|
  {
    if clocks == [] then []
    else
      var tick := NextTick(nLastTime, clocks[0]);
      [tick] + Ticks(tick, clocks[1..])
  }

  /** Time indexes are never reused: the ticks strictly increase, whatever
      the clock does, so requests keep the order in which they were made. */
  lemma {:induction false} TicksIncrease(nLastTime: int, clocks: seq<int>)
    ensures var r := Ticks(nLastTime, clocks);
      && (forall i | 0 <= i < |r| :: nLastTime < r[i])
      && (forall i, j | 0 <= i < j < |r| :: r[i] < r[j])
    decreases |clocks|
  {
    if clocks != [] {
      var tick := NextTick(nLastTime, clocks[0]);
      TicksIncrease(tick, clocks[1..]);
      var r := Ticks(nLastTime, clocks);
      var rest := Ticks(tick, clocks[1..]);
      assert r == [tick] + rest;
      assert forall k | 0 <= k < |Ticks(tick, clocks[1..])| :: tick < Ticks(tick, clocks[1..])[k];
      forall i | 0 < i < |r|
        ensures tick < r[i]
      {
        assert r[i] == rest[i - 1];
      }
      forall i, j | 0 <= i < j < |r|
        ensures r[i] < r[j]
      {
        assert r[j] == rest[j - 1];
        if i > 0 {
          assert r[i] == rest[i - 1];
        }
      }
    }
  }
}
