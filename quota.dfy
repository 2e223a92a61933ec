/** The node-wide byte counters (CNode's static members): bytes sent and
    received over the node's life, and the outbound target, a limit on the
    bytes sent in a rolling cycle of nMaxOutboundTimeframe seconds. All the
    counters are uint64_t, so every sum and product wraps modulo 2^64. */
module Quota {
  import opened NetTypes

  /** A cycle lasts one day unless -maxuploadtarget's timeframe says otherwise. */
  const DEFAULT_OUTBOUND_TIMEFRAME: U64 := 60 * 60 * 24

  /** The historical-block buffer keeps room for one block per this many seconds. */
  const BLOCK_INTERVAL_SECONDS: nat := 600

  function Add64(a: U64, b: U64): U64
  {
    (a + b) % TWO_TO_THE_64
  }

  function Mul64(a: U64, b: U64): U64
  {
    (a * b) % TWO_TO_THE_64
  }

  /** The cycle that began at start has ended before now. */
  predicate CycleExpired(start: U64, timeframe: U64, now: U64)
  {
    Add64(start, timeframe) < now
  }

  /** The cycle start after RecordBytesSent at time now. */
  function CycleStartAfter(start: U64, timeframe: U64, now: U64): U64
  {
    if CycleExpired(start, timeframe, now) then now else start
  }

  /** The bytes sent in the cycle after RecordBytesSent(bytes) at time now. */
  function CycleSentAfter(start: U64, timeframe: U64, sentInCycle: U64, bytes: U64, now: U64): U64
  {
    Add64(if CycleExpired(start, timeframe, now) then 0 else sentInCycle, bytes)
  }

  lemma Add64Assoc(a: U64, b: U64, c: U64)
    ensures Add64(Add64(a, b), c) == Add64(a, Add64(b, c))
  {
    var k := (a + b) / TWO_TO_THE_64;
    var l := (b + c) / TWO_TO_THE_64;
    assert Add64(a, b) == a + b - k * TWO_TO_THE_64;
    assert Add64(b, c) == b + c - l * TWO_TO_THE_64;
    ModShift(a + b + c, k);
    ModShift(a + b + c, l);
  }

  lemma ModShift(x: int, k: int)
    ensures (x - k * TWO_TO_THE_64) % TWO_TO_THE_64 == x % TWO_TO_THE_64
  {
  }

  /** Two RecordBytesSent calls at the same time, the first of which leaves a
      current cycle, add up to one call with the sum of the bytes. */
  lemma {:induction false} CycleRecordsCombine(start: U64, timeframe: U64, sentInCycle: U64, a: U64, b: U64, now: U64)
    requires now + timeframe < TWO_TO_THE_64
    ensures var start1 := CycleStartAfter(start, timeframe, now);
      && CycleStartAfter(start1, timeframe, now) == start1
      && CycleSentAfter(start1, timeframe, CycleSentAfter(start, timeframe, sentInCycle, a, now), b, now)
         == CycleSentAfter(start, timeframe, sentInCycle, Add64(a, b), now)
  {
    var start1 := CycleStartAfter(start, timeframe, now);
    assert !CycleExpired(start1, timeframe, now) by {
      if CycleExpired(start, timeframe, now) {
        assert Add64(now, timeframe) == now + timeframe;
      }
    }
    Add64Assoc(if CycleExpired(start, timeframe, now) then 0 else sentInCycle, a, b);
  }

  class OutboundQuota {
    /** MAX_BLOCK_SIZE, a consensus constant defined outside the networking code. */
    const maxBlockSize: U64

    var nTotalBytesRecv: U64
    var nTotalBytesSent: U64
    var nMaxOutboundLimit: U64
    var nMaxOutboundTotalBytesSentInCycle: U64
    var nMaxOutboundTimeframe: U64
    var nMaxOutboundCycleStartTime: U64

    /** The values the statics start with. */
    constructor (maxBlockSize: U64)
      ensures this.maxBlockSize == maxBlockSize
      ensures nTotalBytesRecv == 0 && nTotalBytesSent == 0
      ensures nMaxOutboundLimit == 0 && nMaxOutboundTotalBytesSentInCycle == 0
      ensures nMaxOutboundTimeframe == DEFAULT_OUTBOUND_TIMEFRAME && nMaxOutboundCycleStartTime == 0
    {
      this.maxBlockSize := maxBlockSize;
      nTotalBytesRecv := 0;
      nTotalBytesSent := 0;
      nMaxOutboundLimit := 0;
      nMaxOutboundTotalBytesSentInCycle := 0;
      nMaxOutboundTimeframe := DEFAULT_OUTBOUND_TIMEFRAME;
      nMaxOutboundCycleStartTime := 0;
    }

    method RecordBytesRecv(bytes: U64)
      modifies this
      ensures nTotalBytesRecv == Add64(old(nTotalBytesRecv), bytes)
      ensures nTotalBytesSent == old(nTotalBytesSent) && nMaxOutboundLimit == old(nMaxOutboundLimit)
      ensures nMaxOutboundTotalBytesSentInCycle == old(nMaxOutboundTotalBytesSentInCycle)
      ensures nMaxOutboundTimeframe == old(nMaxOutboundTimeframe)
      ensures nMaxOutboundCycleStartTime == old(nMaxOutboundCycleStartTime)
    {
      nTotalBytesRecv := Add64(nTotalBytesRecv, bytes);
    }

    /** Count bytes sent at time now, starting a new cycle first when the
        current one has run out. */
    method RecordBytesSent(bytes: U64, now: U64)
      modifies this
      ensures nTotalBytesSent == Add64(old(nTotalBytesSent), bytes)
      ensures nMaxOutboundCycleStartTime == CycleStartAfter(old(nMaxOutboundCycleStartTime), nMaxOutboundTimeframe, now)
      ensures nMaxOutboundTotalBytesSentInCycle
        == CycleSentAfter(old(nMaxOutboundCycleStartTime), nMaxOutboundTimeframe,
                          old(nMaxOutboundTotalBytesSentInCycle), bytes, now)
      ensures nTotalBytesRecv == old(nTotalBytesRecv) && nMaxOutboundLimit == old(nMaxOutboundLimit)
      ensures nMaxOutboundTimeframe == old(nMaxOutboundTimeframe)
    {
      nTotalBytesSent := Add64(nTotalBytesSent, bytes);

      if Add64(nMaxOutboundCycleStartTime, nMaxOutboundTimeframe) < now {
        nMaxOutboundCycleStartTime := now;
        nMaxOutboundTotalBytesSentInCycle := 0;
      }

      nMaxOutboundTotalBytesSentInCycle := Add64(nMaxOutboundTotalBytesSentInCycle, bytes);
    }

    method SetMaxOutboundTarget(limit: U64)
      modifies this
      ensures nMaxOutboundLimit == limit
      ensures nTotalBytesRecv == old(nTotalBytesRecv) && nTotalBytesSent == old(nTotalBytesSent)
      ensures nMaxOutboundTotalBytesSentInCycle == old(nMaxOutboundTotalBytesSentInCycle)
      ensures nMaxOutboundTimeframe == old(nMaxOutboundTimeframe)
      ensures nMaxOutboundCycleStartTime == old(nMaxOutboundCycleStartTime)
    {
      nMaxOutboundLimit := limit;
    }

    /** A new timeframe restarts the cycle at now; the same timeframe again
        leaves the cycle alone. */
    method SetMaxOutboundTimeframe(timeframe: U64, now: U64)
      modifies this
      ensures nMaxOutboundTimeframe == timeframe
      ensures nMaxOutboundCycleStartTime == if timeframe != old(nMaxOutboundTimeframe) then now
                                            else old(nMaxOutboundCycleStartTime)
      ensures nTotalBytesRecv == old(nTotalBytesRecv) && nTotalBytesSent == old(nTotalBytesSent)
      ensures nMaxOutboundLimit == old(nMaxOutboundLimit)
      ensures nMaxOutboundTotalBytesSentInCycle == old(nMaxOutboundTotalBytesSentInCycle)
    {
      if nMaxOutboundTimeframe != timeframe {
        nMaxOutboundCycleStartTime := now;
      }
      nMaxOutboundTimeframe := timeframe;
    }

    /** GetMaxOutboundTimeLeftInCycle: the seconds until the current cycle
        ends (0 once it has ended), the whole timeframe before any cycle has
        started, and 0 when there is no target. */
    function TimeLeftInCycle(now: U64): (r: U64)
      reads this
      ensures nMaxOutboundLimit == 0 ==> r == 0
    {
      if nMaxOutboundLimit == 0 then 0
      else if nMaxOutboundCycleStartTime == 0 then nMaxOutboundTimeframe
      else
        var cycleEndTime := Add64(nMaxOutboundCycleStartTime, nMaxOutboundTimeframe);
        if cycleEndTime < now then 0 else cycleEndTime - now
    }

    /** OutboundTargetReached: with historicalBlockServingLimit, the target
        counts as reached as soon as fewer bytes are left than one block for
        every ten minutes remaining in the cycle. */
    function TargetReached(historicalBlockServingLimit: bool, now: U64): (r: bool)
      reads this
      ensures nMaxOutboundLimit == 0 ==> !r
    {
      if nMaxOutboundLimit == 0 then false
      else if historicalBlockServingLimit then
        var buffer := Mul64(TimeLeftInCycle(now) / BLOCK_INTERVAL_SECONDS, maxBlockSize);
        buffer >= nMaxOutboundLimit || nMaxOutboundTotalBytesSentInCycle >= nMaxOutboundLimit - buffer
      else
        nMaxOutboundTotalBytesSentInCycle >= nMaxOutboundLimit
    }

    /** GetOutboundTargetBytesLeft. */
    function BytesLeft(): (r: U64)
      reads this
      ensures r <= nMaxOutboundLimit
    {
      if nMaxOutboundLimit == 0 then 0
      else if nMaxOutboundTotalBytesSentInCycle >= nMaxOutboundLimit then 0
      else nMaxOutboundLimit - nMaxOutboundTotalBytesSentInCycle
    }

    /** Under a target, the bytes left and the bytes sent in the cycle add up
        to the target until it is used up. */
    lemma BytesLeftComplementsSent()
      requires nMaxOutboundLimit > 0
      ensures BytesLeft() == 0 <==> nMaxOutboundTotalBytesSentInCycle >= nMaxOutboundLimit
      ensures BytesLeft() > 0 ==> BytesLeft() + nMaxOutboundTotalBytesSentInCycle == nMaxOutboundLimit
    {
    }

    /** Without the historical buffer, the target is reached exactly when a
        target is set and no bytes are left under it. */
    lemma ReachedIffNoBytesLeft(now: U64)
      ensures TargetReached(false, now) <==> nMaxOutboundLimit > 0 && BytesLeft() == 0
    {
    }

    /** The historical-block rule is the stricter one: whenever the plain
        target is reached, so is the historical one. */
    lemma HistoricalRuleIsStricter(now: U64)
      ensures TargetReached(false, now) ==> TargetReached(true, now)
    {
    }

    /** Once a cycle has begun at or before now, and its end does not wrap
        around, the time left never exceeds the timeframe. */
    lemma TimeLeftWithinTimeframe(now: U64)
      requires nMaxOutboundCycleStartTime <= now
      requires nMaxOutboundCycleStartTime + nMaxOutboundTimeframe < TWO_TO_THE_64
      ensures TimeLeftInCycle(now) <= nMaxOutboundTimeframe
    {
    }
  }
}
