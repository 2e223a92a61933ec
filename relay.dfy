/** RelayTransaction: the relay cache (mapRelay, the serialized messages by
    inventory, and vRelayExpiration, the queue of their expiry times) and the
    announcement of a transaction to the peers that want it. */
module Relay {
  import opened NetTypes

  /** A relayed message stays in the cache for 15 minutes. */
  const RELAY_EXPIRY_SECONDS: int := 15 * 60

  /** The inventory kind a transaction is relayed under: a Darksend
      broadcast, then a transaction lock request, then a plain transaction. */
  function RelayInvType(isDarksendBroadcast: bool, hasTxLockRequest: bool): (r: InvType)
    ensures r == MsgDstx <==> isDarksendBroadcast
    ensures r == MsgTxLockRequest <==> !isDarksendBroadcast && hasTxLockRequest
    ensures r == MsgTx <==> !isDarksendBroadcast && !hasTxLockRequest
  {
    if isDarksendBroadcast then MsgDstx else if hasTxLockRequest then MsgTxLockRequest else MsgTx
  }

  /** The number of entries at the front of q whose expiry time is before
      now: the ones the expiry loop pops. */
  function ExpiredCount(q: seq<(int, Inv)>, now: int): (k: nat)
    ensures k <= |q|
    ensures forall i | 0 <= i < k :: q[i].0 < now
    ensures k < |q| ==> q[k].0 >= now
  {
    if q == [] || q[0].0 >= now then 0 else 1 + ExpiredCount(q[1..], now)
  }

  /** The inventories named in a stretch of the queue. */
  function InvsOf(q: seq<(int, Inv)>): set<Inv>
  {
    set i | 0 <= i < |q| :: q[i].1
  }

  lemma InvsOfSplit(q: seq<(int, Inv)>, k: nat)
    requires k <= |q|
    ensures InvsOf(q) == InvsOf(q[..k]) + InvsOf(q[k..])
  {
    forall x | x in InvsOf(q)
      ensures x in InvsOf(q[..k]) + InvsOf(q[k..])
    {
      var i :| 0 <= i < |q| && q[i].1 == x;
      if i < k {
        assert q[..k][i].1 == x;
      } else {
        assert q[k..][i - k].1 == x;
      }
    }
    forall x | x in InvsOf(q[k..])
      ensures x in InvsOf(q)
    {
      var i :| 0 <= i < |q[k..]| && q[k..][i].1 == x;
      assert q[k + i].1 == x;
    }
    forall x | x in InvsOf(q[..k])
      ensures x in InvsOf(q)
    {
      var i :| 0 <= i < k && q[..k][i].1 == x;
      assert q[i].1 == x;
    }
  }

  /** Popping entry i moves its inventory from the queued part to the popped
      part. */
  lemma InvsOfPop(q: seq<(int, Inv)>, i: nat)
    requires i < |q|
    ensures InvsOf(q[..i + 1]) == InvsOf(q[..i]) + {q[i].1}
    ensures InvsOf(q[i..]) == {q[i].1} + InvsOf(q[i + 1..])
  {
    InvsOfSplit(q[..i + 1], i);
    assert q[..i + 1][i..] == [q[i]];
    assert q[..i + 1][..i] == q[..i];
    InvsOfSplit(q[i..], 1);
    assert q[i..][..1] == [q[i]];
    assert q[i..][1..] == q[i + 1..];
  }

  /** What the corrected expiry has erased after popping k entries: the
      popped inventories with no entry left in the queue. */
  function ErasedAfter(q: seq<(int, Inv)>, k: nat): set<Inv>
    requires k <= |q|
  {
    InvsOf(q[..k]) - InvsOf(q[k..])
  }

  /** Popping entry k of the corrected expiry erases its inventory exactly
      when no later entry for it is queued. */
  lemma ErasedAfterPop(m: map<Inv, seq<Byte>>, q: seq<(int, Inv)>, k: nat)
    requires k < |q|
    ensures var x := q[k].1;
      m - ErasedAfter(q, k + 1) == if x in InvsOf(q[k + 1..]) then m - ErasedAfter(q, k) else m - ErasedAfter(q, k) - {x}
  {
    InvsOfPop(q, k);
  }

  /** A message the corrected expiry keeps still has an entry queued. */
  lemma ErasedAfterKeepsValid(m: map<Inv, seq<Byte>>, q: seq<(int, Inv)>, k: nat)
    requires k <= |q| && m.Keys <= InvsOf(q)
    ensures (m - ErasedAfter(q, k)).Keys <= InvsOf(q[k..])
  {
    InvsOfSplit(q, k);
  }

  /** The cache as a value: mapRelay and vRelayExpiration. */
  datatype Cache = Cache(mapRelay: map<Inv, seq<Byte>>, vRelayExpiration: seq<(int, Inv)>)

  /** The expiry loop as written: pop every front entry whose time is before
      now and erase the message of each popped inventory, even when a later
      entry for the same inventory is still queued. */
  function ExpireAsWritten(c: Cache, now: int): Cache
  {
    var k := ExpiredCount(c.vRelayExpiration, now);
    Cache(c.mapRelay - InvsOf(c.vRelayExpiration[..k]), c.vRelayExpiration[k..])
  }

  /** The expiry loop corrected: a popped inventory's message is erased
      only when no later entry for it is left in the queue. */
  function ExpireUnlessRequeued(c: Cache, now: int): Cache
  {
    var k := ExpiredCount(c.vRelayExpiration, now);
    Cache(c.mapRelay - ErasedAfter(c.vRelayExpiration, k), c.vRelayExpiration[k..])
  }

  /** Caching a message: std::map::insert keeps an older message for the
      same inventory; the expiry is queued fifteen minutes from now. */
  function Insert(c: Cache, inv: Inv, ss: seq<Byte>, now: int): Cache
  {
    Cache(if inv in c.mapRelay then c.mapRelay else c.mapRelay[inv := ss],
          c.vRelayExpiration + [(now + RELAY_EXPIRY_SECONDS, inv)])
  }

  /** One call of RelayTransaction, as far as the cache sees it. */
  datatype Relayed = Relayed(inv: Inv, ss: seq<Byte>, now: int)

  /** One relay: expire, then cache, as RelayTransaction does. */
  function StepAsWritten(c: Cache, e: Relayed): Cache
  {
    Insert(ExpireAsWritten(c, e.now), e.inv, e.ss, e.now)
  }

  function StepCorrected(c: Cache, e: Relayed): Cache
  {
    Insert(ExpireUnlessRequeued(c, e.now), e.inv, e.ss, e.now)
  }

  /** The cache after a series of relays, with the expiry as written. */
  function RelaysAsWritten(c: Cache, evs: seq<Relayed>): Cache
    decreases |evs|
  {
    if evs == [] then c else RelaysAsWritten(StepAsWritten(c, evs[0]), evs[1..])
  }

  /** The cache after a series of relays, with the corrected expiry. */
  function RelaysCorrected(c: Cache, evs: seq<Relayed>): Cache
    decreases |evs|
  {
    if evs == [] then c else RelaysCorrected(StepCorrected(c, evs[0]), evs[1..])
  }

  /** The states of the example below after its first two relays: two
      expiries queued for inv, whichever expiry is used. */
  lemma FirstTwoRelays(inv: Inv, ss: seq<Byte>, t0: int)
    ensures var c1 := Cache(map[inv := ss], [(t0 + 900, inv)]);
      var c2 := Cache(map[inv := ss], [(t0 + 900, inv), (t0 + 901, inv)]);
      && StepAsWritten(Cache(map[], []), Relayed(inv, ss, t0)) == c1
      && StepCorrected(Cache(map[], []), Relayed(inv, ss, t0)) == c1
      && StepAsWritten(c1, Relayed(inv, ss, t0 + 1)) == c2
      && StepCorrected(c1, Relayed(inv, ss, t0 + 1)) == c2
  {
    var q1 := [(t0 + 900, inv)];
    assert ExpiredCount(q1, t0 + 1) == 0;
    assert q1[..0] == [] && InvsOf(q1[..0]) == {};
    assert ExpiredCount([], t0) == 0;
  }

  /** The third relay, at t0 + 901: the first expiry pops. As written it
      erases inv, which is then cached afresh; corrected, inv is kept as
      its second expiry is still queued. Both end in the same state. */
  lemma ThirdRelay(inv: Inv, ss: seq<Byte>, t0: int)
    ensures var c2 := Cache(map[inv := ss], [(t0 + 900, inv), (t0 + 901, inv)]);
      var c3 := Cache(map[inv := ss], [(t0 + 901, inv), (t0 + 1801, inv)]);
      && StepAsWritten(c2, Relayed(inv, ss, t0 + 901)) == c3
      && StepCorrected(c2, Relayed(inv, ss, t0 + 901)) == c3
  {
    var q := [(t0 + 900, inv), (t0 + 901, inv)];
    assert ExpiredCount(q[1..], t0 + 901) == 0;
    assert ExpiredCount(q, t0 + 901) == 1;
    assert q[..1] == [(t0 + 900, inv)] && q[1..] == [(t0 + 901, inv)];
    assert InvsOf(q[..1]) == {inv} by {
      assert q[..1][0].1 == inv;
    }
    assert InvsOf(q[1..]) == {inv} by {
      assert q[1..][0].1 == inv;
    }
  }

  /** The fourth relay, of another inventory at t0 + 902: the stale second
      expiry of inv pops. As written it erases the message cached one
      second earlier; corrected, inv is kept. */
  lemma FourthRelay(inv: Inv, other: Inv, ss: seq<Byte>, t0: int)
    requires other != inv
    ensures var c3 := Cache(map[inv := ss], [(t0 + 901, inv), (t0 + 1801, inv)]);
      inv !in StepAsWritten(c3, Relayed(other, ss, t0 + 902)).mapRelay
    ensures var c3 := Cache(map[inv := ss], [(t0 + 901, inv), (t0 + 1801, inv)]);
      inv in StepCorrected(c3, Relayed(other, ss, t0 + 902)).mapRelay
  {
    var q := [(t0 + 901, inv), (t0 + 1801, inv)];
    assert ExpiredCount(q[1..], t0 + 902) == 0;
    assert ExpiredCount(q, t0 + 902) == 1;
    assert q[..1] == [(t0 + 901, inv)] && q[1..] == [(t0 + 1801, inv)];
    assert InvsOf(q[..1]) == {inv} by {
      assert q[..1][0].1 == inv;
    }
    assert InvsOf(q[1..]) == {inv} by {
      assert q[1..][0].1 == inv;
    }
  }

  /** The expiry as written can erase a message cached one second earlier:
      relaying inv at t0 and t0 + 1 queues two expiries for it; at t0 + 901
      the first pops, erases inv and inv is cached afresh; at t0 + 902 the
      relay of another transaction pops the stale second expiry and erases
      the fresh message. With the corrected expiry it stays cached. */
  lemma AsWrittenDropsFreshRecord(inv: Inv, other: Inv, ss: seq<Byte>, t0: int)
    requires other != inv
    ensures var evs := [Relayed(inv, ss, t0), Relayed(inv, ss, t0 + 1), Relayed(inv, ss, t0 + 901),
                        Relayed(other, ss, t0 + 902)];
      && inv !in RelaysAsWritten(Cache(map[], []), evs).mapRelay
      && inv in RelaysCorrected(Cache(map[], []), evs).mapRelay
  {
    var evs := [Relayed(inv, ss, t0), Relayed(inv, ss, t0 + 1), Relayed(inv, ss, t0 + 901),
                Relayed(other, ss, t0 + 902)];
    var c0 := Cache(map[], []);
    var c1 := Cache(map[inv := ss], [(t0 + 900, inv)]);
    var c2 := Cache(map[inv := ss], [(t0 + 900, inv), (t0 + 901, inv)]);
    var c3 := Cache(map[inv := ss], [(t0 + 901, inv), (t0 + 1801, inv)]);
    FirstTwoRelays(inv, ss, t0);
    ThirdRelay(inv, ss, t0);
    FourthRelay(inv, other, ss, t0);
    assert evs[1..] == evs[1..][..];
    assert RelaysAsWritten(c0, evs) == RelaysAsWritten(c1, evs[1..]);
    assert RelaysAsWritten(c1, evs[1..]) == RelaysAsWritten(c2, evs[2..]);
    assert RelaysAsWritten(c2, evs[2..]) == RelaysAsWritten(c3, evs[3..]);
    assert RelaysAsWritten(c3, evs[3..]) == StepAsWritten(c3, evs[3]);
    assert RelaysCorrected(c0, evs) == RelaysCorrected(c1, evs[1..]);
    assert RelaysCorrected(c1, evs[1..]) == RelaysCorrected(c2, evs[2..]);
    assert RelaysCorrected(c2, evs[2..]) == RelaysCorrected(c3, evs[3..]);
    assert RelaysCorrected(c3, evs[3..]) == StepCorrected(c3, evs[3]);
  }

  /** With the corrected expiry, a cached inventory that still has an entry
      due at t queued stays cached through every later relay at a time up
      to t. */
  lemma {:induction false} CorrectedKeepsQueued(c: Cache, inv: Inv, t: int, evs: seq<Relayed>)
    requires inv in c.mapRelay
    requires exists j | 0 <= j < |c.vRelayExpiration| :: c.vRelayExpiration[j] == (t, inv)
    requires forall i | 0 <= i < |evs| :: evs[i].now <= t
    ensures inv in RelaysCorrected(c, evs).mapRelay
    decreases |evs|
  {
    if evs != [] {
      var q := c.vRelayExpiration;
      var now := evs[0].now;
      var j :| 0 <= j < |q| && q[j] == (t, inv);
      var k := ExpiredCount(q, now);
      assert j >= k;
      assert q[k..][j - k] == (t, inv);
      assert inv in InvsOf(q[k..]);
      var c1 := ExpireUnlessRequeued(c, now);
      assert inv in c1.mapRelay;
      var c2 := StepCorrected(c, evs[0]);
      assert c2.vRelayExpiration[j - k] == (t, inv);
      CorrectedKeepsQueued(c2, inv, t, evs[1..]);
    }
  }

  /** The relay cache keeps a message for fifteen minutes, with the
      corrected expiry: once relayed at t0, an inventory stays cached
      through every later relay at a time up to t0 + 15 minutes, whatever
      else is relayed meanwhile. */
  lemma CorrectedRecordLivesFifteenMinutes(c: Cache, inv: Inv, ss: seq<Byte>, t0: int, evs: seq<Relayed>)
    requires forall i | 0 <= i < |evs| :: evs[i].now <= t0 + RELAY_EXPIRY_SECONDS
    ensures inv in RelaysCorrected(c, [Relayed(inv, ss, t0)] + evs).mapRelay
  {
    var c1 := StepCorrected(c, Relayed(inv, ss, t0));
    var n := |c1.vRelayExpiration| - 1;
    assert c1.vRelayExpiration[n] == (t0 + RELAY_EXPIRY_SECONDS, inv);
    assert ([Relayed(inv, ss, t0)] + evs)[1..] == evs;
    CorrectedKeepsQueued(c1, inv, t0 + RELAY_EXPIRY_SECONDS, evs);
  }

  /** The expiry queue is ordered by time. */
  predicate SortedByTime(q: seq<(int, Inv)>)
  {
    forall i, j | 0 <= i < j < |q| :: q[i].0 <= q[j].0
  }

  /** Every entry for inv in the queue expires at d or earlier. */
  predicate DueBy(q: seq<(int, Inv)>, inv: Inv, d: int)
  {
    forall i | 0 <= i < |q| && q[i].1 == inv :: q[i].0 <= d
  }

  /** Every entry in the queue expires at b or earlier. */
  predicate ExpiresBy(q: seq<(int, Inv)>, b: int)
  {
    forall i | 0 <= i < |q| :: q[i].0 <= b
  }

  /** The shape of a cache whose last relay was at now: every cached message
      has an entry queued, the queue is ordered by time, and no entry
      expires later than fifteen minutes after now. */
  predicate WellQueued(c: Cache, now: int)
  {
    && c.mapRelay.Keys <= InvsOf(c.vRelayExpiration)
    && SortedByTime(c.vRelayExpiration)
    && ExpiresBy(c.vRelayExpiration, now + RELAY_EXPIRY_SECONDS)
  }

  /** Relay times never go back. */
  predicate NonDecreasing(evs: seq<Relayed>)
  {
    forall i, j | 0 <= i < j < |evs| :: evs[i].now <= evs[j].now
  }

  /** The time of the last relay of evs, or now when there is none. */
  function LastTime(now: int, evs: seq<Relayed>): int
  {
    if evs == [] then now else evs[|evs| - 1].now
  }

  lemma InvsOfAppend(q: seq<(int, Inv)>, x: (int, Inv))
    ensures InvsOf(q + [x]) == InvsOf(q) + {x.1}
  {
    InvsOfSplit(q + [x], |q|);
    assert (q + [x])[..|q|] == q;
    assert (q + [x])[|q|..] == [x];
    assert [x][0].1 == x.1;
  }

  /** The queue after one relay, whichever expiry is used: the unexpired
      entries and the new one. It stays ordered and bounded when the relay
      is no earlier than the last one, and the entries of an inventory other
      than the relayed one stay due when they were. */
  lemma QueueStepKeepsOrder(q: seq<(int, Inv)>, now: int, e: Relayed, inv: Inv, d: int)
    requires SortedByTime(q) && ExpiresBy(q, now + RELAY_EXPIRY_SECONDS) && now <= e.now
    ensures var q' := q[ExpiredCount(q, e.now)..] + [(e.now + RELAY_EXPIRY_SECONDS, e.inv)];
      && SortedByTime(q') && ExpiresBy(q', e.now + RELAY_EXPIRY_SECONDS)
      && (DueBy(q, inv, d) && e.inv != inv ==> DueBy(q', inv, d))
  {
    var k := ExpiredCount(q, e.now);
    var q' := q[k..] + [(e.now + RELAY_EXPIRY_SECONDS, e.inv)];
    var last := |q'| - 1;
    forall i | 0 <= i < last
      ensures q'[i] == q[k + i]
    {
    }
    forall i, j | 0 <= i < j < |q'|
      ensures q'[i].0 <= q'[j].0
    {
      if j < last {
        assert q[k + i].0 <= q[k + j].0;
      }
    }
    if DueBy(q, inv, d) && e.inv != inv {
      forall i | 0 <= i < |q'| && q'[i].1 == inv
        ensures q'[i].0 <= d
      {
        assert i < last && q'[i] == q[k + i];
      }
    }
  }

  /** One relay with the expiry as written keeps the cache well queued. */
  lemma StepAsWrittenKeepsOrder(c: Cache, now: int, e: Relayed, inv: Inv, d: int)
    requires WellQueued(c, now) && now <= e.now
    ensures WellQueued(StepAsWritten(c, e), e.now)
    ensures DueBy(c.vRelayExpiration, inv, d) && e.inv != inv ==> DueBy(StepAsWritten(c, e).vRelayExpiration, inv, d)
  {
    var q := c.vRelayExpiration;
    var k := ExpiredCount(q, e.now);
    var x := (e.now + RELAY_EXPIRY_SECONDS, e.inv);
    var m := c.mapRelay - InvsOf(q[..k]);
    InvsOfSplit(q, k);
    assert m.Keys <= InvsOf(q[k..]);
    InvsOfAppend(q[k..], x);
    QueueStepKeepsOrder(q, now, e, inv, d);
    var c2 := StepAsWritten(c, e);
    assert c2.vRelayExpiration == q[k..] + [x];
    assert c2.mapRelay.Keys <= m.Keys + {e.inv};
  }

  /** One relay with the corrected expiry keeps the cache well queued. */
  lemma StepCorrectedKeepsOrder(c: Cache, now: int, e: Relayed, inv: Inv, d: int)
    requires WellQueued(c, now) && now <= e.now
    ensures WellQueued(StepCorrected(c, e), e.now)
    ensures DueBy(c.vRelayExpiration, inv, d) && e.inv != inv ==> DueBy(StepCorrected(c, e).vRelayExpiration, inv, d)
  {
    var q := c.vRelayExpiration;
    var k := ExpiredCount(q, e.now);
    var x := (e.now + RELAY_EXPIRY_SECONDS, e.inv);
    var m := c.mapRelay - ErasedAfter(q, k);
    ErasedAfterKeepsValid(c.mapRelay, q, k);
    assert m.Keys <= InvsOf(q[k..]);
    InvsOfAppend(q[k..], x);
    QueueStepKeepsOrder(q, now, e, inv, d);
    var c2 := StepCorrected(c, e);
    assert c2.vRelayExpiration == q[k..] + [x];
    assert c2.mapRelay.Keys <= m.Keys + {e.inv};
  }

  /** A relay of another inventory after every entry for inv has expired
      erases inv, whichever expiry is used: in an ordered queue all of
      inv's entries are in the popped head. */
  lemma StaleRecordErased(c: Cache, inv: Inv, d: int, e: Relayed)
    requires c.mapRelay.Keys <= InvsOf(c.vRelayExpiration) && SortedByTime(c.vRelayExpiration)
    requires DueBy(c.vRelayExpiration, inv, d) && d < e.now && e.inv != inv
    ensures inv !in StepAsWritten(c, e).mapRelay
    ensures inv !in StepCorrected(c, e).mapRelay
  {
    var q := c.vRelayExpiration;
    var k := ExpiredCount(q, e.now);
    forall i | 0 <= i < |q[k..]|
      ensures q[k..][i].1 != inv
    {
      assert q[k + i].0 >= q[k].0 >= e.now;
    }
    InvsOfSplit(q, k);
  }

  /** A slice of relays at non-decreasing times is at non-decreasing times. */
  lemma NonDecreasingSlice(evs: seq<Relayed>, a: nat, b: nat)
    requires NonDecreasing(evs) && a <= b <= |evs|
    ensures NonDecreasing(evs[a..b])
  {
    forall i, j | 0 <= i < j < b - a
      ensures evs[a..b][i].now <= evs[a..b][j].now
    {
      assert evs[a..b][i] == evs[a + i] && evs[a..b][j] == evs[a + j];
    }
  }

  /** Relays at non-decreasing times, none earlier than the last one, keep
      the cache well queued with the expiry as written; and they keep inv's
      entries due at d when none of them relays inv. */
  lemma {:induction false} AsWrittenRunKeepsOrder(c: Cache, now: int, evs: seq<Relayed>, inv: Inv, d: int)
    requires WellQueued(c, now) && NonDecreasing(evs)
    requires forall i | 0 <= i < |evs| :: now <= evs[i].now
    ensures WellQueued(RelaysAsWritten(c, evs), LastTime(now, evs))
    ensures DueBy(c.vRelayExpiration, inv, d) && (forall i | 0 <= i < |evs| :: evs[i].inv != inv)
      ==> DueBy(RelaysAsWritten(c, evs).vRelayExpiration, inv, d)
    decreases |evs|
  {
    if evs != [] {
      StepAsWrittenKeepsOrder(c, now, evs[0], inv, d);
      NonDecreasingSlice(evs, 1, |evs|);
      assert evs[1..] == evs[1..|evs|];
      AsWrittenRunKeepsOrder(StepAsWritten(c, evs[0]), evs[0].now, evs[1..], inv, d);
      assert LastTime(evs[0].now, evs[1..]) == LastTime(now, evs);
    }
  }

  /** The same with the corrected expiry. */
  lemma {:induction false} CorrectedRunKeepsOrder(c: Cache, now: int, evs: seq<Relayed>, inv: Inv, d: int)
    requires WellQueued(c, now) && NonDecreasing(evs)
    requires forall i | 0 <= i < |evs| :: now <= evs[i].now
    ensures WellQueued(RelaysCorrected(c, evs), LastTime(now, evs))
    ensures DueBy(c.vRelayExpiration, inv, d) && (forall i | 0 <= i < |evs| :: evs[i].inv != inv)
      ==> DueBy(RelaysCorrected(c, evs).vRelayExpiration, inv, d)
    decreases |evs|
  {
    if evs != [] {
      StepCorrectedKeepsOrder(c, now, evs[0], inv, d);
      NonDecreasingSlice(evs, 1, |evs|);
      assert evs[1..] == evs[1..|evs|];
      CorrectedRunKeepsOrder(StepCorrected(c, evs[0]), evs[0].now, evs[1..], inv, d);
      assert LastTime(evs[0].now, evs[1..]) == LastTime(now, evs);
    }
  }

  /** Relaying a then b is relaying a, then relaying b from there. */
  lemma {:induction false} RelaysAsWrittenAppend(c: Cache, a: seq<Relayed>, b: seq<Relayed>)
    ensures RelaysAsWritten(c, a + b) == RelaysAsWritten(RelaysAsWritten(c, a), b)
    decreases |a|
  {
    if a == [] {
      assert a + b == b;
    } else {
      assert (a + b)[1..] == a[1..] + b;
      RelaysAsWrittenAppend(StepAsWritten(c, a[0]), a[1..], b);
    }
  }

  lemma {:induction false} RelaysCorrectedAppend(c: Cache, a: seq<Relayed>, b: seq<Relayed>)
    ensures RelaysCorrected(c, a + b) == RelaysCorrected(RelaysCorrected(c, a), b)
    decreases |a|
  {
    if a == [] {
      assert a + b == b;
    } else {
      assert (a + b)[1..] == a[1..] + b;
      RelaysCorrectedAppend(StepCorrected(c, a[0]), a[1..], b);
    }
  }

  /** Splitting relays at non-decreasing times around the relay r: both
      sides are at non-decreasing times, and the relays after r are at
      r's time or later. */
  lemma SplitAtRelay(pre: seq<Relayed>, r: Relayed, mid: seq<Relayed>)
    requires NonDecreasing(pre + [r] + mid)
    ensures NonDecreasing(pre + [r]) && NonDecreasing(mid)
    ensures forall i | 0 <= i < |mid| :: r.now <= mid[i].now
  {
    var all := pre + [r] + mid;
    NonDecreasingSlice(all, 0, |pre| + 1);
    NonDecreasingSlice(all, |pre| + 1, |all|);
    assert all[..|pre| + 1] == pre + [r];
    assert all[|pre| + 1..] == mid;
    forall i | 0 <= i < |mid|
      ensures r.now <= mid[i].now
    {
      assert all[|pre|] == r && all[|pre| + 1 + i] == mid[i];
    }
  }

  /** Relaying a, then mid, then e, one series at a time. */
  lemma RelaysAsWrittenThrough(c: Cache, a: seq<Relayed>, mid: seq<Relayed>, e: Relayed)
    ensures RelaysAsWritten(c, a + mid + [e]) == StepAsWritten(RelaysAsWritten(RelaysAsWritten(c, a), mid), e)
  {
    RelaysAsWrittenAppend(c, a, mid);
    RelaysAsWrittenAppend(c, a + mid, [e]);
    var c2 := RelaysAsWritten(RelaysAsWritten(c, a), mid);
    assert RelaysAsWritten(c2, [e]) == RelaysAsWritten(StepAsWritten(c2, e), []);
  }

  /** From a well-queued cache whose last relay was at t: after relays at
      t or later of inventories other than inv, a relay of another
      inventory later than t + 15 minutes leaves inv uncached. */
  lemma AsWrittenStaleAfter(c: Cache, t: int, inv: Inv, mid: seq<Relayed>, e: Relayed)
    requires WellQueued(c, t) && NonDecreasing(mid)
    requires forall i | 0 <= i < |mid| :: t <= mid[i].now && mid[i].inv != inv
    requires e.inv != inv && e.now > t + RELAY_EXPIRY_SECONDS
    ensures inv !in StepAsWritten(RelaysAsWritten(c, mid), e).mapRelay
  {
    assert DueBy(c.vRelayExpiration, inv, t + RELAY_EXPIRY_SECONDS);
    AsWrittenRunKeepsOrder(c, t, mid, inv, t + RELAY_EXPIRY_SECONDS);
    StaleRecordErased(RelaysAsWritten(c, mid), inv, t + RELAY_EXPIRY_SECONDS, e);
  }

  /** The second half of the fifteen-minute lifetime, with the expiry as
      written. Start from a well-queued cache, such as the empty one; relay
      at non-decreasing times, relay inv for the last time at t, and then
      only other inventories. A relay of another inventory later than
      t + 15 minutes then leaves inv uncached. */
  lemma AsWrittenRecordExpires(c: Cache, start: int, pre: seq<Relayed>, inv: Inv, ss: seq<Byte>, t: int,
                                mid: seq<Relayed>, e: Relayed)
    requires WellQueued(c, start) && start <= t && forall i | 0 <= i < |pre| :: start <= pre[i].now
    requires NonDecreasing(pre + [Relayed(inv, ss, t)] + mid)
    requires forall i | 0 <= i < |mid| :: mid[i].inv != inv
    requires e.inv != inv && e.now > t + RELAY_EXPIRY_SECONDS
    ensures inv !in RelaysAsWritten(c, pre + [Relayed(inv, ss, t)] + mid + [e]).mapRelay
  {
    var r := Relayed(inv, ss, t);
    var a := pre + [r];
    SplitAtRelay(pre, r, mid);
    assert forall i | 0 <= i < |a| :: start <= a[i].now;
    AsWrittenRunKeepsOrder(c, start, a, inv, 0);
    assert LastTime(start, a) == t;
    AsWrittenStaleAfter(RelaysAsWritten(c, a), t, inv, mid, e);
    RelaysAsWrittenThrough(c, a, mid, e);
  }

  /** Relaying a, then mid, then e, one series at a time. */
  lemma RelaysCorrectedThrough(c: Cache, a: seq<Relayed>, mid: seq<Relayed>, e: Relayed)
    ensures RelaysCorrected(c, a + mid + [e]) == StepCorrected(RelaysCorrected(RelaysCorrected(c, a), mid), e)
  {
    RelaysCorrectedAppend(c, a, mid);
    RelaysCorrectedAppend(c, a + mid, [e]);
    var c2 := RelaysCorrected(RelaysCorrected(c, a), mid);
    assert RelaysCorrected(c2, [e]) == RelaysCorrected(StepCorrected(c2, e), []);
  }

  /** From a well-queued cache whose last relay was at t: after relays at
      t or later of inventories other than inv, a relay of another
      inventory later than t + 15 minutes leaves inv uncached. */
  lemma CorrectedStaleAfter(c: Cache, t: int, inv: Inv, mid: seq<Relayed>, e: Relayed)
    requires WellQueued(c, t) && NonDecreasing(mid)
    requires forall i | 0 <= i < |mid| :: t <= mid[i].now && mid[i].inv != inv
    requires e.inv != inv && e.now > t + RELAY_EXPIRY_SECONDS
    ensures inv !in StepCorrected(RelaysCorrected(c, mid), e).mapRelay
  {
    assert DueBy(c.vRelayExpiration, inv, t + RELAY_EXPIRY_SECONDS);
    CorrectedRunKeepsOrder(c, t, mid, inv, t + RELAY_EXPIRY_SECONDS);
    StaleRecordErased(RelaysCorrected(c, mid), inv, t + RELAY_EXPIRY_SECONDS, e);
  }

  /** The same with the corrected expiry: a message outlives its fifteen
      minutes only while it is relayed again. */
  lemma CorrectedRecordExpires(c: Cache, start: int, pre: seq<Relayed>, inv: Inv, ss: seq<Byte>, t: int,
                                mid: seq<Relayed>, e: Relayed)
    requires WellQueued(c, start) && start <= t && forall i | 0 <= i < |pre| :: start <= pre[i].now
    requires NonDecreasing(pre + [Relayed(inv, ss, t)] + mid)
    requires forall i | 0 <= i < |mid| :: mid[i].inv != inv
    requires e.inv != inv && e.now > t + RELAY_EXPIRY_SECONDS
    ensures inv !in RelaysCorrected(c, pre + [Relayed(inv, ss, t)] + mid + [e]).mapRelay
  {
    var r := Relayed(inv, ss, t);
    var a := pre + [r];
    SplitAtRelay(pre, r, mid);
    assert forall i | 0 <= i < |a| :: start <= a[i].now;
    CorrectedRunKeepsOrder(c, start, a, inv, 0);
    assert LastTime(start, a) == t;
    CorrectedStaleAfter(RelaysCorrected(c, a), t, inv, mid, e);
    RelaysCorrectedThrough(c, a, mid, e);
  }

  class RelayCache {
    var mapRelay: map<Inv, seq<Byte>>
    var vRelayExpiration: seq<(int, Inv)>

    /** Every cached message still has an expiry entry in the queue. */
    ghost predicate Valid()
      reads this
    {
      mapRelay.Keys <= InvsOf(vRelayExpiration)
    }

    /** The cache's state as a value. */
    function State(): Cache
      reads this
    {
      Cache(mapRelay, vRelayExpiration)
    }

    constructor ()
      ensures Valid() && mapRelay == map[] && vRelayExpiration == []
    {
      mapRelay := map[];
      vRelayExpiration := [];
    }

    /** The expiry loop: pop every front entry whose time is before now and
      erase its message from the cache. */
    method Expire(now: int)
      requires Valid()
      modifies this
      ensures Valid()
      ensures var k := ExpiredCount(old(vRelayExpiration), now);
        && vRelayExpiration == old(vRelayExpiration)[k..]
        && mapRelay == old(mapRelay) - InvsOf(old(vRelayExpiration)[..k])
      ensures vRelayExpiration != [] ==> vRelayExpiration[0].0 >= now
      ensures State() == ExpireAsWritten(old(State()), now)
    {
      ghost var q := vRelayExpiration;
      ghost var k := 0;
      InvsOfSplit(q, 0);
      while vRelayExpiration != [] && vRelayExpiration[0].0 < now
        invariant k <= ExpiredCount(q, now)
        invariant vRelayExpiration == q[k..]
        invariant mapRelay == old(mapRelay) - InvsOf(q[..k])
        decreases |vRelayExpiration|
      {
        assert q[k] == vRelayExpiration[0];
        InvsOfPop(q, k);
        mapRelay := mapRelay - {vRelayExpiration[0].1};
        vRelayExpiration := vRelayExpiration[1..];
        k := k + 1;
      }
      assert k == ExpiredCount(q, now) by {
        assert k < |q| ==> q[k] == vRelayExpiration[0];
      }
      InvsOfSplit(q, k);
      assert mapRelay.Keys == old(mapRelay).Keys - InvsOf(q[..k]);
    }

    /** The expiry loop corrected: a popped inventory's message is erased
      only when no later entry for it is left in the queue, so a message
      cached again after an earlier relay is not erased by that relay's
      stale entry. */
    method ExpireKeepingRequeued(now: int)
      requires Valid()
      modifies this
      ensures Valid()
      ensures State() == ExpireUnlessRequeued(old(State()), now)
      ensures vRelayExpiration != [] ==> vRelayExpiration[0].0 >= now
    {
      ghost var q := vRelayExpiration;
      ghost var k := 0;
      InvsOfSplit(q, 0);
      while vRelayExpiration != [] && vRelayExpiration[0].0 < now
        invariant k <= ExpiredCount(q, now)
        invariant vRelayExpiration == q[k..]
        invariant mapRelay == old(mapRelay) - ErasedAfter(q, k)
        decreases |vRelayExpiration|
      {
        ErasedAfterPop(old(mapRelay), q, k);
        var x := vRelayExpiration[0].1;
        vRelayExpiration := vRelayExpiration[1..];
        if x !in InvsOf(vRelayExpiration) {
          mapRelay := mapRelay - {x};
        }
        k := k + 1;
      }
      ErasedAfterKeepsValid(old(mapRelay), q, k);
    }

    /** Cache the serialized message unless one is cached for inv already
      (std::map::insert keeps the older one), and queue its expiry. */
    method Record(inv: Inv, ss: seq<Byte>, now: int)
      requires Valid()
      modifies this
      ensures Valid()
      ensures mapRelay == if inv in old(mapRelay) then old(mapRelay) else old(mapRelay)[inv := ss]
      ensures vRelayExpiration == old(vRelayExpiration) + [(now + RELAY_EXPIRY_SECONDS, inv)]
      ensures State() == Insert(old(State()), inv, ss, now)
    {
      if inv !in mapRelay {
        mapRelay := mapRelay[inv := ss];
      }
      var q := vRelayExpiration + [(now + RELAY_EXPIRY_SECONDS, inv)];
      InvsOfSplit(q, |vRelayExpiration|);
      assert q[..|vRelayExpiration|] == vRelayExpiration;
      assert q[|vRelayExpiration|..][0].1 == inv;
      vRelayExpiration := q;
    }
  }

  /** The relay-related state of a peer: whether it wants transactions,
      whether it has a bloom filter, and its queue of inventory to announce. */
  class RelayPeer {
    var fRelayTxes: bool
    var hasFilter: bool
    var vInventoryToSend: seq<Inv>

    constructor (fRelayTxes: bool, hasFilter: bool)
      ensures this.fRelayTxes == fRelayTxes && this.hasFilter == hasFilter && vInventoryToSend == []
    {
      this.fRelayTxes := fRelayTxes;
      this.hasFilter := hasFilter;
      vInventoryToSend := [];
    }
  }

  /** The peer is announced to: it relays transactions, and it has no filter
      or its filter finds the transaction relevant. */
  predicate Announces(fRelayTxes: bool, hasFilter: bool, filterRelevant: bool)
  {
    fRelayTxes && (!hasFilter || filterRelevant)
  }

  /** The announcement loop of RelayTransaction: push inv to each peer that
      Announces it; relevant(p) is what p's filter reports for the
      transaction. */
  method AnnounceToPeers(vNodes: seq<RelayPeer>, inv: Inv, relevant: RelayPeer -> bool)
    requires forall i, j | 0 <= i < j < |vNodes| :: vNodes[i] != vNodes[j]
    modifies set p | p in vNodes
    ensures forall p | p in vNodes ::
      && p.fRelayTxes == old(p.fRelayTxes) && p.hasFilter == old(p.hasFilter)
      && p.vInventoryToSend == old(p.vInventoryToSend)
           + (if Announces(p.fRelayTxes, p.hasFilter, relevant(p)) then [inv] else [])
  {
    var i := 0;
    while i < |vNodes|
      invariant i <= |vNodes|
      invariant forall j | 0 <= j < |vNodes| ::
        && vNodes[j].fRelayTxes == old(vNodes[j].fRelayTxes) && vNodes[j].hasFilter == old(vNodes[j].hasFilter)
        && vNodes[j].vInventoryToSend == old(vNodes[j].vInventoryToSend)
             + (if j < i && Announces(vNodes[j].fRelayTxes, vNodes[j].hasFilter, relevant(vNodes[j])) then [inv] else [])
    {
      var pnode := vNodes[i];
      if pnode.fRelayTxes {
        if pnode.hasFilter {
          if relevant(pnode) {
            pnode.vInventoryToSend := pnode.vInventoryToSend + [inv];
          }
        } else {
          pnode.vInventoryToSend := pnode.vInventoryToSend + [inv];
        }
      }
      i := i + 1;
    }
  }

  /** RelayTransaction: expire old cache entries, cache the message, queue
      its expiry, then announce it. */
  method RelayTransaction(cache: RelayCache, hash: seq<Byte>, isDarksendBroadcast: bool, hasTxLockRequest: bool,
                          ss: seq<Byte>, now: int, vNodes: seq<RelayPeer>, relevant: RelayPeer -> bool)
    requires cache.Valid()
    requires forall i, j | 0 <= i < j < |vNodes| :: vNodes[i] != vNodes[j]
    modifies cache, set p | p in vNodes
    ensures cache.Valid()
    ensures cache.State() == StepAsWritten(old(cache.State()),
                                           Relayed(Inv(RelayInvType(isDarksendBroadcast, hasTxLockRequest), hash), ss, now))
    ensures var inv := Inv(RelayInvType(isDarksendBroadcast, hasTxLockRequest), hash);
      var k := ExpiredCount(old(cache.vRelayExpiration), now);
      var kept := old(cache.mapRelay) - InvsOf(old(cache.vRelayExpiration)[..k]);
      && cache.vRelayExpiration == old(cache.vRelayExpiration)[k..] + [(now + RELAY_EXPIRY_SECONDS, inv)]
      && cache.mapRelay == (if inv in kept then kept else kept[inv := ss])
      && forall p | p in vNodes ::
           p.vInventoryToSend == old(p.vInventoryToSend)
             + (if Announces(p.fRelayTxes, p.hasFilter, relevant(p)) then [inv] else [])
  {
    var inv := Inv(RelayInvType(isDarksendBroadcast, hasTxLockRequest), hash);
    cache.Expire(now);
    cache.Record(inv, ss, now);
    AnnounceToPeers(vNodes, inv, relevant);
  }
}
