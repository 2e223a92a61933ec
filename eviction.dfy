/** AttemptToEvictConnection: when the inbound slots are full, pick one
    inbound peer to drop. The candidates pass three protections (the four
    largest keyed net-groups, the eight best ping times, the older half by
    connection time); among the survivors the net-group with the most
    members, ties going to the group whose newest member connected last,
    loses its newest member. */
module Eviction {
  import opened NetTypes

  /** NodeEvictionCandidate: the snapshot of a node the choice works on. */
  datatype Candidate = Candidate(id: int, nTimeConnected: int, nMinPingUsecTime: int,
                                 netGroup: seq<Byte>, keyedNetGroup: seq<Byte>)

  /** The three comparators the candidates are sorted by. */
  datatype Order = ByKeyedNetGroup | ByPingDescending | ByTimeDescending

  /** comp(a, b) of the comparator o: CompareKeyedNetGroup,
      ReverseCompareNodeMinPingTime, ReverseCompareNodeTimeConnected. */
  predicate Before(o: Order, a: Candidate, b: Candidate)
  {
    match o
    case ByKeyedNetGroup => LexLess(a.keyedNetGroup, b.keyedNetGroup)
    case ByPingDescending => a.nMinPingUsecTime > b.nMinPingUsecTime
    case ByTimeDescending => a.nTimeConnected > b.nTimeConnected
  }

  /** Each comparator is a strict weak order: asymmetric, and "not before"
      is transitive. */
  lemma BeforeIsStrictWeakOrder(o: Order, a: Candidate, b: Candidate, c: Candidate)
    ensures Before(o, a, b) ==> !Before(o, b, a)
    ensures !Before(o, a, b) && !Before(o, b, c) ==> !Before(o, a, c)
  {
    if o.ByKeyedNetGroup? {
      if LexLess(a.keyedNetGroup, b.keyedNetGroup) && LexLess(b.keyedNetGroup, a.keyedNetGroup) {
        LexLessTransitive(a.keyedNetGroup, b.keyedNetGroup, a.keyedNetGroup);
        LexLessIrreflexive(a.keyedNetGroup);
      }
      if !Before(o, a, b) && !Before(o, b, c) {
        LexLessEqTransitive(c.keyedNetGroup, b.keyedNetGroup, a.keyedNetGroup);
      }
    }
  }

  /** s is in the order std::sort leaves it in: no element comes before
      an earlier one. */
  ghost predicate Sorted(s: seq<Candidate>, o: Order)
  {
    forall i, j | 0 <= i < j < |s| :: !Before(o, s[j], s[i])
  }

  /** x placed in front of the first element it does not come after. */
  function Insert(x: Candidate, s: seq<Candidate>, o: Order): (r: seq<Candidate>)
    ensures |r| == |s| + 1
  {
    if s == [] then [x]
    else if Before(o, s[0], x) then [s[0]] + Insert(x, s[1..], o)
    else [x] + s
  }

  /** The order std::sort(o) gives s, fixed as one insertion order.
      std::sort is not stable and may order equivalent candidates
      differently; the properties below are proved about this Sort only. */
  function Sort(s: seq<Candidate>, o: Order): (r: seq<Candidate>)
    ensures |r| == |s|
  {
    if s == [] then [] else Insert(s[0], Sort(s[1..], o), o)
  }

  lemma {:induction false} InsertPermutes(x: Candidate, s: seq<Candidate>, o: Order)
    ensures multiset(Insert(x, s, o)) == multiset(s) + multiset{x}
  {
    if s != [] {
      assert s == [s[0]] + s[1..];
      if Before(o, s[0], x) {
        InsertPermutes(x, s[1..], o);
      }
    }
  }

  /** An element that no element of the sorted t comes before can go in
      front of t. */
  lemma SortedCons(a: Candidate, t: seq<Candidate>, o: Order)
    requires Sorted(t, o)
    requires forall j | 0 <= j < |t| :: !Before(o, t[j], a)
    ensures Sorted([a] + t, o)
  {
    var r := [a] + t;
    forall i, j | 0 <= i < j < |r|
      ensures !Before(o, r[j], r[i])
    {
      assert r[j] == t[j - 1];
      if i > 0 {
        assert r[i] == t[i - 1];
      }
    }
  }

  lemma {:induction false} InsertSorted(x: Candidate, s: seq<Candidate>, o: Order)
    requires Sorted(s, o)
    ensures Sorted(Insert(x, s, o), o)
  {
    if s == [] {
      SortedCons(x, [], o);
    } else if Before(o, s[0], x) {
      var rest := s[1..];
      assert Sorted(rest, o) by {
        forall i, j | 0 <= i < j < |rest|
          ensures !Before(o, rest[j], rest[i])
        {
          assert rest[j] == s[j + 1] && rest[i] == s[i + 1];
        }
      }
      InsertSorted(x, rest, o);
      InsertPermutes(x, rest, o);
      var tail := Insert(x, rest, o);
      forall j | 0 <= j < |tail|
        ensures !Before(o, tail[j], s[0])
      {
        assert tail[j] in multiset(tail);
        if tail[j] == x {
          BeforeIsStrictWeakOrder(o, s[0], x, x);
        } else {
          assert tail[j] in multiset(rest);
          var k :| 0 <= k < |rest| && rest[k] == tail[j];
          assert s[k + 1] == tail[j];
        }
      }
      SortedCons(s[0], tail, o);
    } else {
      forall j | 0 <= j < |s|
        ensures !Before(o, s[j], x)
      {
        BeforeIsStrictWeakOrder(o, s[j], s[0], x);
      }
      SortedCons(x, s, o);
    }
  }

  lemma {:induction false} SortSorted(s: seq<Candidate>, o: Order)
    ensures Sorted(Sort(s, o), o)
    ensures multiset(Sort(s, o)) == multiset(s)
  {
    if s != [] {
      SortSorted(s[1..], o);
      InsertSorted(s[0], Sort(s[1..], o), o);
      InsertPermutes(s[0], Sort(s[1..], o), o);
      assert s == [s[0]] + s[1..];
    }
  }

  /** Sort, then erase the last `drop` elements: the candidates that stay
      exposed to eviction. */
  function Kept(s: seq<Candidate>, o: Order, drop: nat): seq<Candidate>
    requires drop <= |s|
  {
    Sort(s, o)[..|s| - drop]
  }

  /** The erased elements: the ones a protection shields. */
  function Shielded(s: seq<Candidate>, o: Order, drop: nat): seq<Candidate>
    requires drop <= |s|
  {
    Sort(s, o)[|s| - drop..]
  }

  /** A protection splits the candidates into the kept and the shielded ones,
      `drop` of them shielded, and no shielded candidate comes before a kept
      one in the order. */
  lemma ProtectionSplits(s: seq<Candidate>, o: Order, drop: nat)
    requires drop <= |s|
    ensures multiset(Kept(s, o, drop)) + multiset(Shielded(s, o, drop)) == multiset(s)
    ensures |Kept(s, o, drop)| == |s| - drop && |Shielded(s, o, drop)| == drop
    ensures Sorted(Kept(s, o, drop), o)
    ensures forall p, c | p in Shielded(s, o, drop) && c in Kept(s, o, drop) :: !Before(o, p, c)
  {
    var r := Sort(s, o);
    SortSorted(s, o);
    var m := |s| - drop;
    assert r == r[..m] + r[m..];
    SortedSlices(r, m, o);
  }

  /** Both halves of a sorted sequence are sorted, and nothing in the back
      half comes before anything in the front half. */
  lemma SortedSlices(r: seq<Candidate>, m: nat, o: Order)
    requires Sorted(r, o) && m <= |r|
    ensures Sorted(r[..m], o)
    ensures forall p, c | p in r[m..] && c in r[..m] :: !Before(o, p, c)
  {
    var front, back := r[..m], r[m..];
    forall i, j | 0 <= i < j < |front|
      ensures !Before(o, front[j], front[i])
    {
      assert front[j] == r[j] && front[i] == r[i];
    }
    forall p, c | p in back && c in front
      ensures !Before(o, p, c)
    {
      var j :| 0 <= j < |back| && back[j] == p;
      var i :| 0 <= i < |front| && front[i] == c;
      assert back[j] == r[m + j];
      assert front[i] == r[i];
    }
  }

  function Min(a: int, b: int): int { if a < b then a else b }

  /** The candidates left by the keyed net-group protection (the four
      largest keyed net-groups are erased after an ascending sort). */
  function AfterNetGroupProtection(s: seq<Candidate>): seq<Candidate>
  {
    Kept(s, ByKeyedNetGroup, Min(4, |s|))
  }

  /** The candidates left by the ping protection (the eight lowest minimum
      ping times). */
  function AfterPingProtection(s: seq<Candidate>): seq<Candidate>
  {
    Kept(s, ByPingDescending, Min(8, |s|))
  }

  /** The candidates left by the connection-time protection (the older half). */
  function AfterAgeProtection(s: seq<Candidate>): seq<Candidate>
  {
    Kept(s, ByTimeDescending, |s| / 2)
  }

  /** The candidates that survive all three protections, newest first. */
  function Survivors(s: seq<Candidate>): seq<Candidate>
  {
    AfterAgeProtection(AfterPingProtection(AfterNetGroupProtection(s)))
  }

  /** The keyed net-group protection shields min(4, n) candidates, none of
      whose keyed net-group sorts below a survivor's. */
  lemma NetGroupProtection(s: seq<Candidate>)
    ensures var shielded := Shielded(s, ByKeyedNetGroup, Min(4, |s|));
      && |shielded| == Min(4, |s|)
      && multiset(AfterNetGroupProtection(s)) + multiset(shielded) == multiset(s)
      && forall p, c | p in shielded && c in AfterNetGroupProtection(s) :: LexLessEq(c.keyedNetGroup, p.keyedNetGroup)
  {
    ProtectionSplits(s, ByKeyedNetGroup, Min(4, |s|));
  }

  /** The ping protection shields min(8, n) candidates, each with a minimum
      ping no higher than any survivor's. */
  lemma PingProtection(s: seq<Candidate>)
    ensures var shielded := Shielded(s, ByPingDescending, Min(8, |s|));
      && |shielded| == Min(8, |s|)
      && multiset(AfterPingProtection(s)) + multiset(shielded) == multiset(s)
      && forall p, c | p in shielded && c in AfterPingProtection(s) :: p.nMinPingUsecTime <= c.nMinPingUsecTime
  {
    ProtectionSplits(s, ByPingDescending, Min(8, |s|));
  }

  /** The age protection shields half the candidates (rounded down), each
      connected no later than any survivor. */
  lemma AgeProtection(s: seq<Candidate>)
    ensures var shielded := Shielded(s, ByTimeDescending, |s| / 2);
      && |shielded| == |s| / 2
      && multiset(AfterAgeProtection(s)) + multiset(shielded) == multiset(s)
      && forall p, c | p in shielded && c in AfterAgeProtection(s) :: p.nTimeConnected <= c.nTimeConnected
  {
    ProtectionSplits(s, ByTimeDescending, |s| / 2);
  }

  /** Survivors exist exactly when there are more than 4 + 8 candidates, and
      they come newest first. */
  lemma SurvivorsCount(s: seq<Candidate>)
    ensures Survivors(s) == [] <==> |s| <= 12
    ensures Sorted(Survivors(s), ByTimeDescending)
  {
    var s1 := AfterNetGroupProtection(s);
    var s2 := AfterPingProtection(s1);
    ProtectionSplits(s, ByKeyedNetGroup, Min(4, |s|));
    ProtectionSplits(s1, ByPingDescending, Min(8, |s1|));
    ProtectionSplits(s2, ByTimeDescending, |s2| / 2);
  }

  /** The members of net-group g among s, in the order of s
      (mapAddrCounts[g] once the loop has pushed all of s). */
  function GroupOf(s: seq<Candidate>, g: seq<Byte>): seq<Candidate>
  {
    if s == [] then []
    else GroupOf(s[..|s| - 1], g) + (if s[|s| - 1].netGroup == g then [s[|s| - 1]] else [])
  }

  /** The group the loop over the candidates currently favours, with its
      size and the connection time of its first (newest) member. */
  datatype Leader = Leader(group: seq<Byte>, size: nat, time: int)

  /** naMostConnections, nMostConnections and nMostConnectionsTime after the
      loop has seen all of s: a group takes the lead when it grows past the
      leader's size, or reaches it with a later first-member time. */
  function Pick(s: seq<Candidate>): Leader
  {
    if s == [] then Leader([], 0, 0)
    else
      var prev := Pick(s[..|s| - 1]);
      var c := s[|s| - 1];
      var members := GroupOf(s, c.netGroup);
      var size := |members|;
      var time := members[0].nTimeConnected;
      if size > prev.size || (size == prev.size && time > prev.time) then Leader(c.netGroup, size, time)
      else prev
  }

  lemma GroupOfOther(s: seq<Candidate>, g: seq<Byte>)
    requires s != [] && s[|s| - 1].netGroup != g
    ensures GroupOf(s, g) == GroupOf(s[..|s| - 1], g)
  {
  }

  /** l describes a leading group of s: l.group has l.size members, the
      first of which connected at l.time; no group is larger, and no group
      of the same size has a later first member. */
  ghost predicate Leads(s: seq<Candidate>, l: Leader)
  {
    && GroupOf(s, l.group) != []
    && l.size == |GroupOf(s, l.group)|
    && l.time == GroupOf(s, l.group)[0].nTimeConnected
    && (forall g :: |GroupOf(s, g)| <= l.size)
    && (forall g | GroupOf(s, g) != [] && |GroupOf(s, g)| == l.size :: GroupOf(s, g)[0].nTimeConnected <= l.time)
  }

  /** The group Pick chooses is a largest one, and among the largest ones
      its first member connected no earlier than theirs. */
  lemma {:induction false} PickIsLargestNewestGroup(s: seq<Candidate>)
    requires s != []
    ensures Leads(s, Pick(s))
  {
    var p := s[..|s| - 1];
    if p == [] {
      var c := s[0];
      assert GroupOf(s, c.netGroup) == [c];
      forall g | g != c.netGroup
        ensures GroupOf(s, g) == []
      {
        GroupOfOther(s, g);
      }
    } else {
      PickIsLargestNewestGroup(p);
      PickStep(s);
    }
  }

  /** One turn of the loop keeps Leads. */
  lemma PickStep(s: seq<Candidate>)
    requires |s| > 1 && Leads(s[..|s| - 1], Pick(s[..|s| - 1]))
    ensures Leads(s, Pick(s))
  {
    var p := s[..|s| - 1];
    var c := s[|s| - 1];
    forall g | g != c.netGroup
      ensures GroupOf(s, g) == GroupOf(p, g)
    {
      GroupOfOther(s, g);
    }
    var before := GroupOf(p, c.netGroup);
    var after := GroupOf(s, c.netGroup);
    assert after == before + [c];
    assert before != [] ==> after[0] == before[0];
    if Pick(s) == Pick(p) {
      PickStepKeep(s);
    } else {
      PickStepTakeOver(s);
    }
  }

  /** The group of the new candidate takes the lead. */
  lemma PickStepTakeOver(s: seq<Candidate>)
    requires |s| > 1 && Leads(s[..|s| - 1], Pick(s[..|s| - 1]))
    requires forall g | g != s[|s| - 1].netGroup :: GroupOf(s, g) == GroupOf(s[..|s| - 1], g)
    requires Pick(s) != Pick(s[..|s| - 1])
    ensures Leads(s, Pick(s))
  {
    var p := s[..|s| - 1];
    var c := s[|s| - 1];
    var prev := Pick(p);
    var l := Pick(s);
    var after := GroupOf(s, c.netGroup);
    assert l == Leader(c.netGroup, |after|, after[0].nTimeConnected);
    forall g
      ensures |GroupOf(s, g)| <= l.size
    {
      if g != c.netGroup {
        assert |GroupOf(p, g)| <= prev.size;
      }
    }
    forall g | GroupOf(s, g) != [] && |GroupOf(s, g)| == l.size
      ensures GroupOf(s, g)[0].nTimeConnected <= l.time
    {
      if g != c.netGroup {
        assert GroupOf(s, g) == GroupOf(p, g);
        assert GroupOf(p, g)[0].nTimeConnected <= prev.time;
      }
    }
  }

  /** The leader stays: the new candidate's group is not its group, and it
      neither outgrows the leader nor ties it with a later first member. */
  lemma PickStepKeep(s: seq<Candidate>)
    requires |s| > 1 && Leads(s[..|s| - 1], Pick(s[..|s| - 1]))
    requires forall g | g != s[|s| - 1].netGroup :: GroupOf(s, g) == GroupOf(s[..|s| - 1], g)
    requires GroupOf(s, s[|s| - 1].netGroup) == GroupOf(s[..|s| - 1], s[|s| - 1].netGroup) + [s[|s| - 1]]
    requires Pick(s) == Pick(s[..|s| - 1])
    ensures Leads(s, Pick(s))
  {
    var p := s[..|s| - 1];
    var c := s[|s| - 1];
    var l := Pick(p);
    var after := GroupOf(s, c.netGroup);
    assert !(|after| > l.size || (|after| == l.size && after[0].nTimeConnected > l.time));
    assert l.group != c.netGroup;
    assert GroupOf(s, l.group) == GroupOf(p, l.group);
    forall g
      ensures |GroupOf(s, g)| <= l.size
    {
      if g != c.netGroup {
        assert |GroupOf(p, g)| <= l.size;
      }
    }
    forall g | GroupOf(s, g) != [] && |GroupOf(s, g)| == l.size
      ensures GroupOf(s, g)[0].nTimeConnected <= l.time
    {
      if g != c.netGroup {
        assert GroupOf(p, g)[0].nTimeConnected <= l.time;
      }
    }
  }

  /** Every member of a group keeps its position relative to the others. */
  lemma {:induction false} GroupOfSorted(s: seq<Candidate>, g: seq<Byte>, o: Order)
    requires Sorted(s, o)
    ensures Sorted(GroupOf(s, g), o)
    ensures forall x | x in GroupOf(s, g) :: x in s && x.netGroup == g
  {
    if s != [] {
      var p := s[..|s| - 1];
      assert Sorted(p, o);
      GroupOfSorted(p, g, o);
      var c := s[|s| - 1];
      if c.netGroup == g {
        var m := GroupOf(p, g);
        forall i | 0 <= i < |m|
          ensures !Before(o, c, m[i])
        {
          assert m[i] in p;
          var k :| 0 <= k < |p| && p[k] == m[i];
        }
      }
    }
  }

  /** The victim AttemptToEvictConnection chooses among the eligible
      candidates s: the newest member of the group Pick leads with, unless
      no candidate survives, or that group has a single member and the new
      connection is not preferred. */
  function Victim(s: seq<Candidate>, fPreferNewConnection: bool): Option<int>
  {
    var survivors := Survivors(s);
    if survivors == [] then None
    else
      var nodes := GroupOf(survivors, Pick(survivors).group);
      if nodes == [] then None
      else if |nodes| <= 1 && !fPreferNewConnection then None
      else Some(nodes[0].id)
  }

  /** There is no victim when the protections leave no candidate, or when
      the largest group is a single peer and the new connection is not
      preferred; otherwise there is one. */
  lemma VictimExists(s: seq<Candidate>, fPreferNewConnection: bool)
    ensures Victim(s, fPreferNewConnection).None? <==>
      |s| <= 12 || (!fPreferNewConnection && |GroupOf(Survivors(s), Pick(Survivors(s)).group)| <= 1)
  {
    SurvivorsCount(s);
    if Survivors(s) != [] {
      PickIsLargestNewestGroup(Survivors(s));
    }
  }

  /** Every survivor is one of the candidates, and was exposed by all
      three protections: its keyed net-group sorts no higher than any
      net-group-shielded one, its ping is no lower than any ping-shielded
      one, and it connected no earlier than any age-shielded one. */
  lemma SurvivorsAreUnshielded(s: seq<Candidate>)
    ensures var s1 := AfterNetGroupProtection(s);
      var s2 := AfterPingProtection(s1);
      forall v | v in Survivors(s) ::
        && v in multiset(s)
        && (forall p | p in Shielded(s, ByKeyedNetGroup, Min(4, |s|)) :: LexLessEq(v.keyedNetGroup, p.keyedNetGroup))
        && (forall p | p in Shielded(s1, ByPingDescending, Min(8, |s1|)) :: p.nMinPingUsecTime <= v.nMinPingUsecTime)
        && (forall p | p in Shielded(s2, ByTimeDescending, |s2| / 2) :: p.nTimeConnected <= v.nTimeConnected)
  {
    var s1 := AfterNetGroupProtection(s);
    var s2 := AfterPingProtection(s1);
    NetGroupProtection(s);
    PingProtection(s1);
    AgeProtection(s2);
    forall v | v in Survivors(s)
      ensures v in s2 && v in s1 && v in multiset(s)
    {
      assert v in multiset(Survivors(s));
      assert v in multiset(s2);
      assert v in multiset(s1);
    }
  }

  /** The victim is the newest member of a largest group among the
      survivors. */
  lemma VictimIsNewestOfLargestGroup(s: seq<Candidate>, fPreferNewConnection: bool)
    requires Victim(s, fPreferNewConnection).Some?
    ensures var survivors := Survivors(s);
      exists v | v in survivors ::
        && v.id == Victim(s, fPreferNewConnection).value
        && (forall g :: |GroupOf(survivors, g)| <= |GroupOf(survivors, v.netGroup)|)
        && (forall w | w in survivors && w.netGroup == v.netGroup :: w.nTimeConnected <= v.nTimeConnected)
  {
    var survivors := Survivors(s);
    SurvivorsCount(s);
    PickIsLargestNewestGroup(survivors);
    var g := Pick(survivors).group;
    var nodes := GroupOf(survivors, g);
    GroupOfSorted(survivors, g, ByTimeDescending);
    var v := nodes[0];
    assert v in nodes;
    assert v in survivors && v.netGroup == g;
    forall w | w in survivors && w.netGroup == g
      ensures w.nTimeConnected <= v.nTimeConnected
    {
      GroupOfMember(survivors, g, w);
      var j :| 0 <= j < |nodes| && nodes[j] == w;
      if j > 0 {
        assert !Before(ByTimeDescending, nodes[j], nodes[0]);
      }
    }
  }

  lemma {:induction false} GroupOfMember(s: seq<Candidate>, g: seq<Byte>, w: Candidate)
    requires w in s && w.netGroup == g
    ensures w in GroupOf(s, g)
  {
    var p := s[..|s| - 1];
    if w != s[|s| - 1] {
      assert w in p by {
        var k :| 0 <= k < |s| && s[k] == w;
        assert p[k] == w;
      }
      GroupOfMember(p, g, w);
    }
  }

  /** std::map::operator[] on mapAddrCounts: the list for g, or the empty
      list it inserts for a group not yet seen. */
  function Get(m: map<seq<Byte>, seq<Candidate>>, g: seq<Byte>): seq<Candidate>
  {
    if g in m then m[g] else []
  }

  /** The loop that groups the survivors by net-group and tracks the leading
      group, followed by mapAddrCounts[naMostConnections]. */
  method SelectGroup(survivors: seq<Candidate>) returns (naMostConnections: seq<Byte>, vEvictionNodes: seq<Candidate>)
    ensures naMostConnections == Pick(survivors).group
    ensures vEvictionNodes == GroupOf(survivors, naMostConnections)
  {
    naMostConnections := [];
    var nMostConnections: nat := 0;
    var nMostConnectionsTime: int := 0;
    var mapAddrCounts: map<seq<Byte>, seq<Candidate>> := map[];
    var i := 0;
    while i < |survivors|
      invariant i <= |survivors|
      invariant forall g :: Get(mapAddrCounts, g) == GroupOf(survivors[..i], g)
      invariant Pick(survivors[..i]) == Leader(naMostConnections, nMostConnections, nMostConnectionsTime)
    {
      var candidate := survivors[i];
      var prefix := survivors[..i + 1];
      assert prefix[..i] == survivors[..i];
      mapAddrCounts := mapAddrCounts[candidate.netGroup := Get(mapAddrCounts, candidate.netGroup) + [candidate]];
      forall g
        ensures Get(mapAddrCounts, g) == GroupOf(prefix, g)
      {
        if g != candidate.netGroup {
          GroupOfOther(prefix, g);
        }
      }
      var grouptime := mapAddrCounts[candidate.netGroup][0].nTimeConnected;
      var groupsize := |mapAddrCounts[candidate.netGroup]|;
      if groupsize > nMostConnections || (groupsize == nMostConnections && grouptime > nMostConnectionsTime) {
        nMostConnections := groupsize;
        nMostConnectionsTime := grouptime;
        naMostConnections := candidate.netGroup;
      }
      i := i + 1;
    }
    assert survivors[..i] == survivors;
    vEvictionNodes := Get(mapAddrCounts, naMostConnections);
  }

  /** The fields of a CNode the eviction reads; only fDisconnect changes. */
  class Node {
    const id: int
    const fInbound: bool
    const fWhitelisted: bool
    const nTimeConnected: int
    const nMinPingUsecTime: int
    const netGroup: seq<Byte>
    const keyedNetGroup: seq<Byte>
    var fDisconnect: bool

    constructor (id: int, fInbound: bool, fWhitelisted: bool, nTimeConnected: int, nMinPingUsecTime: int,
                 netGroup: seq<Byte>, keyedNetGroup: seq<Byte>)
      ensures this.id == id && this.fInbound == fInbound && this.fWhitelisted == fWhitelisted
      ensures this.nTimeConnected == nTimeConnected && this.nMinPingUsecTime == nMinPingUsecTime
      ensures this.netGroup == netGroup && this.keyedNetGroup == keyedNetGroup && !fDisconnect
    {
      this.id := id;
      this.fInbound := fInbound;
      this.fWhitelisted := fWhitelisted;
      this.nTimeConnected := nTimeConnected;
      this.nMinPingUsecTime := nMinPingUsecTime;
      this.netGroup := netGroup;
      this.keyedNetGroup := keyedNetGroup;
      fDisconnect := false;
    }

    /** Whitelisted, outbound and already disconnecting nodes are never
        candidates. */
    predicate Eligible()
      reads this
    {
      !fWhitelisted && fInbound && !fDisconnect
    }

    function Snapshot(): Candidate
    {
      Candidate(id, nTimeConnected, nMinPingUsecTime, netGroup, keyedNetGroup)
    }
  }

  /** The candidate snapshots of the eligible nodes, in vNodes order. */
  function Candidates(nodes: seq<Node>): seq<Candidate>
    reads set n | n in nodes
    decreases |nodes|
  {
    if nodes == [] then []
    else
      var last := nodes[|nodes| - 1];
      Candidates(nodes[..|nodes| - 1]) + (if last.Eligible() then [last.Snapshot()] else [])
  }

  /** The index of the first node with the given id. */
  function FirstWithId(nodes: seq<Node>, id: int): (r: Option<nat>)
    ensures r.Some? ==> r.value < |nodes| && nodes[r.value].id == id
    ensures r.Some? ==> forall k | 0 <= k < r.value :: nodes[k].id != id
    ensures r.None? ==> forall k | 0 <= k < |nodes| :: nodes[k].id != id
  {
    if nodes == [] then None
    else if nodes[0].id == id then Some(0)
    else match FirstWithId(nodes[1..], id)
      case None => None
      case Some(k) => Some(k + 1)
  }

  /** AttemptToEvictConnection over vNodes: the victim Victim picks among the
      eligible nodes gets fDisconnect set (the first node with its id), and
      true is returned exactly then. No other node changes. */
  method AttemptToEvictConnection(vNodes: seq<Node>, fPreferNewConnection: bool) returns (evicted: bool)
    modifies set n | n in vNodes
    ensures var victim := Victim(old(Candidates(vNodes)), fPreferNewConnection);
      evicted <==> victim.Some? && FirstWithId(vNodes, victim.value).Some?
    ensures var victim := Victim(old(Candidates(vNodes)), fPreferNewConnection);
      forall n | n in vNodes ::
        n.fDisconnect == (old(n.fDisconnect) || (evicted && n == vNodes[FirstWithId(vNodes, victim.value).value]))
  {
    var vEvictionCandidates := CollectCandidates(vNodes);
    var victim := ChooseVictim(vEvictionCandidates, fPreferNewConnection);
    if victim.None? {
      return false;
    }
    evicted := DisconnectFirst(vNodes, victim.value);
  }

  /** The loop that snapshots the eligible nodes. */
  method CollectCandidates(vNodes: seq<Node>) returns (vEvictionCandidates: seq<Candidate>)
    ensures vEvictionCandidates == Candidates(vNodes)
  {
    vEvictionCandidates := [];
    var i := 0;
    while i < |vNodes|
      invariant i <= |vNodes|
      invariant vEvictionCandidates == Candidates(vNodes[..i])
    {
      var pnode := vNodes[i];
      assert vNodes[..i + 1][..i] == vNodes[..i];
      if pnode.Eligible() {
        vEvictionCandidates := vEvictionCandidates + [pnode.Snapshot()];
      }
      i := i + 1;
    }
    assert vNodes[..i] == vNodes;
  }

  /** The protections, the group loop and the single-member rule: the id of
      the node to disconnect, if any. */
  method ChooseVictim(vEvictionCandidates: seq<Candidate>, fPreferNewConnection: bool) returns (victim: Option<int>)
    ensures victim == Victim(vEvictionCandidates, fPreferNewConnection)
  {
    var survivors := Survivors(vEvictionCandidates);
    if survivors == [] {
      return None;
    }
    var naMostConnections, vEvictionNodes := SelectGroup(survivors);
    if vEvictionNodes == [] {
      return None;
    }
    if |vEvictionNodes| <= 1 && !fPreferNewConnection {
      return None;
    }
    return Some(vEvictionNodes[0].id);
  }

  /** The final loop: set fDisconnect on the first node with the given id
      and report whether there was one. */
  method DisconnectFirst(vNodes: seq<Node>, nEvictionId: int) returns (found: bool)
    modifies set n | n in vNodes
    ensures found <==> FirstWithId(vNodes, nEvictionId).Some?
    ensures forall n | n in vNodes ::
      n.fDisconnect == (old(n.fDisconnect) || (found && n == vNodes[FirstWithId(vNodes, nEvictionId).value]))
  {
    var k := 0;
    while k < |vNodes|
      invariant k <= |vNodes|
      invariant forall j | 0 <= j < k :: vNodes[j].id != nEvictionId
    {
      if vNodes[k].id == nEvictionId {
        vNodes[k].fDisconnect := true;
        assert FirstWithId(vNodes, nEvictionId) == Some(k);
        return true;
      }
      k := k + 1;
    }
    return false;
  }
}
