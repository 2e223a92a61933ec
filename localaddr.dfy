/** The node's own addresses (mapLocalHost) with a score each, and the
    networks the node stays off (vfLimited). mapLocalHost is keyed by the IP
    part of an address: a CService used as a key is sliced to its CNetAddr,
    so the port is not part of the key. Reachability from a peer, whether an
    address is routable and which network it is on are computed outside this
    code and come in as parameters. */
module LocalAddr {
  import opened NetTypes

  /** The address scores of net.h (LOCAL_NONE, LOCAL_IF, LOCAL_BIND,
      LOCAL_UPNP, LOCAL_MANUAL): a score of LOCAL_MANUAL or more is kept even
      when discovery is off. */
  const LOCAL_NONE: int := 0
  const LOCAL_MANUAL: int := 4

  /** The networks of netbase.h: NET_UNROUTABLE, NET_IPV4, NET_IPV6, NET_TOR,
      and their count NET_MAX. */
  const NET_UNROUTABLE: nat := 0
  const NET_MAX: nat := 4
  type Network = n: nat | n < NET_MAX

  type NetAddr = seq<Byte>

  /** A CService: an address and a port. */
  datatype Service = Service(ip: NetAddr, port: int)

  datatype LocalServiceInfo = LocalServiceInfo(nScore: int, nPort: int)

  /** Entry j outranks entry k for a peer: it is more reachable, or as
      reachable with a higher score. */
  predicate Outranks(m: map<NetAddr, LocalServiceInfo>, reach: NetAddr -> nat, j: NetAddr, k: NetAddr)
    requires j in m && k in m
  {
    reach(j) > reach(k) || (reach(j) == reach(k) && m[j].nScore > m[k].nScore)
  }

  /** k is a best local address for a peer: no entry outranks it. */
  ghost predicate IsBest(m: map<NetAddr, LocalServiceInfo>, reach: NetAddr -> nat, k: NetAddr)
  {
    k in m && forall j | j in m :: !Outranks(m, reach, j, k)
  }

  /** Every non-empty map has a best entry. */
  lemma {:induction false} BestExists(m: map<NetAddr, LocalServiceInfo>, reach: NetAddr -> nat, keys: set<NetAddr>)
    requires keys != {} && keys <= m.Keys
    ensures exists k | k in keys :: forall j | j in keys :: !Outranks(m, reach, j, k)
    decreases |keys|
  {
    var x :| x in keys;
    if keys == {x} {
      assert forall j | j in keys :: j == x;
    } else {
      var rest := keys - {x};
      BestExists(m, reach, rest);
      var k :| k in rest && forall j | j in rest :: !Outranks(m, reach, j, k);
      if Outranks(m, reach, x, k) {
        forall j | j in keys
          ensures !Outranks(m, reach, j, x)
        {
          if j != x {
            assert !Outranks(m, reach, j, k);
          }
        }
      } else {
        forall j | j in keys
          ensures !Outranks(m, reach, j, k)
        {
          if j != x {
            assert j in rest;
          }
        }
      }
    }
  }

  /** All best entries rank the same: they are equally reachable and have
      the same score. */
  lemma BestsTie(m: map<NetAddr, LocalServiceInfo>, reach: NetAddr -> nat, a: NetAddr, b: NetAddr)
    requires IsBest(m, reach, a) && IsBest(m, reach, b)
    ensures reach(a) == reach(b) && m[a].nScore == m[b].nScore
  {
    assert !Outranks(m, reach, a, b) && !Outranks(m, reach, b, a);
  }

  /** The map after AddLocal accepts an address: a new address enters with
      the given score; a known one is updated, with one point added, when
      the given score is at least its current score, and kept otherwise. */
  function AfterAdd(m: map<NetAddr, LocalServiceInfo>, addr: Service, nScore: int): map<NetAddr, LocalServiceInfo>
  {
    var fAlready := addr.ip in m;
    if !fAlready || nScore >= m[addr.ip].nScore then
      m[addr.ip := LocalServiceInfo(nScore + (if fAlready then 1 else 0), addr.port)]
    else m
  }

  /** AddLocal never lowers a score: afterwards the address is present with
      a score at least the given one and at least its old one, strictly
      above the old one when the given score reaches it; every other entry
      is left alone. */
  lemma AddRaisesScore(m: map<NetAddr, LocalServiceInfo>, addr: Service, nScore: int)
    ensures var r := AfterAdd(m, addr, nScore);
      && r.Keys == m.Keys + {addr.ip}
      && r[addr.ip].nScore >= nScore
      && (addr.ip in m ==> r[addr.ip].nScore >= m[addr.ip].nScore)
      && (addr.ip in m && nScore >= m[addr.ip].nScore ==> r[addr.ip].nScore == nScore + 1)
      && (forall k | k in m && k != addr.ip :: r[k] == m[k])
  {
  }

  /** A vote (SeenLocal) for the best address keeps it best. */
  lemma VoteKeepsBest(m: map<NetAddr, LocalServiceInfo>, reach: NetAddr -> nat, k: NetAddr)
    requires IsBest(m, reach, k)
    ensures IsBest(m[k := m[k].(nScore := m[k].nScore + 1)], reach, k)
  {
    var m' := m[k := m[k].(nScore := m[k].nScore + 1)];
    forall j | j in m'
      ensures !Outranks(m', reach, j, k)
    {
      assert !Outranks(m, reach, j, k);
    }
  }

  class LocalHosts {
    var mapLocalHost: map<NetAddr, LocalServiceInfo>
    /** Indexed by network: the node makes no automatic connections to a
        limited network. */
    const vfLimited: array<bool>

    predicate Valid()
      reads this
    {
      vfLimited.Length == NET_MAX
    }

    /** No local addresses, and no network limited. */
    constructor ()
      ensures Valid() && fresh(vfLimited)
      ensures mapLocalHost == map[] && vfLimited[..] == seq(NET_MAX, _ => false)
    {
      mapLocalHost := map[];
      vfLimited := new bool[NET_MAX](_ => false);
    }

    predicate IsLimited(net: Network)
      requires Valid()
      reads this, vfLimited
    {
      vfLimited[net]
    }

    /** A network is reachable exactly when it is not limited. */
    predicate IsReachable(net: Network)
      requires Valid()
      reads this, vfLimited
      ensures IsReachable(net) <==> !IsLimited(net)
    {
      !vfLimited[net]
    }

    predicate IsLocal(addr: Service)
      reads this
    {
      addr.ip in mapLocalHost
    }

    /** GetnScore: the address's score, 0 when it is not a local address. */
    function GetnScore(addr: Service): (r: int)
      reads this
      ensures addr.ip !in mapLocalHost ==> r == LOCAL_NONE
      ensures addr.ip in mapLocalHost ==> r == mapLocalHost[addr.ip].nScore
    {
      if addr.ip !in mapLocalHost then 0 else mapLocalHost[addr.ip].nScore
    }

    /** GetLocal: the best local address for a peer whose reachability from
      each address is reach. Nothing when the node does not listen or has no
      local address; otherwise a best entry, which counts only when its
      score is not negative. */
    method GetLocal(fListen: bool, reach: NetAddr -> nat) returns (found: bool, addr: Service)
      ensures found ==> fListen && IsBest(mapLocalHost, reach, addr.ip)
      ensures found ==> mapLocalHost[addr.ip].nScore >= 0 && addr.port == mapLocalHost[addr.ip].nPort
      ensures !found ==> !fListen || forall k | IsBest(mapLocalHost, reach, k) :: mapLocalHost[k].nScore < 0
    {
      addr := Service([], 0);
      if !fListen {
        return false, addr;
      }
      var m := mapLocalHost;
      var nBestScore: int := -1;
      var nBestReachability: int := -1;
      var rest := m.Keys;
      ghost var seen: set<NetAddr> := {};
      while rest != {}
        invariant seen <= m.Keys && rest <= m.Keys && m.Keys <= seen + rest
        invariant seen == {} ==> nBestScore == -1 && nBestReachability == -1
        invariant seen != {} ==>
          && addr.ip in seen
          && nBestReachability == reach(addr.ip) && nBestScore == m[addr.ip].nScore
          && addr.port == m[addr.ip].nPort
          && forall j | j in seen :: !Outranks(m, reach, j, addr.ip)
        decreases |rest|
      {
        var a :| a in rest;
        ghost var prev := addr.ip;
        var nScore := m[a].nScore;
        var nReachability := reach(a);
        if nReachability > nBestReachability || (nReachability == nBestReachability && nScore > nBestScore) {
          addr := Service(a, m[a].nPort);
          nBestReachability := nReachability;
          nBestScore := nScore;
          forall j | j in seen
            ensures !Outranks(m, reach, j, a)
          {
            assert !Outranks(m, reach, j, prev);
          }
        }
        rest := rest - {a};
        seen := seen + {a};
      }
      found := nBestScore >= 0;
      if !found && m != map[] {
        forall k | IsBest(m, reach, k)
          ensures m[k].nScore < 0
        {
          BestsTie(m, reach, k, addr.ip);
        }
      }
    }

    /** AddLocal: an address is accepted when it is routable, discovery is on
      or the score is at least LOCAL_MANUAL, and its network is not limited;
      an accepted address is recorded as AfterAdd says. */
    method AddLocal(addr: Service, nScore: int, fDiscover: bool, routable: bool, net: Network) returns (r: bool)
      requires Valid()
      modifies this`mapLocalHost
      ensures r <==> routable && (fDiscover || nScore >= LOCAL_MANUAL) && !IsLimited(net)
      ensures mapLocalHost == if r then AfterAdd(old(mapLocalHost), addr, nScore) else old(mapLocalHost)
    {
      if !routable {
        return false;
      }
      if !fDiscover && nScore < LOCAL_MANUAL {
        return false;
      }
      if IsLimited(net) {
        return false;
      }
      var fAlready := addr.ip in mapLocalHost;
      var info := if fAlready then mapLocalHost[addr.ip] else LocalServiceInfo(0, 0);
      if !fAlready || nScore >= info.nScore {
        info := LocalServiceInfo(nScore + (if fAlready then 1 else 0), addr.port);
      }
      mapLocalHost := mapLocalHost[addr.ip := info];
      return true;
    }

    /** RemoveLocal: the address is no longer local; always true. */
    method RemoveLocal(addr: Service) returns (r: bool)
      modifies this`mapLocalHost
      ensures r && mapLocalHost == old(mapLocalHost) - {addr.ip}
      ensures !IsLocal(addr)
    {
      mapLocalHost := mapLocalHost - {addr.ip};
      return true;
    }

    /** SetLimited: limit or free a network; NET_UNROUTABLE is never changed. */
    method SetLimited(net: Network, fLimited: bool)
      requires Valid()
      modifies vfLimited
      ensures vfLimited[..] == if net == NET_UNROUTABLE then old(vfLimited[..]) else old(vfLimited[..])[net := fLimited]
      ensures net != NET_UNROUTABLE ==> IsLimited(net) == fLimited && IsReachable(net) == !fLimited
    {
      if net == NET_UNROUTABLE {
        return;
      }
      vfLimited[net] := fLimited;
    }

    /** SeenLocal: a peer saw us at this address; a local address gains a
      point, and the answer says whether it was local. */
    method SeenLocal(addr: Service) returns (r: bool)
      modifies this`mapLocalHost
      ensures r <==> addr.ip in old(mapLocalHost)
      ensures r ==> mapLocalHost == old(mapLocalHost)[addr.ip := old(mapLocalHost)[addr.ip].(nScore := old(mapLocalHost)[addr.ip].nScore + 1)]
      ensures !r ==> mapLocalHost == old(mapLocalHost)
      ensures r ==> GetnScore(addr) == old(GetnScore(addr)) + 1
    {
      if addr.ip !in mapLocalHost {
        return false;
      }
      var info := mapLocalHost[addr.ip];
      mapLocalHost := mapLocalHost[addr.ip := info.(nScore := info.nScore + 1)];
      return true;
    }
  }
}
