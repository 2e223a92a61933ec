/** The ban list (CNode::setBanned and setBannedIsDirty): subnets mapped to
    ban entries, and a flag recording that the list changed since it was
    last written to disk. CSubNet::Match is a parameter. */
module BanStore {
  import opened NetTypes

  /** A CSubNet: a network address and its mask. */
  datatype SubNet = SubNet(network: seq<Byte>, netmask: seq<Byte>, valid: bool)

  datatype BanReason = BanReasonUnknown | BanReasonNodeMisbehaving | BanReasonManuallyAdded

  /** A CBanEntry. */
  datatype BanEntry = BanEntry(nCreateTime: int, nBanUntil: int, banReason: BanReason)

  /** The entry std::map::operator[] inserts for a subnet not yet banned:
      CBanEntry's default constructor, with every time 0. */
  const NULL_ENTRY: BanEntry := BanEntry(0, 0, BanReasonUnknown)

  /** The address ip is banned at time now: some entry whose subnet
      matches it lasts beyond now. */
  ghost predicate BannedAt(m: map<SubNet, BanEntry>, ip: seq<Byte>, now: int, matches: (SubNet, seq<Byte>) -> bool)
  {
    exists s | s in m :: matches(s, ip) && now < m[s].nBanUntil
  }

  /** The list SweepBanned leaves: the entries that have not run out, where
      an entry has run out once now is past its nBanUntil. */
  ghost function Swept(m: map<SubNet, BanEntry>, now: int): map<SubNet, BanEntry>
  {
    map s | s in m && !(now > m[s].nBanUntil) :: m[s]
  }

  /** The nBanUntil Ban computes: an offset of zero or less means the
      default ban time from now; otherwise the offset counts from now, or
      from the Unix epoch when sinceUnixEpoch is set. */
  function BanUntil(bantimeoffset: int, sinceUnixEpoch: bool, now: int, defaultBantime: int): (r: int)
    ensures bantimeoffset <= 0 ==> r == now + defaultBantime
    ensures bantimeoffset > 0 && sinceUnixEpoch ==> r == bantimeoffset
    ensures bantimeoffset > 0 && !sinceUnixEpoch ==> r == now + bantimeoffset
  {
    var offset := if bantimeoffset <= 0 then defaultBantime else bantimeoffset;
    var since := if bantimeoffset <= 0 then false else sinceUnixEpoch;
    (if since then 0 else now) + offset
  }

  /** The list after Ban: the subnet's entry (operator[] inserts NULL_ENTRY
      when it has none) is replaced by a new entry created now when that
      lasts longer. */
  function AfterBan(m: map<SubNet, BanEntry>, subNet: SubNet, banReason: BanReason, bantimeoffset: int,
                    sinceUnixEpoch: bool, now: int, defaultBantime: int): map<SubNet, BanEntry>
  {
    var until := BanUntil(bantimeoffset, sinceUnixEpoch, now, defaultBantime);
    var prior := if subNet in m then m[subNet] else NULL_ENTRY;
    m[subNet := if prior.nBanUntil < until then BanEntry(now, until, banReason) else prior]
  }

  /** Ban never shortens a ban: afterwards the subnet has an entry lasting
      until the later of its old end (0 when it had none) and the new one;
      every other entry is left as it was. */
  lemma BanNeverShortens(m: map<SubNet, BanEntry>, subNet: SubNet, banReason: BanReason, bantimeoffset: int,
                         sinceUnixEpoch: bool, now: int, defaultBantime: int)
    ensures var r := AfterBan(m, subNet, banReason, bantimeoffset, sinceUnixEpoch, now, defaultBantime);
      var until := BanUntil(bantimeoffset, sinceUnixEpoch, now, defaultBantime);
      var priorUntil := if subNet in m then m[subNet].nBanUntil else 0;
      && r.Keys == m.Keys + {subNet}
      && r[subNet].nBanUntil == (if priorUntil < until then until else priorUntil)
      && (forall s | s in m && s != subNet :: r[s] == m[s])
  {
  }

  /** A ban whose end lies beyond now takes effect at once: the subnet is
      banned, and so is every address it matches. */
  lemma BanTakesEffect(m: map<SubNet, BanEntry>, subNet: SubNet, banReason: BanReason, bantimeoffset: int,
                       sinceUnixEpoch: bool, now: int, defaultBantime: int,
                       ip: seq<Byte>, matches: (SubNet, seq<Byte>) -> bool)
    requires now < BanUntil(bantimeoffset, sinceUnixEpoch, now, defaultBantime)
    requires matches(subNet, ip)
    ensures var r := AfterBan(m, subNet, banReason, bantimeoffset, sinceUnixEpoch, now, defaultBantime);
      now < r[subNet].nBanUntil && BannedAt(r, ip, now, matches)
  {
    var r := AfterBan(m, subNet, banReason, bantimeoffset, sinceUnixEpoch, now, defaultBantime);
    assert subNet in r;
  }

  /** Sweeping keeps every ban in force at the same time: an address is
      banned after SweepBanned(now) exactly when it was banned before. */
  lemma SweepKeepsBans(m: map<SubNet, BanEntry>, ip: seq<Byte>, now: int, matches: (SubNet, seq<Byte>) -> bool)
    ensures BannedAt(Swept(m, now), ip, now, matches) <==> BannedAt(m, ip, now, matches)
  {
    if BannedAt(m, ip, now, matches) {
      var s :| s in m && matches(s, ip) && now < m[s].nBanUntil;
      assert s in Swept(m, now);
    }
  }

  /** IsBanned tests now < nBanUntil while SweepBanned erases only entries
      with now > nBanUntil: an entry that ends exactly at now bans nothing
      but is kept by the sweep. */
  lemma EntryEndingNowIsKeptButInert(m: map<SubNet, BanEntry>, s: SubNet, now: int,
                                     matches: (SubNet, seq<Byte>) -> bool, ip: seq<Byte>)
    requires s in m && m[s].nBanUntil == now
    requires forall t | t in m && t != s :: !matches(t, ip)
    ensures s in Swept(m, now)
    ensures !BannedAt(m, ip, now, matches)
  {
  }

  /** A subnet banned in its own right bans every address it matches. */
  lemma SubNetBanCoversMatches(m: map<SubNet, BanEntry>, subnet: SubNet, ip: seq<Byte>, now: int,
                               matches: (SubNet, seq<Byte>) -> bool)
    requires subnet in m && now < m[subnet].nBanUntil && matches(subnet, ip)
    ensures BannedAt(m, ip, now, matches)
  {
  }

  class BanList {
    var setBanned: map<SubNet, BanEntry>
    var setBannedIsDirty: bool

    constructor ()
      ensures setBanned == map[] && !setBannedIsDirty
    {
      setBanned := map[];
      setBannedIsDirty := false;
    }

    method ClearBanned()
      modifies this
      ensures setBanned == map[] && setBannedIsDirty
    {
      setBanned := map[];
      setBannedIsDirty := true;
    }

    /** IsBanned(CNetAddr): a walk over every entry, true when one matches
      ip and lasts beyond now. */
    method IsBanned(ip: seq<Byte>, now: int, matches: (SubNet, seq<Byte>) -> bool) returns (fResult: bool)
      ensures fResult <==> BannedAt(setBanned, ip, now, matches)
    {
      fResult := false;
      var rest := setBanned.Keys;
      while rest != {}
        invariant rest <= setBanned.Keys
        invariant fResult <==> exists s | s in setBanned.Keys - rest :: matches(s, ip) && now < setBanned[s].nBanUntil
        decreases |rest|
      {
        var subNet :| subNet in rest;
        var banEntry := setBanned[subNet];
        if matches(subNet, ip) && now < banEntry.nBanUntil {
          fResult := true;
        }
        rest := rest - {subNet};
      }
    }

    /** IsBanned(CSubNet): the entry for exactly this subnet lasts beyond
      now. */
    method IsSubNetBanned(subnet: SubNet, now: int) returns (fResult: bool)
      ensures fResult <==> subnet in setBanned && now < setBanned[subnet].nBanUntil
    {
      fResult := false;
      if subnet in setBanned {
        var banEntry := setBanned[subnet];
        if now < banEntry.nBanUntil {
          fResult := true;
        }
      }
    }

    /** Ban(CSubNet): the subnet's entry is replaced by a new one only when
      that lasts longer, so a ban is never shortened; the subnet always has
      an entry afterwards, and the list is marked dirty. */
    method Ban(subNet: SubNet, banReason: BanReason, bantimeoffset: int, sinceUnixEpoch: bool,
               now: int, defaultBantime: int)
      modifies this
      ensures setBanned == AfterBan(old(setBanned), subNet, banReason, bantimeoffset, sinceUnixEpoch, now, defaultBantime)
      ensures setBannedIsDirty
    {
      var banEntry := BanEntry(now, 0, banReason);
      var offset := bantimeoffset;
      var since := sinceUnixEpoch;
      if offset <= 0 {
        offset := defaultBantime;
        since := false;
      }
      banEntry := banEntry.(nBanUntil := (if since then 0 else now) + offset);

      if subNet !in setBanned {
        setBanned := setBanned[subNet := NULL_ENTRY];
      }
      if setBanned[subNet].nBanUntil < banEntry.nBanUntil {
        setBanned := setBanned[subNet := banEntry];
      }
      setBannedIsDirty := true;
    }

    /** Unban(CSubNet): erase the subnet's entry; true, and the list marked
      dirty, exactly when there was one. */
    method Unban(subNet: SubNet) returns (r: bool)
      modifies this
      ensures r <==> subNet in old(setBanned)
      ensures setBanned == old(setBanned) - {subNet}
      ensures setBannedIsDirty == (old(setBannedIsDirty) || r)
    {
      if subNet in setBanned {
        setBanned := setBanned - {subNet};
        setBannedIsDirty := true;
        return true;
      }
      return false;
    }

    method GetBanned() returns (banMap: map<SubNet, BanEntry>)
      ensures banMap == setBanned
    {
      banMap := setBanned;
    }

    method SetBanned(banMap: map<SubNet, BanEntry>)
      modifies this
      ensures setBanned == banMap && setBannedIsDirty
    {
      setBanned := banMap;
      setBannedIsDirty := true;
    }

    /** SweepBanned: erase every entry whose ban time now is past; the list
      is marked dirty when one was erased. */
    method SweepBanned(now: int)
      modifies this
      ensures setBanned == Swept(old(setBanned), now)
      ensures setBannedIsDirty == (old(setBannedIsDirty) || Swept(old(setBanned), now) != old(setBanned))
    {
      ghost var orig := setBanned;
      var rest := setBanned.Keys;
      while rest != {}
        invariant rest <= orig.Keys
        invariant setBanned == map s | s in orig && (s in rest || !(now > orig[s].nBanUntil)) :: orig[s]
        invariant setBannedIsDirty == (old(setBannedIsDirty) || exists s | s in orig.Keys - rest :: now > orig[s].nBanUntil)
        decreases |rest|
      {
        var subNet :| subNet in rest;
        var banEntry := setBanned[subNet];
        if now > banEntry.nBanUntil {
          setBanned := setBanned - {subNet};
          setBannedIsDirty := true;
        }
        rest := rest - {subNet};
      }
      if Swept(orig, now) != orig {
        var s :| s in orig && s !in Swept(orig, now);
        assert now > orig[s].nBanUntil;
      } else {
        forall s | s in orig
          ensures !(now > orig[s].nBanUntil)
        {
          assert s in Swept(orig, now);
        }
      }
    }

    method BannedSetIsDirty() returns (dirty: bool)
      ensures dirty == setBannedIsDirty
    {
      dirty := setBannedIsDirty;
    }

    method SetBannedSetDirty(dirty: bool)
      modifies this
      ensures setBannedIsDirty == dirty && setBanned == old(setBanned)
    {
      setBannedIsDirty := dirty;
    }
  }
}
