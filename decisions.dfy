/** The decisions the socket and connection threads take for one peer or
    one candidate address: which socket events to wait for, when to drop an
    idle connection, which address from the address manager to dial, and
    whether a dial may go ahead. The threads themselves (select(), sleeps,
    semaphores, locking) are not modelled; a TRY_LOCK comes in as whether it
    succeeded, and what the address manager, the clock and the address
    helpers return comes in as parameters. */
module Decisions {
  import opened NetTypes
  import opened BanStore

  // ---------------------------------------------------------------------
  // Readiness: which socket events the socket thread waits for.

  datatype Interest = WaitSend | WaitRecv | WaitNone

  /** With the send lock held and data queued, wait to send; otherwise, with
      the receive lock held, wait to receive when no message is queued, the
      first queued one is still incomplete, or the queued bytes are within
      the flood size; otherwise wait for nothing. */
  function Readiness(lockSend: bool, sendQueueEmpty: bool, lockRecv: bool, recvQueueEmpty: bool,
                     frontComplete: bool, totalRecvSize: nat, floodSize: nat): (r: Interest)
  {
    if lockSend && !sendQueueEmpty then WaitSend
    else if lockRecv && (recvQueueEmpty || !frontComplete || totalRecvSize <= floodSize) then WaitRecv
    else WaitNone
  }

  /** The socket thread never stalls a peer whose locks it holds: when it
      waits for nothing, nothing is queued to send and a complete message
      waits at the head of the receive queue for the message handler, which
      is over its flood size. */
  lemma IdleOnlyWithWorkQueued(lockSend: bool, sendQueueEmpty: bool, lockRecv: bool, recvQueueEmpty: bool,
                               frontComplete: bool, totalRecvSize: nat, floodSize: nat)
    requires lockSend && lockRecv
    ensures Readiness(lockSend, sendQueueEmpty, lockRecv, recvQueueEmpty, frontComplete, totalRecvSize, floodSize) == WaitNone
      <==> sendQueueEmpty && !recvQueueEmpty && frontComplete && totalRecvSize > floodSize
  {
  }

  // ---------------------------------------------------------------------
  // Inactivity: when the socket thread drops an idle connection.

  /** A connection is only checked once it is older than this many seconds. */
  const GRACE_SECONDS: int := 60

  /** The receive timeout for peers at or below BIP0031_VERSION, which do
      not answer pings: ninety minutes. */
  const LEGACY_RECV_TIMEOUT: int := 90 * 60

  datatype Verdict = Keep | NoFirstMessage | SendTimeout | RecvTimeout | PingTimeout

  /** The times the inactivity check reads from a peer. */
  datatype Activity = Activity(nTimeConnected: int, nLastRecv: int, nLastSend: int, nVersion: int,
                               nPingNonceSent: int, nPingUsecStart: int)

  /** The check, at time nTime (seconds) and nTimeMicros (microseconds),
      with TIMEOUT_INTERVAL seconds and the BIP0031_VERSION protocol version:
      once the connection is older than a minute, the first rule that
      applies, in this order, drops it. */
  function Inactivity(p: Activity, nTime: int, nTimeMicros: int, timeoutInterval: int, bip0031Version: int): (r: Verdict)
  {
    if !(nTime - p.nTimeConnected > GRACE_SECONDS) then Keep
    else if p.nLastRecv == 0 || p.nLastSend == 0 then NoFirstMessage
    else if nTime - p.nLastSend > timeoutInterval then SendTimeout
    else if nTime - p.nLastRecv > (if p.nVersion > bip0031Version then timeoutInterval else LEGACY_RECV_TIMEOUT) then RecvTimeout
    else if p.nPingNonceSent != 0 && p.nPingUsecStart + timeoutInterval * 1000000 < nTimeMicros then PingTimeout
    else Keep
  }

  /** A dropped connection stays dropped: if the check drops a peer at
      some time, it drops the same peer at every later time, so waiting
      never rescues a peer that has once timed out. */
  lemma DroppedStaysDropped(p: Activity, nTime: int, nTimeMicros: int, later: int, laterMicros: int,
                            timeoutInterval: int, bip0031Version: int)
    requires nTime <= later && nTimeMicros <= laterMicros
    requires Inactivity(p, nTime, nTimeMicros, timeoutInterval, bip0031Version) != Keep
    ensures Inactivity(p, later, laterMicros, timeoutInterval, bip0031Version) != Keep
  {
  }

  /** A connection is never dropped within its first minute. */
  lemma GraceMinute(p: Activity, nTime: int, nTimeMicros: int, timeoutInterval: int, bip0031Version: int)
    requires nTime <= p.nTimeConnected + GRACE_SECONDS
    ensures Inactivity(p, nTime, nTimeMicros, timeoutInterval, bip0031Version) == Keep
  {
  }

  /** A peer that does not answer pings is allowed the longer legacy
      receive timeout: with a timeout of at most ninety minutes, whatever
      keeps a newer peer keeps a legacy one with the same times. */
  lemma LegacyPeersGetLonger(p: Activity, nTime: int, nTimeMicros: int, timeoutInterval: int, bip0031Version: int)
    requires timeoutInterval <= LEGACY_RECV_TIMEOUT
    requires p.nVersion > bip0031Version
    ensures Inactivity(p, nTime, nTimeMicros, timeoutInterval, bip0031Version) == Keep
        ==> Inactivity(p.(nVersion := bip0031Version), nTime, nTimeMicros, timeoutInterval, bip0031Version) == Keep
  {
  }

  // ---------------------------------------------------------------------
  // Outbound candidates: which address ThreadOpenConnections dials.

  /** The give-up bound on addresses drawn in one round, and the try counts
      after which recently tried addresses and non-default ports are
      accepted. */
  const MAX_TRIES: nat := 100
  const RECENT_TRY_TRIES: nat := 30
  const ODD_PORT_TRIES: nat := 50
  /** An address tried in the last ten minutes counts as recently tried. */
  const RECENT_TRY_SECONDS: int := 600

  /** An address drawn from the address manager, with what the address
      helpers say about it: IsValid, GetGroup, IsLocal, IsLimited, its
      nLastTry and its port. */
  datatype Drawn = Drawn(valid: bool, group: seq<Byte>, local: bool, limited: bool, nLastTry: int, port: int)

  /** An existing connection: whether it is inbound, and its address group. */
  datatype Peer = Peer(fInbound: bool, group: seq<Byte>)

  /** setConnected: the groups of the outbound connections. */
  function OutboundGroups(vNodes: seq<Peer>): (r: set<seq<Byte>>)
    ensures forall g :: g in r <==> exists i | 0 <= i < |vNodes| :: !vNodes[i].fInbound && vNodes[i].group == g
  {
    set i | 0 <= i < |vNodes| && !vNodes[i].fInbound :: vNodes[i].group
  }

  /** The draw stops the round without a dial: the address is invalid,
      shares a group with an outbound connection, or is one of ours. */
  predicate Stops(a: Drawn, setConnected: set<seq<Byte>>)
  {
    !a.valid || a.group in setConnected || a.local
  }

  /** The draw is passed over at try count nTries: its network is limited,
      it was tried recently and fewer than 30 tries were made, or it has a
      non-default port and fewer than 50 tries were made. */
  predicate Skipped(a: Drawn, nTries: nat, nANow: int, defaultPort: int)
  {
    || a.limited
    || (nANow - a.nLastTry < RECENT_TRY_SECONDS && nTries < RECENT_TRY_TRIES)
    || (a.port != defaultPort && nTries < ODD_PORT_TRIES)
  }

  /** The index of the draw the round dials, drawing select(k) at index k,
      from index k on with nTries = k tries counted: None when a draw stops
      the round or more than 100 addresses were tried. */
  function Choose(select: nat -> Drawn, setConnected: set<seq<Byte>>, nANow: int, defaultPort: int, k: nat): Option<nat>
    decreases MAX_TRIES + 1 - k
  {
    if Stops(select(k), setConnected) then None
    else if k + 1 > MAX_TRIES then None
    else if Skipped(select(k), k + 1, nANow, defaultPort) then Choose(select, setConnected, nANow, defaultPort, k + 1)
    else Some(k)
  }

  /** The round dials draw k exactly when k is among the first 100 draws,
      it does not stop the round and is not passed over, and every draw
      before it neither stopped the round nor was accepted. */
  lemma {:induction false} ChooseIff(select: nat -> Drawn, setConnected: set<seq<Byte>>, nANow: int, defaultPort: int,
                                     start: nat, k: nat)
    requires start <= MAX_TRIES
    ensures Choose(select, setConnected, nANow, defaultPort, start) == Some(k)
      <==> && start <= k < MAX_TRIES
           && !Stops(select(k), setConnected) && !Skipped(select(k), k + 1, nANow, defaultPort)
           && forall j | start <= j < k :: !Stops(select(j), setConnected) && Skipped(select(j), j + 1, nANow, defaultPort)
    decreases MAX_TRIES + 1 - start
  {
    var a := select(start);
    if Stops(a, setConnected) || start + 1 > MAX_TRIES {
    } else if Skipped(a, start + 1, nANow, defaultPort) {
      ChooseIff(select, setConnected, nANow, defaultPort, start + 1, k);
      if start == k {
      } else {
        assert (forall j | start <= j < k :: !Stops(select(j), setConnected) && Skipped(select(j), j + 1, nANow, defaultPort))
          <==> (forall j | start + 1 <= j < k :: !Stops(select(j), setConnected) && Skipped(select(j), j + 1, nANow, defaultPort));
      }
    } else {
      if start < k {
        assert !(!Stops(select(start), setConnected) && Skipped(select(start), start + 1, nANow, defaultPort));
      }
    }
  }

  /** The outbound-candidate loop of ThreadOpenConnections: draw addresses
      until one stops the round, more than 100 were tried, or one is
      acceptable, which is then the address to dial. */
  method SelectCandidate(select: nat -> Drawn, setConnected: set<seq<Byte>>, nANow: int, defaultPort: int)
    returns (addrConnect: Option<Drawn>)
    ensures match Choose(select, setConnected, nANow, defaultPort, 0)
      case None => addrConnect == None
      case Some(k) => addrConnect == Some(select(k))
  {
    var nTries: nat := 0;
    while true
      invariant nTries <= MAX_TRIES
      invariant Choose(select, setConnected, nANow, defaultPort, 0) == Choose(select, setConnected, nANow, defaultPort, nTries)
      decreases MAX_TRIES + 1 - nTries
    {
      var addr := select(nTries);

      if !addr.valid || addr.group in setConnected || addr.local {
        return None;
      }

      nTries := nTries + 1;
      if nTries > MAX_TRIES {
        return None;
      }

      if addr.limited {
        continue;
      }
      if nANow - addr.nLastTry < RECENT_TRY_SECONDS && nTries < RECENT_TRY_TRIES {
        continue;
      }
      if addr.port != defaultPort && nTries < ODD_PORT_TRIES {
        continue;
      }

      return Some(addr);
    }
  }

  /** A dialled candidate is valid, not ours, outside every group already
      connected out to, on a network that is not limited, and was among the
      first 100 draws; a recently tried one only from the 30th try and one on
      another port only from the 50th. */
  lemma CandidateIsAcceptable(select: nat -> Drawn, setConnected: set<seq<Byte>>, nANow: int, defaultPort: int, k: nat)
    requires Choose(select, setConnected, nANow, defaultPort, 0) == Some(k)
    ensures var a := select(k);
      && k < MAX_TRIES && a.valid && !a.local && a.group !in setConnected && !a.limited
      && (nANow - a.nLastTry < RECENT_TRY_SECONDS ==> k + 1 >= RECENT_TRY_TRIES)
      && (a.port != defaultPort ==> k + 1 >= ODD_PORT_TRIES)
  {
    ChooseIff(select, setConnected, nANow, defaultPort, 0, k);
  }

  // ---------------------------------------------------------------------
  // The dial check at the start of OpenNetworkConnection.

  /** What the pre-dial check asks about the target: IsLocal, FindNode by
      address, IsBanned, FindNode by "ip:port", and, for a named target,
      FindNode by name. */
  datatype Target = Target(local: bool, connectedToAddr: bool, banned: bool, connectedToIpPort: bool, connectedToName: bool)

  /** The dial goes ahead: without a destination name, unless the address
      is ours, already connected or banned; with a name, unless a node by
      that name is connected. */
  predicate MayDial(hasDest: bool, t: Target)
  {
    if !hasDest then !(t.local || t.connectedToAddr || t.banned || t.connectedToIpPort)
    else !t.connectedToName
  }

  /** A ban stops dials at once: after Ban of a subnet for a time beyond
      now, the pre-dial check of an unnamed dial to any address the subnet
      matches, which asks IsBanned, refuses it. */
  lemma BannedAddressIsNotDialled(m: map<SubNet, BanEntry>, subNet: SubNet, banReason: BanReason,
                                  bantimeoffset: int, sinceUnixEpoch: bool, now: int, defaultBantime: int,
                                  ip: seq<Byte>, matches: (SubNet, seq<Byte>) -> bool, t: Target)
    requires now < BanUntil(bantimeoffset, sinceUnixEpoch, now, defaultBantime)
    requires matches(subNet, ip)
    requires t.banned == BannedAt(AfterBan(m, subNet, banReason, bantimeoffset, sinceUnixEpoch, now, defaultBantime),
                                  ip, now, matches)
    ensures !MayDial(false, t)
  {
    BanTakesEffect(m, subNet, banReason, bantimeoffset, sinceUnixEpoch, now, defaultBantime, ip, matches);
  }

  /** A candidate the outbound loop picks passes the locality part of the
      dial check: it is never one of the node's own addresses. */
  lemma CandidateNotRefusedAsLocal(select: nat -> Drawn, setConnected: set<seq<Byte>>, nANow: int, defaultPort: int,
                                   k: nat, t: Target)
    requires Choose(select, setConnected, nANow, defaultPort, 0) == Some(k)
    requires t.local == select(k).local && !t.connectedToAddr && !t.banned && !t.connectedToIpPort
    ensures MayDial(false, t)
  {
    CandidateIsAcceptable(select, setConnected, nANow, defaultPort, k);
  }
}
