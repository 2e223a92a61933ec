/** The send side of a connection: CNode::EndMessage frames the message built
    in ssSend and appends it to the vSendMsg queue, and SocketSendData writes
    the queue to the socket, front block first, for as long as the socket
    takes whole blocks. */
module SendQueue {
  import opened NetTypes
  import opened Wire
  import opened Quota

  /** The errno values a non-blocking send() may report. The first four are
      transient: the connection is kept and the send retried later. */
  datatype SocketError = WouldBlock | MsgSize | Interrupted | InProgress | OtherError(code: int)

  predicate Transient(e: SocketError)
  {
    e.WouldBlock? || e.MsgSize? || e.Interrupted? || e.InProgress?
  }

  /** What one send() call does: the socket takes up to `room` bytes of what
      it is offered (taking none makes send() return 0), or the call fails. */
  datatype SendOutcome = Accepted(room: nat) | Failed(err: SocketError)

  function Min(a: int, b: int): int { if a < b then a else b }

  /** All the bytes of the queued blocks, in queue order. */
  function Flatten(q: seq<seq<Byte>>): seq<Byte>
  {
    if q == [] then [] else q[0] + Flatten(q[1..])
  }

  /** The sum of the block sizes, which nSendSize tracks. */
  function TotalSize(q: seq<seq<Byte>>): nat
  {
    if q == [] then 0 else |q[0]| + TotalSize(q[1..])
  }

  /** The bytes still to go out: the queue with the first `offset` bytes of
      its front block already sent. */
  function PendingOf(q: seq<seq<Byte>>, offset: nat): seq<Byte>
  {
    if q == [] then [] else (if offset <= |q[0]| then q[0][offset..] else []) + Flatten(q[1..])
  }

  predicate NonEmptyBlocks(q: seq<seq<Byte>>)
  {
    forall i | 0 <= i < |q| :: |q[i]| > 0
  }

  /** The state SocketSendData leaves: the number of blocks fully sent, the
      offset into the first block not fully sent, the bytes sent, and whether
      a send failed with an error that is not transient. */
  datatype Round = Round(done: nat, offset: nat, sent: nat, hardError: bool)

  /** The send() calls SocketSendData makes on queue q, with `offset` bytes of
      the front block already sent; send(k) is the outcome of the call made
      for the block at index k of the whole queue. A block fully taken moves
      on to the next one; a partial send, a send of nothing or an error ends
      the round. */
  function SendFrom(q: seq<seq<Byte>>, offset: nat, send: nat -> SendOutcome, k: nat): (r: Round)
    requires NonEmptyBlocks(q)
    requires if q != [] then offset < |q[0]| else offset == 0
    ensures r.done <= |q|
    ensures if r.done < |q| then r.offset < |q[r.done]| else r.offset == 0
    ensures r.hardError ==> r.done < |q|
    ensures offset + r.sent <= TotalSize(q)
  {
    if q == [] then Round(0, 0, 0, false)
    else
      match send(k)
      case Failed(err) => Round(0, offset, 0, !Transient(err))
      case Accepted(room) =>
        var nBytes := Min(room, |q[0]| - offset);
        if nBytes == 0 then Round(0, offset, 0, false)
        else if offset + nBytes == |q[0]| then
          var rest := SendFrom(q[1..], 0, send, k + 1);
          Round(rest.done + 1, rest.offset, rest.sent + nBytes, rest.hardError)
        else Round(0, offset + nBytes, nBytes, false)
  }

  lemma {:induction false} FlattenSize(q: seq<seq<Byte>>)
    ensures |Flatten(q)| == TotalSize(q)
  {
    if q != [] {
      FlattenSize(q[1..]);
    }
  }

  lemma {:induction false} TotalSizeAppend(q: seq<seq<Byte>>, b: seq<Byte>)
    ensures TotalSize(q + [b]) == TotalSize(q) + |b|
  {
    if q != [] {
      assert (q + [b])[1..] == q[1..] + [b];
      TotalSizeAppend(q[1..], b);
    }
  }

  lemma {:induction false} FlattenAppend(q: seq<seq<Byte>>, b: seq<Byte>)
    ensures Flatten(q + [b]) == Flatten(q) + b
  {
    if q == [] {
      assert |[b][1..]| == 0;
    } else {
      assert (q + [b])[1..] == q[1..] + [b];
      FlattenAppend(q[1..], b);
    }
  }

  /** A block appended to the queue goes out after everything already pending. */
  lemma PendingAppend(q: seq<seq<Byte>>, offset: nat, b: seq<Byte>)
    requires q != []
    ensures PendingOf(q + [b], offset) == PendingOf(q, offset) + b
  {
    assert (q + [b])[1..] == q[1..] + [b];
    FlattenAppend(q[1..], b);
  }

  lemma PendingFromStart(q: seq<seq<Byte>>)
    ensures PendingOf(q, 0) == Flatten(q)
  {
  }

  /** SocketSendData sends bytes strictly in queue order: what is pending
      afterwards is what was pending before with the sent bytes removed from
      its front. */
  lemma {:induction false} SendFromPending(q: seq<seq<Byte>>, offset: nat, send: nat -> SendOutcome, k: nat)
    requires NonEmptyBlocks(q)
    requires if q != [] then offset < |q[0]| else offset == 0
    ensures var r := SendFrom(q, offset, send, k);
      && r.sent <= |PendingOf(q, offset)|
      && PendingOf(q[r.done..], r.offset) == PendingOf(q, offset)[r.sent..]
  {
    if q != [] && send(k).Accepted? {
      var nBytes := Min(send(k).room, |q[0]| - offset);
      if nBytes > 0 && offset + nBytes == |q[0]| {
        var r := SendFrom(q, offset, send, k);
        var rest := SendFrom(q[1..], 0, send, k + 1);
        assert r == Round(rest.done + 1, rest.offset, rest.sent + nBytes, rest.hardError);
        SendFromPending(q[1..], 0, send, k + 1);
        PendingPastBlock(q, offset, rest.done, rest.offset, rest.sent);
      } else {
        SendFromPendingWithinBlock(q, offset, send, k);
      }
    } else if q != [] {
      SendFromPendingWithinBlock(q, offset, send, k);
    }
  }

  /** The cases of SendFromPending where the round stops inside the front
      block: a failed send(), nothing taken, or part of the block taken. */
  lemma SendFromPendingWithinBlock(q: seq<seq<Byte>>, offset: nat, send: nat -> SendOutcome, k: nat)
    requires NonEmptyBlocks(q) && q != [] && offset < |q[0]|
    requires send(k).Accepted? ==> offset + Min(send(k).room, |q[0]| - offset) < |q[0]|
    ensures var r := SendFrom(q, offset, send, k);
      && r.sent <= |PendingOf(q, offset)|
      && PendingOf(q[r.done..], r.offset) == PendingOf(q, offset)[r.sent..]
  {
    var r := SendFrom(q, offset, send, k);
    var p := PendingOf(q, offset);
    assert q[0..] == q;
    if send(k).Accepted? && Min(send(k).room, |q[0]| - offset) > 0 {
      var nBytes := Min(send(k).room, |q[0]| - offset);
      assert r == Round(0, offset + nBytes, nBytes, false);
      PendingAdvance(q, offset, nBytes);
    } else {
      assert r.done == 0 && r.offset == offset && r.sent == 0;
      assert p[0..] == p;
    }
  }

  /** Finishing the front block and then sending `sent` bytes of the rest
      of the queue takes those bytes off what was pending. */
  lemma PendingPastBlock(q: seq<seq<Byte>>, offset: nat, done: nat, restOffset: nat, sent: nat)
    requires q != [] && offset <= |q[0]| && done <= |q| - 1
    requires sent <= |PendingOf(q[1..], 0)|
    requires PendingOf(q[1..][done..], restOffset) == PendingOf(q[1..], 0)[sent..]
    ensures |q[0]| - offset + sent <= |PendingOf(q, offset)|
    ensures PendingOf(q[done + 1..], restOffset) == PendingOf(q, offset)[|q[0]| - offset + sent..]
  {
    var p := PendingOf(q, offset);
    var n := |q[0]| - offset;
    PendingFromStart(q[1..]);
    PendingSkipBlock(q, offset);
    assert p[n + sent..] == p[n..][sent..];
    assert q[done + 1..] == q[1..][done..];
  }

  /** Sending n more bytes of the front block, without finishing it. */
  lemma PendingAdvance(q: seq<seq<Byte>>, offset: nat, n: nat)
    requires q != [] && offset + n <= |q[0]|
    ensures |PendingOf(q, offset)| >= n
    ensures PendingOf(q, offset + n) == PendingOf(q, offset)[n..]
  {
    var head := q[0][offset..];
    assert q[0][offset + n..] == head[n..];
    assert (head + Flatten(q[1..]))[n..] == head[n..] + Flatten(q[1..]);
  }

  /** Past the rest of the front block, what is pending is the rest of the queue. */
  lemma PendingSkipBlock(q: seq<seq<Byte>>, offset: nat)
    requires q != [] && offset <= |q[0]|
    ensures |PendingOf(q, offset)| >= |q[0]| - offset
    ensures PendingOf(q, offset)[|q[0]| - offset..] == Flatten(q[1..])
  {
    var head := q[0][offset..];
    assert (head + Flatten(q[1..]))[|head|..] == Flatten(q[1..]);
  }

  /** A round sends everything that was pending exactly when it empties the
      queue. */
  lemma SendFromDrains(q: seq<seq<Byte>>, offset: nat, send: nat -> SendOutcome, k: nat)
    requires NonEmptyBlocks(q)
    requires if q != [] then offset < |q[0]| else offset == 0
    ensures var r := SendFrom(q, offset, send, k);
      r.done == |q| <==> r.sent == |PendingOf(q, offset)|
  {
    var r := SendFrom(q, offset, send, k);
    SendFromPending(q, offset, send, k);
    if r.done < |q| {
      assert q[r.done..][0] == q[r.done];
    }
  }

  lemma Mod64Step(x: nat, n: nat)
    ensures Add64(Wrap64(x), Wrap64(n)) == Wrap64(x + n)
  {
    var k := x / TWO_TO_THE_64;
    var l := n / TWO_TO_THE_64;
    assert x % TWO_TO_THE_64 == x - k * TWO_TO_THE_64;
    assert n % TWO_TO_THE_64 == n - l * TWO_TO_THE_64;
    ModShift(x + n, k + l);
  }

  /** The node-wide counters after the bytes of one SocketSendData round have
      been recorded at time now, one send() at a time. */
  ghost predicate RecordedSince(quota: OutboundQuota, total: U64, start: U64, inCycle: U64, sent: nat, now: U64)
    reads quota
  {
    && quota.nTotalBytesSent == Wrap64(total + sent)
    && (sent == 0 ==> quota.nMaxOutboundCycleStartTime == start && quota.nMaxOutboundTotalBytesSentInCycle == inCycle)
    && (sent > 0 && now + quota.nMaxOutboundTimeframe < TWO_TO_THE_64 ==>
          && quota.nMaxOutboundCycleStartTime == CycleStartAfter(start, quota.nMaxOutboundTimeframe, now)
          && quota.nMaxOutboundTotalBytesSentInCycle
             == CycleSentAfter(start, quota.nMaxOutboundTimeframe, inCycle, Wrap64(sent), now))
  }

  /** The state a SocketSendData round starts from, and the round SendFrom
      predicts for it. */
  datatype RoundStart = RoundStart(queue: seq<seq<Byte>>, r0: Round, sendBytes: U64, lastSend: int,
                                   disconnect: bool, total: U64, start: U64, inCycle: U64,
                                   recv: U64, limit: U64, timeframe: U64)

  /** The send-side state of a CNode. */
  class SendBuffer {
    var vSendMsg: seq<seq<Byte>>
    var nSendOffset: nat
    var nSendSize: int
    var nSendBytes: U64
    var nLastSend: int
    var fDisconnect: bool

    /** nSendSize is the total size of the queued blocks, no block is empty,
        and the offset points inside the front block (0 when nothing is
        queued). */
    ghost predicate Valid()
      reads this
    {
      && NonEmptyBlocks(vSendMsg)
      && nSendSize == TotalSize(vSendMsg)
      && (if vSendMsg == [] then nSendOffset == 0 else nSendOffset < |vSendMsg[0]|)
    }

    /** The bytes queued and not yet sent. */
    function Pending(): seq<Byte>
      reads this`vSendMsg, this`nSendOffset
    {
      PendingOf(vSendMsg, nSendOffset)
    }

    /** The send fields as the CNode constructor sets them. */
    constructor ()
      ensures Valid() && vSendMsg == [] && nSendOffset == 0 && nSendSize == 0
      ensures nSendBytes == 0 && nLastSend == 0 && !fDisconnect
    {
      vSendMsg := [];
      nSendOffset := 0;
      nSendSize := 0;
      nSendBytes := 0;
      nLastSend := 0;
      fDisconnect := false;
    }

    /** SocketSendData: one round of send() calls at time now, as SendFrom
        describes it; the fully sent blocks are erased from the front of the
        queue and every byte sent is counted. */
    method SocketSendData(send: nat -> SendOutcome, now: U64, quota: OutboundQuota)
      requires Valid()
      modifies this, quota
      ensures Valid()
      ensures var r := SendFrom(old(vSendMsg), old(nSendOffset), send, 0);
        && vSendMsg == old(vSendMsg)[r.done..]
        && nSendOffset == r.offset
        && nSendBytes == Wrap64(old(nSendBytes) + r.sent)
        && nLastSend == (if r.sent > 0 then now else old(nLastSend))
        && fDisconnect == (old(fDisconnect) || r.hardError)
        && RecordedSince(quota, old(quota.nTotalBytesSent), old(quota.nMaxOutboundCycleStartTime),
                         old(quota.nMaxOutboundTotalBytesSentInCycle), r.sent, now)
      ensures quota.nTotalBytesRecv == old(quota.nTotalBytesRecv) && quota.nMaxOutboundLimit == old(quota.nMaxOutboundLimit)
      ensures quota.nMaxOutboundTimeframe == old(quota.nMaxOutboundTimeframe)
    {
      ghost var b := RoundStart(vSendMsg, SendFrom(vSendMsg, nSendOffset, send, 0), nSendBytes, nLastSend,
                                fDisconnect, quota.nTotalBytesSent, quota.nMaxOutboundCycleStartTime,
                                quota.nMaxOutboundTotalBytesSentInCycle, quota.nTotalBytesRecv,
                                quota.nMaxOutboundLimit, quota.nMaxOutboundTimeframe);
      var done := SendRound(b, send, now, quota);
      vSendMsg := vSendMsg[done..];
    }

    /** The loop of SocketSendData, from the state b: send() the blocks in
        turn until one is not taken whole. It leaves the queue itself alone
        and stops where SendFrom says the round ends. */
    method SendRound(ghost b: RoundStart, send: nat -> SendOutcome, now: U64, quota: OutboundQuota)
      returns (done: nat)
      requires Valid() && StartsFrom(b, send, quota)
      modifies this`nSendOffset, this`nSendSize, this`fDisconnect, this`nLastSend, this`nSendBytes, quota
      ensures done == b.r0.done <= |b.queue| && nSendOffset == b.r0.offset && vSendMsg == b.queue
      ensures nSendSize == TotalSize(b.queue[done..]) && NonEmptyBlocks(b.queue[done..])
      ensures Counted(quota, b.sendBytes, b.lastSend, b.total, b.start, b.inCycle, b.r0.sent, now)
      ensures fDisconnect == (b.disconnect || b.r0.hardError)
      ensures quota.nTotalBytesRecv == b.recv && quota.nMaxOutboundLimit == b.limit
      ensures quota.nMaxOutboundTimeframe == b.timeframe
    {
      ghost var sentSoFar: nat := 0;
      ghost var hardError := false;
      var it := 0;
      assert b.queue[0..] == b.queue;
      var stop := false;
      while !stop && it < |vSendMsg|
        invariant InRound(b, send, now, quota, it, stop, hardError, sentSoFar)
        decreases |b.queue| - it, if stop then 0 else 1
      {
        it, stop, sentSoFar, hardError := SendFront(b, send, now, quota, it, sentSoFar);
      }
      assert b.r0 == Round(it, nSendOffset, sentSoFar, hardError);
      done := it;
    }

    /** b records the current state and the round SendFrom predicts for it. */
    ghost predicate StartsFrom(b: RoundStart, send: nat -> SendOutcome, quota: OutboundQuota)
      reads this, quota
      requires Valid()
    {
      && b.queue == vSendMsg && b.r0 == SendFrom(vSendMsg, nSendOffset, send, 0)
      && b.sendBytes == nSendBytes && b.lastSend == nLastSend && b.disconnect == fDisconnect
      && b.total == quota.nTotalBytesSent && b.start == quota.nMaxOutboundCycleStartTime
      && b.inCycle == quota.nMaxOutboundTotalBytesSentInCycle && b.recv == quota.nTotalBytesRecv
      && b.limit == quota.nMaxOutboundLimit && b.timeframe == quota.nMaxOutboundTimeframe
    }

    /** One turn of the loop in SocketSendData: one send() of what is left of
        block it. A block sent in full moves the round on to the next one; a
        partial send, a send of nothing or an error (fatal or not) stops it. */
    method SendFront(ghost b: RoundStart, send: nat -> SendOutcome, now: U64, quota: OutboundQuota,
                     it: nat, ghost sentSoFar: nat)
      returns (it': nat, stop: bool, ghost sentSoFar': nat, ghost hardError: bool)
      requires InRound(b, send, now, quota, it, false, false, sentSoFar) && it < |vSendMsg|
      modifies this`nSendOffset, this`nSendSize, this`fDisconnect, this`nLastSend, this`nSendBytes, quota
      ensures InRound(b, send, now, quota, it', stop, hardError, sentSoFar')
      ensures it' == it + 1 || (it' == it && stop)
    {
      var data := vSendMsg[it];
      assert b.queue[it..][0] == data;
      var nBytes := match send(it)
        case Accepted(room) => Min(room, |data| - nSendOffset)
        case Failed(_) => -1;
      if nBytes > 0 {
        it', stop, sentSoFar' := Advance(b, send, now, quota, it, sentSoFar, nBytes);
        hardError := false;
      } else {
        hardError := nBytes < 0 && !Transient(send(it).err);
        if nBytes < 0 && !Transient(send(it).err) {
          fDisconnect := true;
        }
        it', stop, sentSoFar' := it, true, sentSoFar;
      }
    }

    /** The part of SendFront after send() took nBytes > 0 bytes of block it:
        move the offset (to the next block when this one is done) and count
        the bytes. */
    method Advance(ghost b: RoundStart, send: nat -> SendOutcome, now: U64, quota: OutboundQuota,
                   it: nat, ghost sentSoFar: nat, nBytes: int)
      returns (it': nat, stop: bool, ghost sentSoFar': nat)
      requires QueueAt(b, send, it, false, false, sentSoFar) && it < |vSendMsg|
      requires Counted(quota, b.sendBytes, b.lastSend, b.total, b.start, b.inCycle, sentSoFar, now)
      requires send(it).Accepted? && nBytes == Min(send(it).room, |vSendMsg[it]| - nSendOffset) && nBytes > 0
      modifies this`nSendOffset, this`nSendSize, this`nLastSend, this`nSendBytes, quota
      ensures QueueAt(b, send, it', stop, false, sentSoFar')
      ensures Counted(quota, b.sendBytes, b.lastSend, b.total, b.start, b.inCycle, sentSoFar', now)
      ensures quota.nTotalBytesRecv == old(quota.nTotalBytesRecv) && quota.nMaxOutboundLimit == old(quota.nMaxOutboundLimit)
      ensures quota.nMaxOutboundTimeframe == old(quota.nMaxOutboundTimeframe)
      ensures it' == it + 1 || (it' == it && stop)
    {
      sentSoFar' := sentSoFar + nBytes;
      it', stop := MoveOffset(b, send, it, sentSoFar, nBytes, sentSoFar');
      CountSent(nBytes, now, quota, b.sendBytes, b.lastSend, b.total, b.start, b.inCycle, sentSoFar, sentSoFar');
    }

    /** The queue side of Advance: a block sent in full is passed over and its
        size leaves nSendSize; otherwise the offset moves into the block and
        the round stops. */
    method MoveOffset(ghost b: RoundStart, send: nat -> SendOutcome, it: nat, ghost sentSoFar: nat, nBytes: int,
                      ghost sentAfter: nat)
      returns (it': nat, stop: bool)
      requires QueueAt(b, send, it, false, false, sentSoFar) && it < |vSendMsg|
      requires send(it).Accepted? && nBytes == Min(send(it).room, |vSendMsg[it]| - nSendOffset) && nBytes > 0
      requires sentAfter == sentSoFar + nBytes
      modifies this`nSendOffset, this`nSendSize
      ensures QueueAt(b, send, it', stop, false, sentAfter)
      ensures it' == it + 1 || (it' == it && stop)
    {
      var data := vSendMsg[it];
      ghost var rest := b.queue[it..];
      assert rest[0] == data && rest[1..] == b.queue[it + 1..];
      ghost var step := SendFrom(rest, nSendOffset, send, it);
      if nSendOffset + nBytes == |data| {
        nSendOffset := 0;
        nSendSize := nSendSize - |data|;
        assert TotalSize(rest) == |data| + TotalSize(b.queue[it + 1..]);
        ghost var after := SendFrom(b.queue[it + 1..], 0, send, it + 1);
        assert step == Round(after.done + 1, after.offset, after.sent + nBytes, after.hardError);
        it', stop := it + 1, false;
      } else {
        // could not send the whole block: stop sending more
        nSendOffset := nSendOffset + nBytes;
        it', stop := it, true;
      }
    }

    /** Everything SocketSendData keeps true while it walks the queue from
        the state b: the queue side (QueueAt), the counters holding the bytes
        sent so far, and the disconnect flag set only by a fatal error. */
    ghost predicate InRound(b: RoundStart, send: nat -> SendOutcome, now: U64, quota: OutboundQuota,
                            it: nat, stop: bool, hardError: bool, sentSoFar: nat)
      reads this`vSendMsg, this`nSendOffset, this`nSendSize, this`nSendBytes, this`nLastSend, this`fDisconnect, quota
    {
      && QueueAt(b, send, it, stop, hardError, sentSoFar)
      && Counted(quota, b.sendBytes, b.lastSend, b.total, b.start, b.inCycle, sentSoFar, now)
      && fDisconnect == (b.disconnect || hardError)
      && quota.nTotalBytesRecv == b.recv && quota.nMaxOutboundLimit == b.limit
      && quota.nMaxOutboundTimeframe == b.timeframe
    }

    /** The queue side of a round in progress: block `it` is next (or the
        round has stopped there), nSendSize counts the blocks from `it` on, and
        the round so far and SendFrom from here add up to SendFrom from the
        start. */
    ghost predicate QueueAt(b: RoundStart, send: nat -> SendOutcome, it: nat, stop: bool, hardError: bool, sentSoFar: nat)
      reads this`vSendMsg, this`nSendOffset, this`nSendSize
    {
      && vSendMsg == b.queue && it <= |b.queue| && NonEmptyBlocks(b.queue[it..])
      && (if it < |b.queue| then nSendOffset < |b.queue[it]| else nSendOffset == 0)
      && nSendSize == TotalSize(b.queue[it..])
      && (!stop ==> !hardError)
      && (!stop ==>
            var r := SendFrom(b.queue[it..], nSendOffset, send, it);
            b.r0 == Round(r.done + it, r.offset, r.sent + sentSoFar, r.hardError))
      && (stop ==> b.r0 == Round(it, nSendOffset, sentSoFar, hardError))
    }

    /** The per-connection and node-wide counters after `sent` bytes of a
        round have been counted, starting from the given values. */
    ghost predicate Counted(quota: OutboundQuota, sendBytes: U64, lastSend: int,
                            total: U64, start: U64, inCycle: U64, sent: nat, now: U64)
      reads this`nSendBytes, this`nLastSend, quota
    {
      && nSendBytes == Wrap64(sendBytes + sent)
      && nLastSend == (if sent > 0 then now else lastSend)
      && RecordedSince(quota, total, start, inCycle, sent, now)
    }

    /** The bookkeeping for one send() that took nBytes > 0 bytes: the time of
        the last send, the connection's byte count, and RecordBytesSent. */
    method CountSent(nBytes: nat, now: U64, quota: OutboundQuota, ghost sendBytes: U64, ghost lastSend: int,
                     ghost total: U64, ghost start: U64, ghost inCycle: U64, ghost sentSoFar: nat,
                     ghost sentAfter: nat)
      requires 0 < nBytes && sentAfter == sentSoFar + nBytes
      requires Counted(quota, sendBytes, lastSend, total, start, inCycle, sentSoFar, now)
      modifies this`nLastSend, this`nSendBytes, quota
      ensures Counted(quota, sendBytes, lastSend, total, start, inCycle, sentAfter, now)
      ensures quota.nTotalBytesRecv == old(quota.nTotalBytesRecv) && quota.nMaxOutboundLimit == old(quota.nMaxOutboundLimit)
      ensures quota.nMaxOutboundTimeframe == old(quota.nMaxOutboundTimeframe)
    {
      nLastSend := now;
      nSendBytes := Add64(nSendBytes, Wrap64(nBytes));
      Mod64Step(sendBytes + sentSoFar, nBytes);
      quota.RecordBytesSent(Wrap64(nBytes), now);
      ghost var tf := quota.nMaxOutboundTimeframe;
      Mod64Step(total + sentSoFar, nBytes);
      if sentSoFar > 0 && now + tf < TWO_TO_THE_64 {
        CycleRecordsCombine(start, tf, inCycle, Wrap64(sentSoFar), Wrap64(nBytes), now);
        Mod64Step(sentSoFar, nBytes);
      }
    }

    /** EndMessage: frame the message in ssSend (length and checksum written
        into its header), queue it, and try to send at once when the queue was
        empty; only that write touches the counters, the disconnect flag and
        the node-wide totals. An empty ssSend (no message begun) changes
        nothing. */
    method EndMessage(ssSend: seq<Byte>, hash: seq<Byte> -> Hash256,
                      send: nat -> SendOutcome, now: U64, quota: OutboundQuota)
      requires Valid()
      requires ssSend == [] || |ssSend| >= HEADER_SIZE
      modifies this, quota
      ensures Valid()
      ensures ssSend == [] ==> vSendMsg == old(vSendMsg) && nSendOffset == old(nSendOffset)
      ensures ssSend != [] && old(vSendMsg) != [] ==>
        && vSendMsg == old(vSendMsg) + [FinishMessage(ssSend, hash)]
        && nSendOffset == old(nSendOffset)
        && Pending() == old(Pending()) + FinishMessage(ssSend, hash)
      ensures ssSend != [] && old(vSendMsg) == [] ==>
        var r := SendFrom([FinishMessage(ssSend, hash)], 0, send, 0);
        && vSendMsg == [FinishMessage(ssSend, hash)][r.done..]
        && nSendOffset == r.offset
        && Pending() == FinishMessage(ssSend, hash)[r.sent..]
        && fDisconnect == (old(fDisconnect) || r.hardError)
        && nSendBytes == Wrap64(old(nSendBytes) + r.sent)
        && nLastSend == (if r.sent > 0 then now else old(nLastSend))
        && RecordedSince(quota, old(quota.nTotalBytesSent), old(quota.nMaxOutboundCycleStartTime),
                         old(quota.nMaxOutboundTotalBytesSentInCycle), r.sent, now)
      ensures ssSend == [] || old(vSendMsg) != [] ==>
        && nSendBytes == old(nSendBytes) && nLastSend == old(nLastSend) && fDisconnect == old(fDisconnect)
        && unchanged(quota)
      ensures quota.nTotalBytesRecv == old(quota.nTotalBytesRecv) && quota.nMaxOutboundLimit == old(quota.nMaxOutboundLimit)
      ensures quota.nMaxOutboundTimeframe == old(quota.nMaxOutboundTimeframe)
    {
      if |ssSend| == 0 {
        return;
      }
      var block := FinishMessage(ssSend, hash);
      var wasEmpty := vSendMsg == [];
      PushBlock(block);
      if wasEmpty {
        OptimisticWrite(block, send, now, quota);
      }
    }

    /** The write EndMessage tries at once: a SocketSendData round on a queue
        holding only the new block. */
    method OptimisticWrite(block: seq<Byte>, send: nat -> SendOutcome, now: U64, quota: OutboundQuota)
      requires Valid() && vSendMsg == [block] && nSendOffset == 0
      modifies this, quota
      ensures Valid()
      ensures var r := SendFrom([block], 0, send, 0);
        && vSendMsg == [block][r.done..]
        && nSendOffset == r.offset
        && Pending() == block[r.sent..]
        && fDisconnect == (old(fDisconnect) || r.hardError)
        && nSendBytes == Wrap64(old(nSendBytes) + r.sent)
        && nLastSend == (if r.sent > 0 then now else old(nLastSend))
        && RecordedSince(quota, old(quota.nTotalBytesSent), old(quota.nMaxOutboundCycleStartTime),
                         old(quota.nMaxOutboundTotalBytesSentInCycle), r.sent, now)
      ensures quota.nTotalBytesRecv == old(quota.nTotalBytesRecv) && quota.nMaxOutboundLimit == old(quota.nMaxOutboundLimit)
      ensures quota.nMaxOutboundTimeframe == old(quota.nMaxOutboundTimeframe)
    {
      ghost var single: seq<seq<Byte>> := [block];
      ghost var r := SendFrom(single, 0, send, 0);
      SendFromPending(single, 0, send, 0);
      assert PendingOf(single, 0) == block by {
        assert single[1..] == [];
      }
      SocketSendData(send, now, quota);
      assert Pending() == PendingOf(single[r.done..], r.offset);
    }

    /** Append a non-empty block at the back of the queue. */
    method PushBlock(block: seq<Byte>)
      requires Valid() && |block| > 0
      modifies this`vSendMsg, this`nSendSize
      ensures Valid()
      ensures vSendMsg == old(vSendMsg) + [block]
      ensures old(vSendMsg) != [] ==> Pending() == old(Pending()) + block
    {
      TotalSizeAppend(vSendMsg, block);
      if vSendMsg != [] {
        PendingAppend(vSendMsg, nSendOffset, block);
      }
      vSendMsg := vSendMsg + [block];
      nSendSize := nSendSize + |block|;
    }
  }
}
