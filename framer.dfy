/** The receive side of a connection: CNetMessage collects one message's
    24-byte header and then its payload, and CNode::ReceiveMsgBytes turns a
    chunk of bytes read from the socket into a queue of such messages. */
module Framer {
  import opened NetTypes
  import opened Wire

  /** The payload buffer grows at most this far ahead of the bytes received. */
  const RECV_ALLOCATION_STEP: nat := 256 * 1024

  /** std::vector::resize: truncate, or pad with zero bytes. */
  function Resize(buf: seq<Byte>, n: nat): (r: seq<Byte>)
    ensures |r| == n
    ensures forall i :: 0 <= i < n && i < |buf| ==> r[i] == buf[i]
  {
    if n <= |buf| then buf[..n] else buf + seq(n - |buf|, _ => 0)
  }

  function Min(a: int, b: int): int { if a < b then a else b }

  /** A message being received (CNetMessage). */
  class NetMessage {
    var hdrbuf: seq<Byte>
    var nHdrPos: nat
    var inData: bool
    var hdr: MessageHeader
    var vRecv: seq<Byte>
    var nDataPos: nat
    var nTime: int

    ghost predicate Valid()
      reads this
    {
      && |hdrbuf| == HEADER_SIZE
      && (inData ==> nHdrPos == HEADER_SIZE && nDataPos <= |vRecv| <= hdr.nMessageSize)
      && (!inData ==> nHdrPos < HEADER_SIZE && nDataPos == 0 && vRecv == [])
    }

    /** complete(): the whole declared payload has arrived. */
    predicate Complete()
      reads this
    {
      inData && nDataPos == hdr.nMessageSize
    }

    /** The bytes of the stream this message has absorbed so far. */
    ghost function Absorbed(): seq<Byte>
      reads this
    {
      (if nHdrPos <= |hdrbuf| then hdrbuf[..nHdrPos] else [])
        + (if nDataPos <= |vRecv| then vRecv[..nDataPos] else [])
    }

    /** The full header has arrived and `hdrbuf >> hdr` failed, or the header
        declares more than maxSize bytes. */
    ghost predicate HeaderRejected(decode: seq<Byte> -> Option<MessageHeader>, maxSize: nat)
      reads this
    {
      && nHdrPos == HEADER_SIZE && !inData
      && (decode(hdrbuf).None? || decode(hdrbuf).value.nMessageSize > maxSize)
    }

    /** The payload received so far. */
    function Payload(): seq<Byte>
      reads this
    {
      if nDataPos <= |vRecv| then vRecv[..nDataPos] else []
    }

    constructor ()
      ensures Valid()
      ensures nHdrPos == 0 && !inData && vRecv == [] && nDataPos == 0
      ensures Absorbed() == []
    {
      hdrbuf := seq(HEADER_SIZE, _ => 0);
      nHdrPos := 0;
      inData := false;
      hdr := MessageHeader([], [], 0, []);
      vRecv := [];
      nDataPos := 0;
      nTime := 0;
    }

    /** readHeader: copy at most the missing header bytes; once all 24 are
        present decode them (`hdrbuf >> hdr`, which may fail) and switch to
        payload mode unless the declared size exceeds maxSize. Returns the
        number of bytes used, or -1 on a failed decode or an oversized header. */
    method ReadHeader(pch: seq<Byte>, decode: seq<Byte> -> Option<MessageHeader>, maxSize: nat)
      returns (handled: int)
      requires Valid() && !inData
      modifies this
      ensures var nCopy := Min(HEADER_SIZE - old(nHdrPos), |pch|);
        && nHdrPos == old(nHdrPos) + nCopy && |hdrbuf| == HEADER_SIZE
        && hdrbuf[..nHdrPos] == old(hdrbuf[..nHdrPos]) + pch[..nCopy]
        && hdrbuf[nHdrPos..] == old(hdrbuf)[nHdrPos..]
        && (handled == -1 || handled == nCopy)
      ensures handled == -1 <==> HeaderRejected(decode, maxSize)
      ensures inData <==> handled >= 0 && nHdrPos == HEADER_SIZE
      ensures inData ==> decode(hdrbuf) == Some(hdr)
      ensures vRecv == old(vRecv) && nDataPos == old(nDataPos) && nTime == old(nTime)
      ensures handled >= 0 ==> Valid() && Absorbed() == old(Absorbed()) + pch[..handled]
      ensures Absorbed() == old(Absorbed()) + pch[..Min(HEADER_SIZE - old(nHdrPos), |pch|)]
    {
      var nRemaining := HEADER_SIZE - nHdrPos;
      var nCopy := Min(nRemaining, |pch|);
      hdrbuf := hdrbuf[..nHdrPos] + pch[..nCopy] + hdrbuf[nHdrPos + nCopy..];
      nHdrPos := nHdrPos + nCopy;

      if nHdrPos < HEADER_SIZE {
        return nCopy;
      }

      var decoded := decode(hdrbuf);
      if decoded.None? {
        return -1;
      }
      hdr := decoded.value;

      if hdr.nMessageSize > maxSize {
        return -1;
      }

      inData := true;
      return nCopy;
    }

    /** readData: copy at most the missing payload bytes, growing the buffer
        up to 256 KiB past what is needed but never past the declared size. */
    method ReadData(pch: seq<Byte>) returns (handled: int)
      requires Valid() && inData
      modifies this
      ensures Valid() && inData && hdr == old(hdr)
      ensures handled == Min(hdr.nMessageSize - old(nDataPos), |pch|)
      ensures nDataPos == old(nDataPos) + handled
      ensures Payload() == old(Payload()) + pch[..handled]
      ensures |vRecv| == if |old(vRecv)| < nDataPos
                         then Min(hdr.nMessageSize, nDataPos + RECV_ALLOCATION_STEP)
                         else |old(vRecv)|
      ensures vRecv[nDataPos..] == Resize(old(vRecv), |vRecv|)[nDataPos..]
      ensures nHdrPos == old(nHdrPos) && nTime == old(nTime)
      ensures Absorbed() == old(Absorbed()) + pch[..handled]
    {
      var nRemaining := hdr.nMessageSize - nDataPos;
      var nCopy := Min(nRemaining, |pch|);

      if |vRecv| < nDataPos + nCopy {
        vRecv := Resize(vRecv, Min(hdr.nMessageSize, nDataPos + nCopy + RECV_ALLOCATION_STEP));
      }

      vRecv := vRecv[..nDataPos] + pch[..nCopy] + vRecv[nDataPos + nCopy..];
      nDataPos := nDataPos + nCopy;
      return nCopy;
    }

    /** readHeader while the header is incomplete, readData afterwards. A
        message that is not yet complete always takes at least one byte of a
        non-empty chunk. */
    method Read(pch: seq<Byte>, decode: seq<Byte> -> Option<MessageHeader>, maxSize: nat)
      returns (handled: int)
      requires Valid() && !Complete()
      modifies this
      ensures handled >= 0 ==> handled <= |pch| && (handled > 0 || pch == [])
      ensures handled >= 0 ==> Valid() && Absorbed() == old(Absorbed()) + pch[..handled]
      ensures handled < 0 ==> HeaderRejected(decode, maxSize)
      ensures handled < 0 ==> exists k | 0 <= k <= |pch| :: Absorbed() == old(Absorbed()) + pch[..k]
      ensures old(inData) ==> inData && hdr == old(hdr)
      ensures !old(inData) ==> nDataPos == 0
      ensures nTime == old(nTime)
    {
      if !inData {
        handled := ReadHeader(pch, decode, maxSize);
      } else {
        handled := ReadData(pch);
      }
    }
  }

  lemma ConcatAssoc(a: seq<Byte>, b: seq<Byte>, c: seq<Byte>)
    ensures a + (b + c) == (a + b) + c
  {
  }

  /** The bytes absorbed by a sequence of messages, in order. */
  ghost function StreamOf(msgs: seq<NetMessage>): seq<Byte>
    reads set m | m in msgs
  {
    if msgs == [] then [] else StreamOf(msgs[..|msgs| - 1]) + msgs[|msgs| - 1].Absorbed()
  }

  /** Every message of msgs is well formed and complete. */
  ghost predicate AllSettled(msgs: seq<NetMessage>)
    reads set m | m in msgs
  {
    forall i | 0 <= i < |msgs| :: msgs[i].Valid() && msgs[i].Complete()
  }

  /** Every message of msgs that is in payload mode declares at most
      maxLength bytes. */
  predicate AllWithin(msgs: seq<NetMessage>, maxLength: nat)
    reads set m | m in msgs
  {
    forall i | 0 <= i < |msgs| :: msgs[i].inData ==> msgs[i].hdr.nMessageSize <= maxLength
  }

  /** A connection's receive queue (CNode::vRecvMsg). */
  class RecvQueue {
    var vRecvMsg: seq<NetMessage>
    ghost var Repr: set<object>

    ghost predicate Valid()
      reads this, set m | m in vRecvMsg
    {
      QueueShape(vRecvMsg) && (vRecvMsg != [] ==> Tail() in Repr)
    }

    /** Every queued message except the last is complete. */
    predicate AllButLastComplete()
      reads this, set m | m in vRecvMsg
    {
      forall i | 0 <= i < |vRecvMsg| - 1 :: vRecvMsg[i].Complete()
    }

    /** Every queued message in payload mode declares at most maxLength bytes. */
    predicate DeclaredWithin(maxLength: nat)
      reads this, set m | m in vRecvMsg
    {
      AllWithin(vRecvMsg, maxLength)
    }

    /** Every queued message from index `from` on that is complete carries
        the time nowMicros. */
    predicate StampedFrom(from: int, nowMicros: int)
      reads this, set m | m in vRecvMsg
    {
      forall i | 0 <= i < |vRecvMsg| && from <= i :: vRecvMsg[i].Complete() ==> vRecvMsg[i].nTime == nowMicros
    }

    /** Every byte the queue's messages have absorbed, in arrival order. */
    ghost function Stream(): seq<Byte>
      reads this, set m | m in vRecvMsg
    {
      StreamOf(vRecvMsg)
    }

    constructor ()
      ensures Valid() && vRecvMsg == [] && Repr == {}
    {
      vRecvMsg := [];
      Repr := {};
    }

    /** The messages before the last one. */
    function Front(): seq<NetMessage>
      reads this
      requires vRecvMsg != []
    {
      vRecvMsg[..|vRecvMsg| - 1]
    }

    /** The message bytes are currently fed into. */
    function Tail(): NetMessage
      reads this
      requires vRecvMsg != []
    {
      vRecvMsg[|vRecvMsg| - 1]
    }

    /** ReceiveMsgBytes: feed pch into the queue. Returns false when a header
        fails to decode or declares more than maxSize bytes, or when a message
        in payload mode declares more than maxProtocolLength bytes. Otherwise
        every byte is absorbed, in order, and the queue keeps its shape; when
        it gives up, the bytes up to the refused ones have been absorbed. The
        messages queued before the call are left as they were, except a last
        one that was still incomplete, and every message completed by this
        call is stamped with the time. */
    method ReceiveMsgBytes(pch: seq<Byte>, decode: seq<Byte> -> Option<MessageHeader>,
                           maxSize: nat, maxProtocolLength: nat, nowMicros: int)
      returns (ok: bool)
      requires Valid() && DeclaredWithin(maxProtocolLength)
      modifies this, Repr
      ensures fresh(Repr - old(Repr))
      ensures |vRecvMsg| >= |old(vRecvMsg)| && vRecvMsg[..|old(vRecvMsg)|] == old(vRecvMsg)
      ensures ok ==> Valid() && AllButLastComplete() && DeclaredWithin(maxProtocolLength)
      ensures ok ==> Stream() == old(Stream()) + pch
      ensures !ok ==> vRecvMsg != [] && Rejected(decode, maxSize, maxProtocolLength)
      ensures !ok ==> exists k | 0 <= k <= |pch| :: Stream() == old(Stream()) + pch[..k]
      ensures forall i | 0 <= i < (if old(vRecvMsg == [] || Tail().Complete()) then |old(vRecvMsg)| else |old(vRecvMsg)| - 1)
        :: unchanged(old(vRecvMsg)[i])
      ensures StampedFrom(if old(vRecvMsg == [] || Tail().Complete()) then |old(vRecvMsg)| else |old(vRecvMsg)| - 1,
                          nowMicros)
    {
      ghost var start := if vRecvMsg == [] || Tail().Complete() then |vRecvMsg| else |vRecvMsg| - 1;
      ghost var m0, s0, r0 := vRecvMsg, Stream(), Repr;
      var pos := 0;
      while pos < |pch|
        invariant 0 <= pos <= |pch|
        invariant Valid() && DeclaredWithin(maxProtocolLength)
        invariant fresh(Repr - r0)
        invariant |vRecvMsg| >= |m0| && vRecvMsg[..|m0|] == m0
        invariant Stream() == s0 + pch[..pos]
        invariant forall i | 0 <= i < start :: unchanged(m0[i])
        invariant 0 <= start <= |vRecvMsg| && (start == |vRecvMsg| ==> vRecvMsg == [] || Tail().Complete())
        invariant StampedFrom(start, nowMicros)
        decreases |pch| - pos
      {
        ghost var msgsBefore, reprBefore := vRecvMsg, Repr;
        label BeforeFeed:
        var handled := FeedOnce(pch, pos, decode, maxSize, maxProtocolLength, nowMicros, start, s0, m0);
        assert fresh(Repr - r0) by {
          assert Repr - r0 <= (Repr - reprBefore) + (reprBefore - r0);
        }
        forall i | 0 <= i < start
          ensures unchanged(m0[i])
        {
          assert m0[i] == msgsBefore[i];
          assert unchanged@BeforeFeed(msgsBefore[i]);
        }
        if handled < 0 {
          return false;
        }
        assert Stream() == s0 + pch[..pos + handled];
        pos := pos + handled;
      }
      assert pch[..pos] == pch;
      ValidAllButLastComplete();
      return true;
    }

    /** How ReceiveMsgBytes gives up: the last message's header was refused,
        or that message declares more than maxProtocolLength bytes. */
    ghost predicate Rejected(decode: seq<Byte> -> Option<MessageHeader>, maxSize: nat, maxProtocolLength: nat)
      reads this, set m | m in vRecvMsg
      requires vRecvMsg != []
    {
      Tail().HeaderRejected(decode, maxSize) || (Tail().inData && Tail().hdr.nMessageSize > maxProtocolLength)
    }

    /** One turn of the loop in ReceiveMsgBytes: open a new message when the
        last one is complete, then feed data into the last message. */
    method FeedOnce(pch: seq<Byte>, pos: nat, decode: seq<Byte> -> Option<MessageHeader>,
                    maxSize: nat, maxProtocolLength: nat, nowMicros: int,
                    ghost start: int, ghost prior: seq<Byte>, ghost queued: seq<NetMessage>)
      returns (handled: int)
      requires pos < |pch|
      requires Valid() && DeclaredWithin(maxProtocolLength) && Stream() == prior + pch[..pos]
      requires |vRecvMsg| >= |queued| && vRecvMsg[..|queued|] == queued
      requires StampedFrom(start, nowMicros)
      requires 0 <= start <= |vRecvMsg| && (start == |vRecvMsg| ==> vRecvMsg == [] || Tail().Complete())
      modifies this, Repr
      ensures fresh(Repr - old(Repr))
      ensures |vRecvMsg| >= |queued| && vRecvMsg[..|queued|] == queued
      ensures |vRecvMsg| > start
      ensures forall i | 0 <= i < start :: unchanged(old(vRecvMsg)[i])
      ensures handled >= 0 ==> 0 < handled <= |pch| - pos
      ensures handled >= 0 ==> Valid() && DeclaredWithin(maxProtocolLength)
      ensures handled >= 0 ==> Stream() == prior + pch[..pos + handled]
      ensures handled < 0 ==> vRecvMsg != [] && Rejected(decode, maxSize, maxProtocolLength)
      ensures handled < 0 ==> exists k | pos <= k <= |pch| :: Stream() == prior + pch[..k]
      ensures StampedFrom(start, nowMicros)
    {
      if vRecvMsg == [] || Tail().Complete() {
        OpenMessage();
        assert Front() == old(vRecvMsg);
      }
      assert FrontStampedFrom(start, nowMicros);
      PrefixTrans(queued, old(vRecvMsg), vRecvMsg);
      handled := FeedTail(pch[pos..], decode, maxSize, maxProtocolLength, nowMicros, start);
      if handled >= 0 {
        StreamExtend(prior, pch, pos, handled);
      } else {
        ghost var k :| 0 <= k <= |pch[pos..]| && Stream() == prior + pch[..pos] + pch[pos..][..k];
        StreamExtend(prior, pch, pos, k);
        assert Stream() == prior + pch[..pos + k];
      }
    }

    /** StampedFrom, for every queued message but the last. */
    predicate FrontStampedFrom(from: int, nowMicros: int)
      reads this, set m | m in vRecvMsg
    {
      forall i | 0 <= i < |vRecvMsg| - 1 && from <= i :: vRecvMsg[i].Complete() ==> vRecvMsg[i].nTime == nowMicros
    }

    /** The rest of one turn of the loop in ReceiveMsgBytes, once the last
        message is incomplete: read a header or payload chunk into it, refuse
        an oversized message, and stamp the message with the time once it is
        complete. Returns the number of bytes used, or -1 when the chunk was
        refused. */
    method FeedTail(data: seq<Byte>, decode: seq<Byte> -> Option<MessageHeader>,
                    maxSize: nat, maxProtocolLength: nat, nowMicros: int, ghost start: int)
      returns (handled: int)
      requires Valid() && DeclaredWithin(maxProtocolLength) && data != []
      requires FrontStampedFrom(start, nowMicros)
      requires vRecvMsg != [] && !Tail().Complete()
      modifies Tail()
      ensures handled >= 0 ==> 0 < handled <= |data|
      ensures handled >= 0 ==> Valid() && DeclaredWithin(maxProtocolLength)
      ensures handled >= 0 ==> Stream() == old(Stream()) + data[..handled]
      ensures handled < 0 ==> Rejected(decode, maxSize, maxProtocolLength)
      ensures handled < 0 ==> exists k | 0 <= k <= |data| :: Stream() == old(Stream()) + data[..k]
      ensures Tail().Complete() ==> Tail().nTime == nowMicros
      ensures forall i | 0 <= i < |vRecvMsg| - 1 :: unchanged(vRecvMsg[i])
      ensures StampedFrom(start, nowMicros)
    {
      assert forall i | 0 <= i < |vRecvMsg| - 1 :: vRecvMsg[i] != Tail() by {
        assert Tail() !in Front();
        forall i | 0 <= i < |vRecvMsg| - 1 ensures vRecvMsg[i] == Front()[i] { }
      }
      var msg := Tail();
      handled := AbsorbIntoTail(data, decode, maxSize, maxProtocolLength);
      if handled >= 0 && msg.inData && msg.hdr.nMessageSize > maxProtocolLength {
        // A message declaring too much is refused as soon as its header is
        // read, before any payload byte completes it.
        assert !old(msg.inData) && msg.nDataPos == 0;
        assert Stream() == old(Stream()) + data[..handled];
        handled := -1;
      } else if handled >= 0 {
        WithinSplit(vRecvMsg, maxProtocolLength);
        if msg.Complete() {
          StampTail(nowMicros);
        }
      }
      forall i | 0 <= i < |vRecvMsg| && start <= i
        ensures vRecvMsg[i].Complete() ==> vRecvMsg[i].nTime == nowMicros
      {
        if i < |vRecvMsg| - 1 {
          assert unchanged(vRecvMsg[i]);
        }
      }
    }

    /** Append a fresh CNetMessage to the queue. */
    method OpenMessage()
      requires Valid() && (vRecvMsg == [] || Tail().Complete())
      modifies this
      ensures Valid() && fresh(Repr - old(Repr))
      ensures |vRecvMsg| == |old(vRecvMsg)| + 1 && vRecvMsg[..|old(vRecvMsg)|] == old(vRecvMsg)
      ensures fresh(Tail()) && !Tail().inData && Tail().nHdrPos == 0
      ensures Stream() == old(Stream())
      ensures forall maxLength: nat :: old(DeclaredWithin(maxLength)) ==> DeclaredWithin(maxLength)
    {
      var msg := new NetMessage();
      StreamAppend(vRecvMsg, msg);
      ghost var oldMsgs := vRecvMsg;
      QueueShapeOpen(oldMsgs, msg);
      vRecvMsg := vRecvMsg + [msg];
      Repr := Repr + {msg};
      assert Front() == oldMsgs;
      forall maxLength: nat | AllWithin(oldMsgs, maxLength) ensures DeclaredWithin(maxLength) {
        WithinSplit(vRecvMsg, maxLength);
      }
    }

    /** One turn of the loop in ReceiveMsgBytes: readHeader or readData on the
        last message, by its mode. */
    method AbsorbIntoTail(data: seq<Byte>, decode: seq<Byte> -> Option<MessageHeader>, maxSize: nat,
                          ghost maxLength: nat)
      returns (handled: int)
      requires Valid() && vRecvMsg != [] && !Tail().Complete()
      modifies Tail()
      ensures handled >= 0 ==> handled <= |data| && (handled > 0 || data == [])
      ensures handled >= 0 ==> Valid() && Stream() == old(Stream()) + data[..handled]
      ensures handled < 0 ==> Tail().HeaderRejected(decode, maxSize)
      ensures handled < 0 ==> exists k | 0 <= k <= |data| :: Stream() == old(Stream()) + data[..k]
      ensures old(AllWithin(Front(), maxLength)) ==> AllWithin(Front(), maxLength)
      ensures old(Tail().inData) ==> Tail().inData && Tail().hdr == old(Tail().hdr)
      ensures !old(Tail().inData) ==> Tail().nDataPos == 0
      ensures Tail().nTime == old(Tail().nTime)
    {
      var msg := Tail();
      ghost var before := Front();
      assert vRecvMsg == before + [msg];
      assert msg !in before && AllSettled(before);
      StreamAppend(before, msg);
      ghost var prefixStream := StreamOf(before);
      ghost var absorbed := msg.Absorbed();
      handled := msg.Read(data, decode, maxSize);
      assert StreamOf(before) == prefixStream && AllSettled(before);
      assert old(AllWithin(before, maxLength)) ==> AllWithin(before, maxLength);
      StreamAppend(before, msg);
      if handled >= 0 {
        QueueShapeJoin(before, msg);
        ConcatAssoc(prefixStream, absorbed, data[..handled]);
      } else {
        ghost var k :| 0 <= k <= |data| && msg.Absorbed() == absorbed + data[..k];
        ConcatAssoc(prefixStream, absorbed, data[..k]);
      }
    }

    /** A message that has just become complete is stamped with the time. */
    method StampTail(nowMicros: int)
      requires Valid() && vRecvMsg != []
      modifies Tail()
      ensures Valid() && Stream() == old(Stream())
      ensures Tail().nTime == nowMicros
      ensures forall maxLength: nat :: old(DeclaredWithin(maxLength)) ==> DeclaredWithin(maxLength)
    {
      var msg := Tail();
      ghost var before := Front();
      assert vRecvMsg == before + [msg];
      StreamAppend(before, msg);
      msg.nTime := nowMicros;
      StreamAppend(before, msg);
      forall maxLength: nat | old(DeclaredWithin(maxLength)) ensures DeclaredWithin(maxLength) {
        WithinSplit(vRecvMsg, maxLength);
      }
    }

    lemma ValidAllButLastComplete()
      requires Valid()
      ensures AllButLastComplete()
    {
      if vRecvMsg != [] {
        forall i | 0 <= i < |vRecvMsg| - 1 ensures vRecvMsg[i].Complete() {
          assert Front()[i] == vRecvMsg[i];
        }
      }
    }
  }

  lemma WithinSplit(msgs: seq<NetMessage>, maxLength: nat)
    requires msgs != []
    ensures AllWithin(msgs, maxLength) <==>
      AllWithin(msgs[..|msgs| - 1], maxLength)
      && (msgs[|msgs| - 1].inData ==> msgs[|msgs| - 1].hdr.nMessageSize <= maxLength)
  {
    var front := msgs[..|msgs| - 1];
    if AllWithin(front, maxLength) && (msgs[|msgs| - 1].inData ==> msgs[|msgs| - 1].hdr.nMessageSize <= maxLength) {
      forall i | 0 <= i < |msgs| ensures msgs[i].inData ==> msgs[i].hdr.nMessageSize <= maxLength {
        if i < |msgs| - 1 { assert front[i] == msgs[i]; }
      }
    }
  }

  lemma StreamExtend(prior: seq<Byte>, s: seq<Byte>, pos: nat, k: nat)
    requires pos + k <= |s|
    ensures prior + s[..pos] + s[pos..][..k] == prior + s[..pos + k]
  {
    assert s[..pos] + s[pos..][..k] == s[..pos + k];
  }

  lemma PrefixTrans<T>(a: seq<T>, b: seq<T>, c: seq<T>)
    requires |a| <= |b| && b[..|a|] == a
    requires |b| <= |c| && c[..|b|] == b
    ensures |a| <= |c| && c[..|a|] == a
  {
    assert c[..|a|] == c[..|b|][..|a|];
  }

  /** Every message but the last is well formed and complete, the last one
      is well formed, and the last one is not also queued earlier. */
  ghost predicate QueueShape(msgs: seq<NetMessage>)
    reads set m | m in msgs
  {
    msgs != [] ==>
      var front := msgs[..|msgs| - 1];
      var last := msgs[|msgs| - 1];
      last !in front && AllSettled(front) && last.Valid()
  }

  lemma QueueShapeOpen(msgs: seq<NetMessage>, m: NetMessage)
    requires QueueShape(msgs) && (msgs != [] ==> msgs[|msgs| - 1].Complete())
    requires m.Valid() && m !in msgs
    ensures QueueShape(msgs + [m])
  {
    var grown := msgs + [m];
    assert grown[..|grown| - 1] == msgs;
    if msgs != [] {
      SettledAppend(msgs[..|msgs| - 1], msgs[|msgs| - 1]);
      assert msgs[..|msgs| - 1] + [msgs[|msgs| - 1]] == msgs;
    }
  }

  lemma QueueShapeJoin(front: seq<NetMessage>, last: NetMessage)
    requires last !in front && AllSettled(front) && last.Valid()
    ensures QueueShape(front + [last])
  {
    assert (front + [last])[..|front|] == front;
  }

  lemma SettledAppend(msgs: seq<NetMessage>, m: NetMessage)
    requires AllSettled(msgs) && m.Valid() && m.Complete()
    ensures AllSettled(msgs + [m])
  {
    forall i | 0 <= i < |msgs| + 1 ensures (msgs + [m])[i].Valid() && (msgs + [m])[i].Complete() {
      if i < |msgs| { assert (msgs + [m])[i] == msgs[i]; }
    }
  }

  lemma StreamAppend(msgs: seq<NetMessage>, m: NetMessage)
    ensures StreamOf(msgs + [m]) == StreamOf(msgs) + m.Absorbed()
  {
    assert (msgs + [m])[..|msgs|] == msgs;
  }
}
