/** Receiving and sending the stream of messages: CNetMessage and CNode in src/net.h and src/net.cpp. */
module Net {
  import opened Framing
  import opened ScriptCode
  import opened Wrappers

  class CNetMessage {
    var in_data: bool
    var hdrbuf: Bytes
    var nHdrPos: nat
    var vRecv: Bytes
    var nDataPos: nat

    constructor ()
      ensures Valid() && View() == Msg([], []) && !in_data
    {
      in_data, hdrbuf, nHdrPos, vRecv, nDataPos := false, seq(HEADER_SIZE, _ => 0), 0, [], 0;
    }

    /** Data is expected exactly after the whole header; the buffer for it has the size the header says. */
    ghost predicate Valid()
      reads this
    {
      && |hdrbuf| == HEADER_SIZE && nHdrPos <= HEADER_SIZE && nDataPos <= |vRecv|
      && (in_data <==> nHdrPos == HEADER_SIZE)
      && (if in_data then |vRecv| == Size(hdrbuf) <= MAX_SIZE else vRecv == [])
    }

    /** The part of the message that has come in. */
    ghost function View(): (m: Msg)
      requires Valid()
      reads this
      ensures m.Ok()
    {
      assert in_data ==> hdrbuf[..nHdrPos] == hdrbuf;
      Msg(hdrbuf[..nHdrPos], vRecv[..nDataPos])
    }

    predicate Complete()
      requires Valid()
      reads this
      ensures Complete() <==> View().Complete()
    {
      assert in_data ==> hdrbuf[..nHdrPos] == hdrbuf;
      in_data && Size(hdrbuf) == nDataPos
    }

    /** Takes header bytes; -1 when the whole header announces too much. */
    method ReadHeader(pch: Bytes) returns (handled: int)
      requires Valid() && !in_data && pch != []
      modifies this
      ensures -1 <= handled <= |pch| && handled != 0
      ensures handled > 0 ==> Valid() && View() == Msg(old(View()).header + pch[..handled], [])
      ensures (handled > 0 ==>
        handled == if |pch| < HEADER_SIZE - old(nHdrPos) then |pch| else HEADER_SIZE - old(nHdrPos))
      ensures (handled == -1 <==>
        |pch| >= HEADER_SIZE - old(nHdrPos)
        && Size(old(View()).header + pch[..HEADER_SIZE - old(nHdrPos)]) > 0x0200_0000)
    {
      var nRemaining := HEADER_SIZE - nHdrPos;
      var nCopy := if nRemaining < |pch| then nRemaining else |pch|;
      ghost var header := View().header + pch[..nCopy];
      hdrbuf := hdrbuf[..nHdrPos] + pch[..nCopy] + hdrbuf[nHdrPos + nCopy..];
      nHdrPos := nHdrPos + nCopy;
      assert hdrbuf[..nHdrPos] == header;
      if nHdrPos < HEADER_SIZE { return nCopy; }
      assert hdrbuf == header;
      if Size(hdrbuf) > MAX_SIZE { return -1; }
      in_data := true;
      vRecv := seq(Size(hdrbuf), _ => 0);
      return nCopy;
    }

    /** Takes data bytes, as many as are still missing. */
    method ReadData(pch: Bytes) returns (handled: int)
      requires Valid() && in_data && !Complete() && pch != []
      modifies this
      ensures Valid() && in_data
      ensures 0 < handled <= |pch|
      ensures View() == Msg(old(View()).header, old(View()).data + pch[..handled])
      ensures handled == if |pch| < Size(hdrbuf) - old(nDataPos) then |pch| else Size(hdrbuf) - old(nDataPos)
    {
      var nRemaining := Size(hdrbuf) - nDataPos;
      var nCopy := if nRemaining < |pch| then nRemaining else |pch|;
      vRecv := vRecv[..nDataPos] + pch[..nCopy] + vRecv[nDataPos + nCopy..];
      nDataPos := nDataPos + nCopy;
      return nCopy;
    }
  }

  /** The receiving side of a connection. */
  class CReceiver {
    var vRecvMsg: seq<CNetMessage>

    constructor ()
      ensures Valid() && Received() == []
    {
      vRecvMsg := [];
    }

    ghost predicate Separate()
      reads this, vRecvMsg
    {
      && (forall i, j :: 0 <= i < j < |vRecvMsg| ==> vRecvMsg[i] != vRecvMsg[j])
      && (forall m :: m in vRecvMsg ==> m.Valid())
    }

    ghost predicate Valid()
      reads this, vRecvMsg
    {
      Separate() && WellFormed(Views(vRecvMsg))
    }

    /** The last message can take more. */
    ghost predicate Open()
      reads this, vRecvMsg
    {
      && Separate() && vRecvMsg != []
      && AllComplete(Views(vRecvMsg[..|vRecvMsg| - 1])) && !vRecvMsg[|vRecvMsg| - 1].Complete()
    }

    ghost function Received(): seq<Msg>
      requires Valid()
      reads this, vRecvMsg
    {
      Views(vRecvMsg)
    }

    /** Takes what came in, in whatever pieces: afterwards the messages are those of the whole stream so far.  Fails
        exactly when some header in it announces too much. */
    method ReceiveMsgBytes(pch: Bytes) returns (ok: bool)
      requires Valid()
      modifies this, vRecvMsg
      ensures ok <==> Parsed(Stream(old(Received())) + pch).Some?
      ensures ok ==> Valid() && Parsed(Stream(old(Received())) + pch) == Some(Received())
      ensures forall m :: m in vRecvMsg ==> m in old(vRecvMsg) || fresh(m)
    {
      hide Parsed, Stream, WellFormed, Views;
      ghost var s := Stream(Received());
      var k := 0;
      while k < |pch|
        invariant 0 <= k <= |pch| && Valid() && Stream(Received()) == s + pch[..k]
        invariant forall m :: m in vRecvMsg ==> m in old(vRecvMsg) || fresh(m)
      {
        if vRecvMsg != [] { assert vRecvMsg[|vRecvMsg| - 1] in vRecvMsg; }
        var handled := Absorb(pch[k..]);
        assert s + pch == (s + pch[..k]) + pch[k..];
        if handled < 0 { return false; }
        assert pch[..k + handled] == pch[..k] + pch[k..][..handled];
        assert (s + pch[..k]) + pch[k..][..handled] == s + pch[..k + handled];
        k := k + handled;
      }
      assert pch[..k] == pch;
      StreamParsed(Received());
      return true;
    }

    /** Starts a message when there is none that can take more. */
    method OpenMessage()
      requires Valid()
      modifies this
      ensures Open() && Stream(Views(vRecvMsg)) == Stream(old(Received()))
      ensures vRecvMsg == old(vRecvMsg) || exists m :: fresh(m) && vRecvMsg == old(vRecvMsg) + [m]
    {
      hide Parsed, Stream, WellFormed, AllComplete;
      ghost var n, ms := |vRecvMsg|, Views(vRecvMsg);
      if |vRecvMsg| == 0 || vRecvMsg[|vRecvMsg| - 1].Complete() {
        AllDone(ms);
        AddEmpty();
      } else {
        assert ms[..n - 1] == Views(vRecvMsg[..n - 1]);
        AllButLast(ms);
      }
    }

    method AddEmpty()
      requires Separate() && AllComplete(Views(vRecvMsg))
      modifies this
      ensures Open() && Stream(Views(vRecvMsg)) == Stream(old(Views(vRecvMsg)))
      ensures exists m :: fresh(m) && vRecvMsg == old(vRecvMsg) + [m]
    {
      hide Parsed, Stream, WellFormed, AllComplete, Views;
      ghost var n, ms := |vRecvMsg|, Views(vRecvMsg);
      var msg := new CNetMessage();
      vRecvMsg := vRecvMsg + [msg];
      assert vRecvMsg[..n] == old(vRecvMsg) && vRecvMsg[n] == msg;
      ViewsLast(vRecvMsg);
      StreamLast(ms, Msg([], []));
    }

    /** One turn of the loop. */
    method Absorb(pch: Bytes) returns (handled: int)
      requires Valid() && pch != []
      modifies this, if vRecvMsg != [] then {vRecvMsg[|vRecvMsg| - 1]} else {}
      ensures handled >= -1
      ensures handled == -1 ==> Parsed(Stream(old(Received())) + pch).None?
      ensures handled != -1 ==> Valid() && 0 < handled <= |pch|
      ensures handled != -1 ==> Stream(Received()) == Stream(old(Received())) + pch[..handled]
      ensures vRecvMsg == old(vRecvMsg) || exists m :: fresh(m) && vRecvMsg == old(vRecvMsg) + [m]
    {
      hide Parsed, WellFormed, AllComplete, Stream;
      OpenMessage();
      handled := TakeIn(pch);
    }

    method TakeIn(pch: Bytes) returns (handled: int)
      requires Open() && pch != []
      modifies vRecvMsg[|vRecvMsg| - 1]
      ensures handled >= -1
      ensures handled == -1 ==> Parsed(Stream(old(Views(vRecvMsg))) + pch).None?
      ensures handled != -1 ==> Valid() && 0 < handled <= |pch|
      ensures handled != -1 ==> Stream(Received()) == Stream(old(Views(vRecvMsg))) + pch[..handled]
    {
      hide Parsed, AllComplete, Stream, WellFormed, Views;
      ViewsLast(vRecvMsg);
      var msg := vRecvMsg[|vRecvMsg| - 1];
      ghost var n := |vRecvMsg| - 1;
      ghost var done, last := Views(vRecvMsg[..n]), msg.View();
      StreamLast(done, last);
      if !msg.in_data {
        handled := msg.ReadHeader(pch);
      } else {
        handled := msg.ReadData(pch);
      }
      if handled == -1 {
        TooLarge(done, last, pch);
      } else {
        assert Views(vRecvMsg[..n]) == done;
        ViewsLast(vRecvMsg);
        StreamLast(done, msg.View());
        assert msg.View().Bytes() == last.Bytes() + pch[..handled];
        OneMore(done, msg.View());
      }
    }
  }

  lemma ViewsLast(ms: seq<CNetMessage>)
    requires (forall m :: m in ms ==> m.Valid()) && ms != []
    ensures Views(ms) == Views(ms[..|ms| - 1]) + [ms[|ms| - 1].View()]
  {
  }

  lemma StreamLast(done: seq<Msg>, m: Msg)
    ensures Stream(done + [m]) == Stream(done) + m.Bytes()
  {
    StreamJoin(done, [m]);
    assert [m][1..] == [];
  }

  lemma AllDone(ms: seq<Msg>)
    requires WellFormed(ms) && (ms != [] ==> ms[|ms| - 1].Complete())
    ensures AllComplete(ms)
  {
  }

  lemma AllButLast(ms: seq<Msg>)
    requires WellFormed(ms) && ms != []
    ensures AllComplete(ms[..|ms| - 1])
  {
  }

  lemma OneMore(done: seq<Msg>, m: Msg)
    requires AllComplete(done) && m.Ok() && m.header != []
    ensures WellFormed(done + [m])
  {
  }

  lemma ParsedTooLarge(s: Bytes)
    ensures |s| >= HEADER_SIZE && Size(s[..HEADER_SIZE]) > MAX_SIZE ==> Parsed(s).None?
  {
    hide LittleEndian;
  }

  /** A header that announces too much is the end of parsing. */
  lemma TooLarge(done: seq<Msg>, m: Msg, pch: Bytes)
    requires AllComplete(done) && |m.header| < HEADER_SIZE && m.data == [] && |pch| >= HEADER_SIZE - |m.header|
    requires Size(m.header + pch[..HEADER_SIZE - |m.header|]) > MAX_SIZE
    ensures Parsed(Stream(done) + m.Bytes() + pch).None?
  {
    hide LittleEndian, Parsed, AllComplete, Stream;
    var s := m.Bytes() + pch;
    ParsedAfter(done, s);
    ParsedTooLarge(s);
    assert Stream(done) + m.Bytes() + pch == Stream(done) + s;
    assert s[..HEADER_SIZE] == m.header + pch[..HEADER_SIZE - |m.header|];
  }

  ghost function Views(ms: seq<CNetMessage>): (r: seq<Msg>)
    requires forall m :: m in ms ==> m.Valid()
    reads ms
    ensures |r| == |ms|
  {
    if ms == [] then [] else Views(ms[..|ms| - 1]) + [ms[|ms| - 1].View()]
  }

  // ---- Sending ----

  lemma {:induction false} ConcatLast(q: seq<Bytes>, b: Bytes)
    ensures Concat(q + [b]) == Concat(q) + b
  {
    if q == [] {
      assert q + [b] == [b] && [b][1..] == [];
    } else {
      assert (q + [b])[1..] == q[1..] + [b];
      ConcatLast(q[1..], b);
    }
  }

  /** The end of a connection that takes bytes, as many at a time as it likes, or none, or an error. */
  class Socket {
    var wire: Bytes

    constructor ()
      ensures wire == []
    {
      wire := [];
    }

    method Send(data: Bytes) returns (nBytes: int)
      modifies this
      ensures nBytes <= |data|
      ensures wire == if nBytes > 0 then old(wire) + data[..nBytes] else old(wire)
    {
      nBytes := *;
      if nBytes > |data| { nBytes := |data|; }
      if nBytes > 0 { wire := wire + data[..nBytes]; }
    }
  }

  /** The sending side of a connection. */
  class CSender {
    const magic: Magic
    const hSocket: Socket
    var ssSend: Bytes
    var vSendMsg: seq<Bytes>
    var nSendOffset: nat
    var nSendSize: nat
    var nSendBytes: nat
    /** Everything that has been sent, as far as this side is concerned. */
    ghost var letters: seq<Letter>

    constructor (magic: Magic, hSocket: Socket)
      requires magic.Ok() && hSocket.wire == []
      ensures Valid() && this.magic == magic && this.hSocket == hSocket && letters == [] && ssSend == []
    {
      this.magic, this.hSocket, letters := magic, hSocket, [];
      ssSend, vSendMsg, nSendOffset, nSendSize, nSendBytes := [], [], 0, 0, 0;
    }

    /** What is still to be sent. */
    ghost function Queued(): Bytes
      requires Positioned(vSendMsg, nSendOffset)
      reads this
    {
      PositionedWithin(vSendMsg, nSendOffset);
      Concat(vSendMsg)[nSendOffset..]
    }

    /** What has been taken and what is queued are, in order, all the messages; the size is that of the queue. */
    ghost predicate Valid()
      reads this, hSocket
    {
      && magic.Ok()
      && Positioned(vSendMsg, nSendOffset)
      && nSendSize == |Concat(vSendMsg)|
      && nSendBytes == |hSocket.wire|
      && hSocket.wire + Queued() == AllFramed(magic, letters)
    }

    /** The queue without its first `it` entries has the size and the offset that are kept. */
    ghost predicate SentUpTo(it: nat)
      requires it <= |vSendMsg|
      reads this
    {
      Positioned(vSendMsg[it..], nSendOffset) && nSendSize == |Concat(vSendMsg[it..])|
    }

    /** The loop over the queue: entries are sent in order, until the socket does not take all of one. */
    method SendEntries() returns (it: nat)
      requires Positioned(vSendMsg, nSendOffset) && nSendSize == |Concat(vSendMsg)| && nSendBytes == |hSocket.wire|
      modifies this`nSendOffset, this`nSendSize, this`nSendBytes, hSocket
      ensures it <= |vSendMsg| && SentUpTo(it) && nSendBytes == |hSocket.wire| && old(hSocket.wire) <= hSocket.wire
      ensures Left(hSocket.wire, vSendMsg[it..], nSendOffset) == old(Left(hSocket.wire, vSendMsg, nSendOffset))
    {
      hide Concat, Left;
      it := 0;
      assert vSendMsg[0..] == vSendMsg;
      while it < |vSendMsg|
        invariant 0 <= it <= |vSendMsg| && nSendBytes == |hSocket.wire| && SentUpTo(it)
        invariant old(hSocket.wire) <= hSocket.wire
        invariant Left(hSocket.wire, vSendMsg[it..], nSendOffset) == old(Left(hSocket.wire, vSendMsg, nSendOffset))
      {
        var data := vSendMsg[it];
        assert vSendMsg[it..][0] == data && vSendMsg[it..][1..] == vSendMsg[it + 1..];
        assert |data| > nSendOffset;
        ghost var wire := hSocket.wire;
        var nBytes := hSocket.Send(data[nSendOffset..]);
        if nBytes <= 0 { break; }
        SentSome(wire, vSendMsg[it..], nSendOffset, nBytes);
        nSendBytes := nSendBytes + nBytes;
        nSendOffset := nSendOffset + nBytes;
        if nSendOffset != |data| {
          LeftIs(hSocket.wire, vSendMsg[it..], nSendOffset);
          break;
        }
        SentAll(hSocket.wire, vSendMsg[it..]);
        nSendOffset := 0;
        nSendSize := nSendSize - |data|;
        it := it + 1;
      }
    }

    /** Sends what the socket takes.  The assertions in it never fail. */
    method SocketSendData()
      requires Valid()
      modifies this`vSendMsg, this`nSendOffset, this`nSendSize, this`nSendBytes, hSocket
      ensures Valid() && old(hSocket.wire) <= hSocket.wire
      ensures hSocket.wire + Queued() == old(hSocket.wire + Queued())
    {
      hide AllFramed, Concat, Left;
      LeftIs(hSocket.wire, vSendMsg, nSendOffset);
      var it := SendEntries();
      NothingLeft(vSendMsg[it..], nSendOffset);
      if it == |vSendMsg| {
        assert nSendOffset == 0;
        assert nSendSize == 0;
      }
      LeftIs(hSocket.wire, vSendMsg[it..], nSendOffset);
      vSendMsg := vSendMsg[it..];
    }

    method BeginMessage(pszCommand: Bytes)
      requires Valid() && ssSend == []
      modifies this`ssSend
      ensures Valid() && Draft(pszCommand, [])
      ensures |ssSend| == 24 && ssSend[..4] == magic.start
      ensures 0 !in pszCommand ==> Text(ssSend[4..16]) == Short(pszCommand)
    {
      hide Text, Command, Short;
      ssSend := magic.start + Command(pszCommand) + [0, 0, 0, 0] + [0, 0, 0, 0];
      CommandAt(magic, pszCommand, ssSend);
      assert ssSend + [] == ssSend;
    }

    ghost predicate Draft(command: Bytes, data: Bytes)
      reads this
    {
      ssSend == magic.start + Command(command) + [0, 0, 0, 0] + [0, 0, 0, 0] + data
    }

    method Append(more: Bytes, ghost command: Bytes, ghost data: Bytes)
      requires Valid() && Draft(command, data)
      modifies this`ssSend
      ensures Valid() && Draft(command, data + more)
    {
      ssSend := ssSend + more;
    }

    /** Fills in length and checksum and queues the message; tries to send at once when nothing is ahead of it. */
    method EndMessage(ghost command: Bytes, ghost data: Bytes)
      requires Valid() && (ssSend == [] || Draft(command, data))
      modifies this, hSocket
      ensures Valid() && ssSend == []
      ensures letters == if old(ssSend) == [] then old(letters) else old(letters) + [Letter(command, data)]
      ensures old(hSocket.wire) <= hSocket.wire
    {
      if ssSend == [] { return; }
      FillHeader(command, data);
      Enqueue(Letter(command, data));
      if |vSendMsg| == 1 { SocketSendData(); }
    }

    /** Sends a message made of some parts. */
    method PushMessage(pszCommand: Bytes, parts: seq<Bytes>)
      requires Valid() && ssSend == []
      modifies this, hSocket
      ensures Valid() && ssSend == [] && letters == old(letters) + [Letter(pszCommand, Concat(parts))]
      ensures old(hSocket.wire) <= hSocket.wire
    {
      hide Concat, Command, Valid;
      BeginMessage(pszCommand);
      StreamOfNothing();
      assert parts[..0] == [];
      var i := 0;
      while i < |parts|
        invariant 0 <= i <= |parts| && Valid() && Draft(pszCommand, Concat(parts[..i]))
        invariant letters == old(letters) && hSocket.wire == old(hSocket.wire)
      {
        assert parts[..i + 1] == parts[..i] + [parts[i]];
        ConcatLast(parts[..i], parts[i]);
        Append(parts[i], pszCommand, Concat(parts[..i]));
        i := i + 1;
      }
      assert parts[..i] == parts;
      EndMessage(pszCommand, Concat(parts));
    }

    method FillHeader(ghost command: Bytes, ghost data: Bytes)
      requires magic.Ok() && Draft(command, data)
      modifies this`ssSend
      ensures ssSend == Framed(magic, command, data) && ssSend != []
    {
      hide ToLittleEndian, Command;
      SpliceHeader(magic, command, data, ssSend);
      var nSize := |ssSend| - HEADER_SIZE;
      ssSend := ssSend[..MESSAGE_SIZE_OFFSET] + ToLittleEndian(nSize, 4) + ssSend[CHECKSUM_OFFSET..];
      var nChecksum := magic.checksum(ssSend[HEADER_SIZE..]);
      ssSend := ssSend[..CHECKSUM_OFFSET] + nChecksum + ssSend[HEADER_SIZE..];
    }

    method Enqueue(ghost l: Letter)
      requires Valid() && ssSend == Framed(magic, l.command, l.data) && ssSend != []
      modifies this`vSendMsg, this`nSendSize, this`ssSend, this`letters
      ensures Valid() && ssSend == [] && letters == old(letters) + [l]
      ensures vSendMsg == old(vSendMsg) + [old(ssSend)]
    {
      hide Concat, AllFramed, Framed;
      QueueOne(vSendMsg, nSendOffset, ssSend);
      AllFramedLast(magic, letters, l);
      assert hSocket.wire + (Queued() + ssSend) == (hSocket.wire + Queued()) + ssSend;
      vSendMsg := vSendMsg + [ssSend];
      nSendSize := nSendSize + |ssSend|;
      ssSend := [];
      letters := letters + [l];
    }
  }

  lemma CommandAt(magic: Magic, command: Bytes, header: Bytes)
    requires magic.Ok() && header == magic.start + Command(command) + [0, 0, 0, 0] + [0, 0, 0, 0]
    ensures |header| == 24 && header[..4] == magic.start
    ensures 0 !in command ==> Text(header[4..16]) == Short(command)
  {
    hide Text, Command, Short;
    assert header[4..16] == Command(command);
    CommandBytes(command);
  }

  // ---- From one side to the other ----

  /** The receiver at the other end of the wire, whatever pieces the bytes come in: it never objects, what it has got
      are the first messages sent, and when all has been taken it has all of them. */
  method ReceiveFrom(sender: CSender, receiver: CReceiver, chunks: seq<Bytes>) returns (ok: bool)
    requires sender.Valid() && forall l :: l in sender.letters ==> |l.data| <= MAX_SIZE
    requires receiver.Valid() && receiver.vRecvMsg == []
    requires Concat(chunks) <= sender.hSocket.wire
    modifies receiver
    ensures ok && receiver.Valid() && Stream(receiver.Received()) == Concat(chunks)
    ensures var got, sent := receiver.Received(), Delivered(sender.magic, sender.letters);
      && |got| <= |sent|
      && (forall i :: 0 <= i < |got| && got[i].Complete() ==> got[i] == sent[i])
      && (Concat(chunks) == AllFramed(sender.magic, sender.letters) ==> got == sent)
    ensures var got, letters := receiver.Received(), sender.letters;
      |got| <= |letters| && forall i :: 0 <= i < |got| && got[i].Complete() ==> Carries(sender.magic, letters[i], got[i])
  {
    hide Carries, Parsed, Stream, WellFormed, AllFramed, Delivered, Concat;
    var k := 0;
    ghost var magic, letters, all := sender.magic, sender.letters, AllFramed(sender.magic, sender.letters);
    PrefixOfAll(sender.hSocket.wire, sender.Queued(), all, Concat(chunks));
    StreamOfNothing();
    while k < |chunks|
      invariant 0 <= k <= |chunks| && receiver.Valid() && Stream(receiver.Received()) == Concat(chunks[..k])
      invariant forall i :: 0 <= i < |receiver.vRecvMsg| ==> fresh(receiver.vRecvMsg[i])
    {
      ReceivedSoFar(chunks, k);
      Arrives(magic, letters, Concat(chunks[..k + 1]));
      ok := receiver.ReceiveMsgBytes(chunks[k]);
      assert forall i :: 0 <= i < |receiver.vRecvMsg| ==> receiver.vRecvMsg[i] in receiver.vRecvMsg;
      if !ok { return false; }
      StreamOfReceived(Concat(chunks[..k + 1]), receiver.Received());
      k := k + 1;
    }
    assert chunks[..k] == chunks;
    Arrives(magic, letters, Concat(chunks));
    StreamParsed(receiver.Received());
    ArrivesCarried(magic, letters, Concat(chunks), receiver.Received());
    return true;
  }

  lemma AllCarry(magic: Magic, letters: seq<Letter>)
    requires magic.Ok() && forall l :: l in letters ==> |l.data| <= MAX_SIZE
    ensures forall i :: 0 <= i < |letters| ==> Carries(magic, letters[i], Delivered(magic, letters)[i])
  {
    hide Carries, Delivered;
    forall i | 0 <= i < |letters| ensures Carries(magic, letters[i], Delivered(magic, letters)[i]) {
      assert letters[i] in letters;
      DeliveredCarries(magic, letters, i);
    }
  }

  lemma ArrivesCarried(magic: Magic, letters: seq<Letter>, got: Bytes, ms: seq<Msg>)
    requires magic.Ok() && (forall l :: l in letters ==> |l.data| <= MAX_SIZE) && got <= AllFramed(magic, letters)
    requires Parsed(got) == Some(ms)
    ensures |ms| <= |letters| && forall i :: 0 <= i < |ms| && ms[i].Complete() ==> Carries(magic, letters[i], ms[i])
  {
    hide Parsed, AllFramed, Delivered, Carries;
    Arrives(magic, letters, got);
    AllCarry(magic, letters);
  }

  lemma PrefixOfAll(wire: Bytes, queued: Bytes, all: Bytes, got: Bytes)
    requires wire + queued == all && got <= wire
    ensures got <= all
  {
  }

  lemma StreamOfNothing()
    ensures Stream([]) == [] && Concat([]) == []
  {
  }

  /** The bytes of the first chunks are a part of those of all. */
  lemma ReceivedSoFar(chunks: seq<Bytes>, k: nat)
    requires k < |chunks|
    ensures Concat(chunks[..k + 1]) <= Concat(chunks)
    ensures Concat(chunks[..k + 1]) == Concat(chunks[..k]) + chunks[k]
  {
    hide Concat;
    SplitAt(chunks, k);
    ConcatParts(chunks[..k + 1], chunks[k + 1..]);
    ConcatLast(chunks[..k], chunks[k]);
    IsPart(Concat(chunks), Concat(chunks[..k + 1]), Concat(chunks[k + 1..]));
  }

  lemma SplitAt(chunks: seq<Bytes>, k: nat)
    requires k < |chunks|
    ensures chunks[..k + 1] + chunks[k + 1..] == chunks && chunks[..k + 1] == chunks[..k] + [chunks[k]]
  {
  }

  lemma IsPart(s: Bytes, a: Bytes, b: Bytes)
    requires s == a + b
    ensures a <= s
  {
  }

  lemma {:induction false} ConcatParts(a: seq<Bytes>, b: seq<Bytes>)
    ensures Concat(a + b) == Concat(a) + Concat(b)
  {
    if a == [] {
      assert a + b == b;
    } else {
      assert (a + b)[1..] == a[1..] + b;
      ConcatParts(a[1..], b);
    }
  }

  lemma StreamOfReceived(s: Bytes, ms: seq<Msg>)
    requires Parsed(s) == Some(ms)
    ensures Stream(ms) == s
  {
    ParsedStream(s);
  }

  lemma Arrives(magic: Magic, letters: seq<Letter>, got: Bytes)
    requires magic.Ok() && (forall l :: l in letters ==> |l.data| <= MAX_SIZE) && got <= AllFramed(magic, letters)
    ensures Parsed(got).Some? && |Parsed(got).value| <= |letters|
    ensures forall i :: 0 <= i < |letters| && i < |Parsed(got).value| && Parsed(got).value[i].Complete() ==>
      Parsed(got).value[i] == Delivered(magic, letters)[i]
    ensures got == AllFramed(magic, letters) ==> Parsed(got).value == Delivered(magic, letters)
  {
    hide Parsed, AllFramed, Delivered;
    assert forall i :: 0 <= i < |letters| ==> letters[i] in letters;
    assert AllFramed(magic, letters)[..|got|] == got;
    PartlyArrived(magic, letters, |got|);
    FramedParsed(magic, letters);
  }

  /** The offset is inside the first entry, and no entry is empty. */
  ghost predicate Positioned(q: seq<Bytes>, offset: nat) {
    (forall i :: 0 <= i < |q| ==> q[i] != []) && if q == [] then offset == 0 else offset < |q[0]|
  }

  lemma PositionedWithin(q: seq<Bytes>, offset: nat)
    requires Positioned(q, offset)
    ensures offset <= |Concat(q)|
  {
  }

  ghost function Left(wire: Bytes, q: seq<Bytes>, offset: nat): Bytes
    requires Positioned(q, offset)
  {
    PositionedWithin(q, offset);
    wire + Concat(q)[offset..]
  }

  lemma LeftIs(wire: Bytes, q: seq<Bytes>, offset: nat)
    requires Positioned(q, offset)
    ensures offset <= |Concat(q)| && Left(wire, q, offset) == wire + Concat(q)[offset..]
  {
    PositionedWithin(q, offset);
  }

  lemma NothingLeft(q: seq<Bytes>, offset: nat)
    requires Positioned(q, offset)
    ensures q == [] ==> offset == 0 && Concat(q) == []
  {
  }

  lemma SentSome(wire: Bytes, q: seq<Bytes>, offset: nat, n: nat)
    requires Positioned(q, offset) && q != [] && offset + n <= |q[0]|
    ensures offset + n <= |Concat(q)|
    ensures (wire + q[0][offset..][..n]) + Concat(q)[offset + n..] == Left(wire, q, offset)
  {
    assert Concat(q)[offset..] == q[0][offset..][..n] + Concat(q)[offset + n..];
  }

  lemma SentAll(wire: Bytes, q: seq<Bytes>)
    requires q != [] && forall i :: 0 <= i < |q| ==> q[i] != []
    ensures Positioned(q[1..], 0) && |Concat(q)| == |q[0]| + |Concat(q[1..])|
    ensures Left(wire, q[1..], 0) == wire + Concat(q)[|q[0]|..]
  {
  }

  lemma QueueOne(q: seq<Bytes>, offset: nat, b: Bytes)
    requires Positioned(q, offset) && b != []
    ensures Positioned(q + [b], offset) && offset <= |Concat(q)|
    ensures Concat(q + [b])[offset..] == Concat(q)[offset..] + b && |Concat(q + [b])| == |Concat(q)| + |b|
  {
    ConcatLast(q, b);
    PositionedWithin(q, offset);
  }

  lemma SpliceHeader(magic: Magic, command: Bytes, data: Bytes, draft: Bytes)
    requires magic.Ok() && draft == magic.start + Command(command) + [0, 0, 0, 0] + [0, 0, 0, 0] + data
    ensures |draft| == HEADER_SIZE + |data| && Framed(magic, command, data) != []
    ensures var sized := draft[..MESSAGE_SIZE_OFFSET] + ToLittleEndian(|data|, 4) + draft[CHECKSUM_OFFSET..];
      && |sized| == |draft| && sized[HEADER_SIZE..] == data
      && sized[..CHECKSUM_OFFSET] + magic.checksum(data) + sized[HEADER_SIZE..] == Framed(magic, command, data)
  {
    hide ToLittleEndian, Command;
    var head := magic.start + Command(command);
    assert |head| == MESSAGE_SIZE_OFFSET;
    assert draft[..MESSAGE_SIZE_OFFSET] == head;
    var sized := draft[..MESSAGE_SIZE_OFFSET] + ToLittleEndian(|data|, 4) + draft[CHECKSUM_OFFSET..];
    assert sized[..CHECKSUM_OFFSET] == head + ToLittleEndian(|data|, 4);
    assert sized[HEADER_SIZE..] == data;
  }
}
