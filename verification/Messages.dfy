/**
 Handling what has come in: ProcessMessages in src/main.cpp, and the headers it reads in
 src/protocol.cpp.
 */
module Messages {
  import opened Framing
  import opened Net
  import opened ScriptCode
  import opened Wrappers

  // ---- Headers ----

  predicate Printable(b: Byte) { 0x20 <= b as int <= 0x7e }

  /** Printable text with nothing but zeros behind it. */
  predicate IsCommand(s: Bytes) {
    && (forall i :: 0 <= i < |Text(s)| ==> Printable(s[i]))
    && (forall i :: |Text(s)| <= i < |s| ==> s[i] == 0)
  }

  predicate HeaderOk(header: Bytes, start: Bytes)
    requires |header| == HEADER_SIZE
  {
    header[..4] == start && IsCommand(header[4..16]) && Size(header) <= MAX_SIZE
  }

  lemma {:induction false} TextEnds(s: Bytes, k: nat)
    requires k <= |s| && forall i :: 0 <= i < k ==> s[i] != 0
    ensures |Text(s)| >= k
    ensures k == |s| || s[k] == 0 ==> |Text(s)| == k
    decreases k
  {
    if k > 0 { TextEnds(s[1..], k - 1); }
  }

  /** The two loops over the letters of a command. */
  method CommandOk(pchCommand: Bytes) returns (ok: bool)
    ensures ok <==> IsCommand(pchCommand)
  {
    hide Text;
    var p1 := 0;
    while p1 < |pchCommand|
      invariant 0 <= p1 <= |pchCommand| && forall i :: 0 <= i < p1 ==> pchCommand[i] != 0 && Printable(pchCommand[i])
    {
      if pchCommand[p1] == 0 {
        TextEnds(pchCommand, p1);
        ghost var end := p1;
        while p1 < |pchCommand|
          invariant end <= p1 <= |pchCommand| && forall i :: end <= i < p1 ==> pchCommand[i] == 0
        {
          if pchCommand[p1] != 0 { return false; }
          p1 := p1 + 1;
        }
        return true;
      }
      if !Printable(pchCommand[p1]) {
        TextEnds(pchCommand, p1 + 1);
        return false;
      }
      p1 := p1 + 1;
    }
    TextEnds(pchCommand, p1);
    return true;
  }

  method IsValid(header: Bytes, start: Bytes) returns (ok: bool)
    requires |header| == HEADER_SIZE
    ensures ok <==> HeaderOk(header, start)
  {
    hide IsCommand, LittleEndian;
    if header[..4] != start { return false; }
    var commandOk := CommandOk(header[4..16]);
    if !commandOk { return false; }
    return Size(header) <= MAX_SIZE;
  }

  /** All twelve bytes when the last is not zero, and otherwise the text before the first zero; of a valid command that
      is its text. */
  method GetCommand(pchCommand: Bytes) returns (strCommand: Bytes)
    requires |pchCommand| == 12
    ensures strCommand == if pchCommand[11] == 0 then Text(pchCommand) else pchCommand
    ensures IsCommand(pchCommand) ==> strCommand == Text(pchCommand)
  {
    hide Text;
    if pchCommand[11] != 0 { return pchCommand; }
    var n := 0;
    while pchCommand[n] != 0
      invariant 0 <= n <= 11 && forall i :: 0 <= i < n ==> pchCommand[i] != 0
      decreases 11 - n
    {
      n := n + 1;
    }
    TextEnds(pchCommand, n);
    return pchCommand[..n];
  }

  // ---- What is handled ----

  /** A message that is handled, and the letter in it. */
  ghost predicate Good(magic: Magic, m: Msg) {
    m.Complete() && HeaderOk(m.header, magic.start) && m.header[20..] == magic.checksum(m.data)
  }

  ghost function LetterOf(m: Msg): Letter
    requires m.Complete()
  {
    Letter(Text(m.header[4..16]), m.data)
  }

  /** A letter that a node can send: printable, and not too long. */
  predicate Sendable(l: Letter) {
    |l.command| <= 12 && (forall b :: b in l.command ==> 0x20 <= b <= 0x7e) && |l.data| <= 0x0200_0000
  }

  /** The messages that are handled are exactly those that carry a letter, and it is that letter. */
  lemma GoodCarries(magic: Magic, m: Msg, l: Letter)
    requires magic.Ok() && m.Ok()
    ensures Sendable(l) && Carries(magic, l, m) <==> Good(magic, m) && l == LetterOf(m)
  {
    hide Text, LittleEndian;
    if Good(magic, m) && l == LetterOf(m) {
      var pch := m.header[4..16];
      forall b | b in l.command ensures 0x20 <= b <= 0x7e {
        var i :| 0 <= i < |l.command| && l.command[i] == b;
        assert pch[i] == b && Printable(pch[i]);
      }
      forall i | 4 + |Short(l.command)| <= i < 16 ensures m.header[i] == 0 { assert m.header[i] == pch[i - 4]; }
    }
    if Sendable(l) && Carries(magic, l, m) {
      var pch := m.header[4..16];
      assert 0 !in l.command;
      assert Text(pch) == l.command;
      forall i | 0 <= i < |Text(pch)| ensures Printable(pch[i]) { assert pch[i] == l.command[i] && l.command[i] in l.command; }
      forall i | |Text(pch)| <= i < 12 ensures pch[i] == 0 { assert pch[i] == m.header[i + 4]; }
    }
  }

  /** What one call makes of the messages that are there: whether the connection can stay, the letter that was handled,
      and how many messages are taken away. */
  datatype Turn = Turn(fOk: bool, handled: Option<Letter>, taken: nat)

  /** Messages with errors are passed over; one with another network's magic ends the connection; one that is good is
      handled, and is the last in this turn. */
  ghost predicate TurnIs(magic: Magic, ms: seq<Msg>, r: Turn) {
    && r.taken <= |ms|
    && (forall i :: 0 <= i < r.taken - 1 ==> PassedOver(magic, ms[i]))
    && match r
       case Turn(true, Some(l), n) => n > 0 && Good(magic, ms[n - 1]) && l == LetterOf(ms[n - 1])
       case Turn(true, None, n) =>
         (n > 0 ==> PassedOver(magic, ms[n - 1])) && (n < |ms| ==> !ms[n].Complete())
       case Turn(false, _, n) => r.handled.None? && n > 0 && ms[n - 1].Complete() && ms[n - 1].header[..4] != magic.start
  }

  ghost predicate PassedOver(magic: Magic, m: Msg) {
    m.Complete() && m.header[..4] == magic.start && !Good(magic, m)
  }

  /** One turn of the handler.  Nothing happens while replies are pending or the send buffer is full. */
  method ProcessMessages(receiver: CReceiver, magic: Magic, busy: bool) returns (fOk: bool, handled: Option<Letter>)
    requires receiver.Valid() && magic.Ok()
    modifies receiver
    ensures receiver.Valid()
    ensures busy ==> fOk && handled.None? && receiver.Received() == old(receiver.Received())
    ensures !busy ==>
      var taken := |old(receiver.Received())| - |receiver.Received()|;
      && taken >= 0 && receiver.Received() == old(receiver.Received())[taken..]
      && TurnIs(magic, old(receiver.Received()), Turn(fOk, handled, taken))
    ensures forall m :: m in receiver.vRecvMsg ==> m in old(receiver.vRecvMsg)
  {
    hide Good, LetterOf, TurnIs, PassedOver, WellFormed, Views;
    fOk, handled := true, None;
    if busy { return; }
    ghost var ms := receiver.Received();
    var it, go := 0, true;
    while go && it < |receiver.vRecvMsg|
      invariant 0 <= it <= |ms| && |receiver.vRecvMsg| == |ms|
      invariant receiver.Valid() && receiver.Received() == ms && receiver.vRecvMsg == old(receiver.vRecvMsg)
      invariant go ==> AllPassed(magic, ms, it)
      invariant go ==> fOk && handled.None?
      invariant !go ==> TurnIs(magic, ms, Turn(fOk, handled, it))
      decreases go, |ms| - it
    {
      var msg := receiver.vRecvMsg[it];
      ViewsAt(receiver.vRecvMsg, it);
      if msg.Complete() {
        fOk, handled := Handle(msg, magic);
      }
      TurnGoesOn(magic, ms, it, fOk, handled);
      go := msg.Complete() && fOk && handled.None?;
      if msg.Complete() { it := it + 1; }
    }
    if go { TurnEnds(magic, ms, it); }
    KeepRest(receiver, it);
  }

  ghost predicate AllPassed(magic: Magic, ms: seq<Msg>, n: nat) {
    n <= |ms| && forall i :: 0 <= i < n ==> PassedOver(magic, ms[i])
  }

  lemma TurnEnds(magic: Magic, ms: seq<Msg>, n: nat)
    requires AllPassed(magic, ms, n) && n == |ms|
    ensures TurnIs(magic, ms, Turn(true, None, n))
  {
    hide Good, LetterOf, PassedOver;
  }

  lemma TurnGoesOn(magic: Magic, ms: seq<Msg>, n: nat, fOk: bool, handled: Option<Letter>)
    requires AllPassed(magic, ms, n) && n < |ms|
    requires (if ms[n].Complete() then
      && (fOk <==> ms[n].header[..4] == magic.start) && (handled.Some? <==> Good(magic, ms[n]))
      && (handled.Some? ==> handled.value == LetterOf(ms[n]))
      else fOk && handled.None?)
    ensures !ms[n].Complete() ==> TurnIs(magic, ms, Turn(fOk, handled, n))
    ensures ms[n].Complete() && fOk && handled.None? ==> AllPassed(magic, ms, n + 1)
    ensures ms[n].Complete() && !(fOk && handled.None?) ==> TurnIs(magic, ms, Turn(fOk, handled, n + 1))
  {
    hide LittleEndian, IsCommand, LetterOf;
  }

  /** Forgets the first messages. */
  method KeepRest(receiver: CReceiver, n: nat)
    requires receiver.Valid() && n <= |receiver.vRecvMsg|
    modifies receiver
    ensures receiver.Valid() && receiver.Received() == old(receiver.Received())[n..]
    ensures receiver.vRecvMsg == old(receiver.vRecvMsg)[n..]
  {
    hide WellFormed;
    ghost var ms := receiver.Received();
    ViewsRest(receiver.vRecvMsg, n);
    RestWellFormed(ms, n);
    receiver.vRecvMsg := receiver.vRecvMsg[n..];
  }

  lemma RestWellFormed(ms: seq<Msg>, n: nat)
    requires WellFormed(ms) && n <= |ms|
    ensures WellFormed(ms[n..])
  {
  }

  lemma {:induction false} ViewsRest(ms: seq<CNetMessage>, n: nat)
    requires (forall m :: m in ms ==> m.Valid()) && n <= |ms|
    ensures Views(ms[n..]) == Views(ms)[n..]
    decreases |ms|
  {
    if n < |ms| {
      var rest := ms[..|ms| - 1];
      ViewsRest(rest, n);
      assert ms[n..][..|ms[n..]| - 1] == rest[n..];
    }
  }

  /** The body of the loop, for one complete message. */
  method Handle(msg: CNetMessage, magic: Magic) returns (fOk: bool, handled: Option<Letter>)
    requires msg.Valid() && msg.Complete() && magic.Ok()
    ensures fOk <==> msg.View().header[..4] == magic.start
    ensures handled.Some? <==> Good(magic, msg.View())
    ensures handled.Some? ==> handled.value == LetterOf(msg.View())
  {
    hide Text, LittleEndian, IsCommand;
    var header := msg.hdrbuf;
    assert header[..msg.nHdrPos] == header && msg.View().header == header;
    assert msg.vRecv[..msg.nDataPos] == msg.vRecv;
    if header[..4] != magic.start { return false, None; }
    var valid := IsValid(header, magic.start);
    if !valid { return true, None; }
    var strCommand := GetCommand(header[4..16]);
    if magic.checksum(msg.vRecv) != header[20..] { return true, None; }
    return true, Some(Letter(strCommand, msg.vRecv));
  }

  lemma {:induction false} ViewsAt(ms: seq<CNetMessage>, k: nat)
    requires (forall m :: m in ms ==> m.Valid()) && k < |ms|
    ensures Views(ms)[k] == ms[k].View()
    decreases |ms|
  {
    if k < |ms| - 1 {
      assert ms[..|ms| - 1][k] == ms[k];
      ViewsAt(ms[..|ms| - 1], k);
    }
  }

  // ---- From one node to the other ----

  /** Something happens on the receiving side: bytes come in, or the handler has its turn. */
  datatype Event = Arrive(pch: Bytes) | Serve(busy: bool)

  function Arrived(events: seq<Event>): seq<Bytes> {
    if events == [] then []
    else (if events[0].Arrive? then [events[0].pch] else []) + Arrived(events[1..])
  }

  /** How far the receiver is: the first letters have been handled, and the messages that it still holds are what has
      come in of the following ones. */
  ghost predicate Reached(magic: Magic, letters: seq<Letter>, handled: seq<Letter>, ms: seq<Msg>, bytes: Bytes) {
    && |handled| + |ms| <= |letters| && handled == letters[..|handled|] && WellFormed(ms)
    && bytes == Stream(Delivered(magic, letters)[..|handled|]) + Stream(ms)
    && forall i :: 0 <= i < |ms| && ms[i].Complete() ==> ms[i] == Delivered(magic, letters)[|handled| + i]
  }

  ghost predicate AllSendable(letters: seq<Letter>) {
    forall i :: 0 <= i < |letters| ==> Sendable(letters[i])
  }

  lemma NothingReached(magic: Magic, letters: seq<Letter>)
    ensures Reached(magic, letters, [], [], [])
  {
    assert Delivered(magic, letters)[..0] == [];
  }

  /** More bytes of what was sent: the receiver accepts them, and holds what they complete. */
  lemma ArrivalReaches(magic: Magic, letters: seq<Letter>, handled: seq<Letter>, ms: seq<Msg>, bytes: Bytes, pch: Bytes)
    requires magic.Ok() && AllSendable(letters) && Reached(magic, letters, handled, ms, bytes)
    requires bytes + pch <= AllFramed(magic, letters)
    ensures Parsed(Stream(ms) + pch).Some?
    ensures Reached(magic, letters, handled, Parsed(Stream(ms) + pch).value, bytes + pch)
  {
    hide Parsed, Stream, Delivered, AllFramed, WellFormed;
    var done, s := Delivered(magic, letters)[..|handled|], Stream(ms) + pch;
    FramedParsed(magic, letters);
    AllCompleteUpTo(Delivered(magic, letters), |handled|);
    assert bytes + pch == Stream(done) + s;
    ParsedAfter(done, s);
    Arrives(magic, letters, bytes + pch);
    ParsedStream(s);
    var ns := Parsed(s).value;
    forall i | 0 <= i < |ns| && ns[i].Complete() ensures ns[i] == Delivered(magic, letters)[|handled| + i] {
      assert (done + ns)[|handled| + i] == ns[i];
    }
  }

  lemma AllCompleteUpTo(ms: seq<Msg>, n: nat)
    requires AllComplete(ms) && n <= |ms|
    ensures AllComplete(ms[..n])
  {
  }

  /** A turn handles the next letter when its message is complete, and does nothing otherwise. */
  lemma TurnReaches(magic: Magic, letters: seq<Letter>, handled: seq<Letter>, ms: seq<Msg>, bytes: Bytes, r: Turn)
    requires magic.Ok() && AllSendable(letters) && Reached(magic, letters, handled, ms, bytes) && TurnIs(magic, ms, r)
    ensures ms == [] || !ms[0].Complete() ==> r == Turn(true, None, 0)
    ensures ms != [] && ms[0].Complete() ==>
      r == Turn(true, Some(letters[|handled|]), 1) && Reached(magic, letters, handled + [letters[|handled|]], ms[1..], bytes)
  {
    hide Stream, Delivered, AllFramed, LetterOf, Carries, Good;
    if ms != [] && ms[0].Complete() {
      var l := letters[|handled|];
      DeliveredCarries(magic, letters, |handled|);
      GoodCarries(magic, ms[0], l);
      FirstIsHandled(magic, ms, r);
      var sent := Delivered(magic, letters);
      assert sent[..|handled| + 1] == sent[..|handled|] + [ms[0]] && ms == [ms[0]] + ms[1..];
      StreamJoin(sent[..|handled|], [ms[0]]);
      StreamJoin([ms[0]], ms[1..]);
      RestWellFormed(ms, 1);
      assert Stream(sent[..|handled|]) + (Stream([ms[0]]) + Stream(ms[1..]))
          == (Stream(sent[..|handled|]) + Stream([ms[0]])) + Stream(ms[1..]);
    } else if r.taken > 0 {
      FirstIsComplete(magic, ms, r);
    }
  }

  lemma FirstIsHandled(magic: Magic, ms: seq<Msg>, r: Turn)
    requires ms != [] && Good(magic, ms[0]) && TurnIs(magic, ms, r)
    ensures r == Turn(true, Some(LetterOf(ms[0])), 1)
  {
    hide LittleEndian, IsCommand, LetterOf, PassedOver;
    NotBoth(magic, ms[0]);
    GoodHasMagic(magic, ms[0]);
  }

  lemma NotBoth(magic: Magic, m: Msg)
    ensures !(Good(magic, m) && PassedOver(magic, m))
  {
  }

  lemma GoodHasMagic(magic: Magic, m: Msg)
    requires Good(magic, m)
    ensures m.Complete() && m.header[..4] == magic.start
  {
  }

  lemma FirstIsComplete(magic: Magic, ms: seq<Msg>, r: Turn)
    requires TurnIs(magic, ms, r) && r.taken > 0
    ensures ms[0].Complete()
  {
    hide LittleEndian, IsCommand, LetterOf;
    if r.taken >= 2 { assert PassedOver(magic, ms[0]); }
  }

  /** When everything has come in, what is not handled yet is complete. */
  lemma AllReached(magic: Magic, letters: seq<Letter>, handled: seq<Letter>, ms: seq<Msg>)
    requires magic.Ok() && AllSendable(letters) && Reached(magic, letters, handled, ms, AllFramed(magic, letters))
    ensures |handled| + |ms| == |letters| && forall i :: 0 <= i < |ms| ==> ms[i].Complete()
  {
    hide Parsed, Stream, Delivered, AllFramed;
    var sent := Delivered(magic, letters);
    FramedParsed(magic, letters);
    AllCompleteUpTo(sent, |handled|);
    ParsedAfter(sent[..|handled|], Stream(ms));
    StreamParsed(ms);
    assert sent == sent[..|handled|] + ms;
    forall i | 0 <= i < |ms| ensures ms[i].Complete() { assert ms[i] == sent[|handled| + i]; }
  }

  /** A node that others send printable commands to: whatever pieces the bytes come in and whenever the handler has its
      turns, it handles the letters in the order in which they were sent, each of them once and unchanged; and when it
      goes on until it finds nothing complete, it has handled all that have come in. */
  method ServeAll(sender: CSender, receiver: CReceiver, events: seq<Event>) returns (ok: bool, handled: seq<Letter>)
    requires sender.Valid() && AllSendable(sender.letters)
    requires receiver.Valid() && receiver.vRecvMsg == []
    requires Concat(Arrived(events)) <= sender.hSocket.wire
    modifies receiver
    ensures ok && receiver.Valid()
    ensures Reached(sender.magic, sender.letters, handled, receiver.Received(), Concat(Arrived(events)))
    ensures receiver.Received() == [] || !receiver.Received()[0].Complete()
    ensures Concat(Arrived(events)) == AllFramed(sender.magic, sender.letters) ==> handled == sender.letters
  {
    hide Parsed, Stream, WellFormed, AllFramed, Delivered, Concat, Views, Reached, TurnIs, AllSendable, Arrived;
    ghost var magic, letters, all := sender.magic, sender.letters, AllFramed(sender.magic, sender.letters);
    PrefixOfAll(sender.hSocket.wire, sender.Queued(), all, Concat(Arrived(events)));
    ok, handled := true, [];
    var k := 0;
    NothingReached(magic, letters);
    NothingArrived();
    assert events[..0] == [];
    while k < |events|
      invariant 0 <= k <= |events| && receiver.Valid()
      invariant forall i :: 0 <= i < |receiver.vRecvMsg| ==> fresh(receiver.vRecvMsg[i])
      invariant Reached(magic, letters, handled, receiver.Received(), Concat(Arrived(events[..k])))
    {
      ArrivedSoFar(events, k);
      ghost var before := receiver.vRecvMsg;
      assert forall m :: m in before ==> fresh(m);
      match events[k] {
        case Arrive(pch) =>
          ArrivalReaches(magic, letters, handled, receiver.Received(), Concat(Arrived(events[..k])), pch);
          ok := receiver.ReceiveMsgBytes(pch);
          if !ok { return; }
        case Serve(busy) =>
          ok, handled := OneTurn(receiver, sender.magic, busy, letters, handled, Concat(Arrived(events[..k])));
          if !ok { return; }
      }
      assert forall m :: m in receiver.vRecvMsg ==> m in before || fresh(m);
      assert forall i :: 0 <= i < |receiver.vRecvMsg| ==> receiver.vRecvMsg[i] in receiver.vRecvMsg;
      k := k + 1;
    }
    assert events[..k] == events;
    while |receiver.vRecvMsg| > 0 && receiver.vRecvMsg[0].Complete()
      invariant receiver.Valid() && ok
      invariant Reached(magic, letters, handled, receiver.Received(), Concat(Arrived(events)))
      decreases |receiver.vRecvMsg|
    {
      ViewsAt(receiver.vRecvMsg, 0);
      ok, handled := OneTurn(receiver, sender.magic, false, letters, handled, Concat(Arrived(events)));
      if !ok { return; }
    }
    if |receiver.vRecvMsg| > 0 { ViewsAt(receiver.vRecvMsg, 0); }
    if Concat(Arrived(events)) == all {
      AllReached(magic, letters, handled, receiver.Received());
      AllHandled(magic, letters, handled, receiver.Received(), all);
    }
  }

  lemma AllHandled(magic: Magic, letters: seq<Letter>, handled: seq<Letter>, ms: seq<Msg>, bytes: Bytes)
    requires Reached(magic, letters, handled, ms, bytes) && |handled| == |letters|
    ensures handled == letters
  {
    hide Stream, Delivered, WellFormed;
  }

  lemma NothingArrived()
    ensures Arrived([]) == [] && Concat([]) == []
  {
  }

  lemma {:induction false} ArrivedJoin(a: seq<Event>, b: seq<Event>)
    ensures Arrived(a + b) == Arrived(a) + Arrived(b)
  {
    if a == [] {
      assert a + b == b;
    } else {
      assert (a + b)[1..] == a[1..] + b;
      ArrivedJoin(a[1..], b);
    }
  }

  /** The bytes that have come in up to an event are the first of all. */
  lemma ArrivedSoFar(events: seq<Event>, k: nat)
    requires k < |events|
    ensures Concat(Arrived(events[..k + 1])) <= Concat(Arrived(events))
    ensures (Concat(Arrived(events[..k + 1])) ==
      if events[k].Arrive? then Concat(Arrived(events[..k])) + events[k].pch else Concat(Arrived(events[..k])))
  {
    hide Concat;
    assert events == events[..k + 1] + events[k + 1..] && events[..k + 1] == events[..k] + [events[k]];
    ArrivedJoin(events[..k + 1], events[k + 1..]);
    ArrivedJoin(events[..k], [events[k]]);
    ConcatParts(Arrived(events[..k + 1]), Arrived(events[k + 1..]));
    IsPart(Concat(Arrived(events)), Concat(Arrived(events[..k + 1])), Concat(Arrived(events[k + 1..])));
    OneArrives(events[k]);
    if events[k].Arrive? {
      ConcatLast(Arrived(events[..k]), events[k].pch);
    } else {
      assert Arrived(events[..k]) + [] == Arrived(events[..k]);
    }
  }

  lemma OneArrives(e: Event)
    ensures Arrived([e]) == if e.Arrive? then [e.pch] else []
  {
    assert [e][1..] == [];
  }

  /** A turn of the handler on the way. */
  method OneTurn(receiver: CReceiver, magic: Magic, busy: bool, ghost letters: seq<Letter>, handled0: seq<Letter>,
                 ghost bytes: Bytes)
    returns (ok: bool, handled: seq<Letter>)
    requires receiver.Valid() && magic.Ok() && AllSendable(letters)
    requires Reached(magic, letters, handled0, receiver.Received(), bytes)
    modifies receiver
    ensures ok && receiver.Valid() && Reached(magic, letters, handled, receiver.Received(), bytes)
    ensures forall m :: m in receiver.vRecvMsg ==> m in old(receiver.vRecvMsg)
    ensures (!busy && old(receiver.Received()) != [] && old(receiver.Received())[0].Complete() ==>
      |handled| == |handled0| + 1 && |receiver.vRecvMsg| < |old(receiver.vRecvMsg)|)
  {
    hide Reached, TurnIs, AllSendable, WellFormed, Views;
    ghost var ms := receiver.Received();
    var letter: Option<Letter>;
    ok, letter := ProcessMessages(receiver, magic, busy);
    TurnDone(magic, letters, handled0, ms, bytes, busy, ok, letter, receiver.Received());
    handled := Counted(handled0, letter);
  }

  function Counted(handled: seq<Letter>, letter: Option<Letter>): seq<Letter> {
    if letter.Some? then handled + [letter.value] else handled
  }

  lemma TurnDone(magic: Magic, letters: seq<Letter>, handled: seq<Letter>, ms: seq<Msg>, bytes: Bytes, busy: bool,
                 ok: bool, letter: Option<Letter>, after: seq<Msg>)
    requires magic.Ok() && AllSendable(letters) && Reached(magic, letters, handled, ms, bytes)
    requires busy ==> ok && letter.None? && after == ms
    requires !busy ==>
      |after| <= |ms| && after == ms[|ms| - |after|..] && TurnIs(magic, ms, Turn(ok, letter, |ms| - |after|))
    ensures ok && Reached(magic, letters, Counted(handled, letter), after, bytes)
    ensures !busy && ms != [] && ms[0].Complete() ==> letter.Some? && |after| < |ms|
  {
    hide Reached, TurnIs, AllSendable, WellFormed;
    if !busy {
      TurnReaches(magic, letters, handled, ms, bytes, Turn(ok, letter, |ms| - |after|));
      if |after| == |ms| { assert ms[0..] == ms; }
      if letter.Some? { NextLetter(magic, letters, handled, ms, bytes); }
    }
  }

  lemma NextLetter(magic: Magic, letters: seq<Letter>, handled: seq<Letter>, ms: seq<Msg>, bytes: Bytes)
    requires Reached(magic, letters, handled, ms, bytes)
    ensures |handled| + |ms| <= |letters|
  {
  }
}
