/**
 The stream of messages between nodes: what src/net.cpp and src/net.h make of it.

 A message is a header of 24 bytes, which holds the length of what follows, and that many
 bytes.  `Parsed` cuts a stream into messages; the last one may still be incomplete.
 */
module Framing {
  import opened ScriptCode
  import opened Wrappers

  const HEADER_SIZE: nat := 24
  const MESSAGE_SIZE_OFFSET: nat := 16
  const CHECKSUM_OFFSET: nat := 20
  const MAX_SIZE: nat := 0x0200_0000

  /** The part of a message that is there. */
  datatype Msg = Msg(header: Bytes, data: Bytes)
  {
    /** Data only after the whole header, and no more of it than the header says. */
    predicate Ok() {
      && |header| <= HEADER_SIZE
      && (|header| < HEADER_SIZE ==> data == [])
      && (|header| == HEADER_SIZE ==> |data| <= Size(header) <= MAX_SIZE)
    }

    predicate Complete() { |header| == HEADER_SIZE && |data| == Size(header) }

    function Bytes(): Wrappers.Bytes { header + data }
  }

  /** The length a header announces. */
  function Size(header: Bytes): nat
    requires |header| == HEADER_SIZE
  {
    LittleEndian(header[MESSAGE_SIZE_OFFSET..CHECKSUM_OFFSET])
  }

  function Stream(ms: seq<Msg>): Bytes {
    if ms == [] then [] else ms[0].Bytes() + Stream(ms[1..])
  }

  /** None when a header announces too much. */
  function Parsed(s: Bytes): Option<seq<Msg>>
    decreases |s|
  {
    if s == [] then Some([])
    else if |s| < HEADER_SIZE then Some([Msg(s, [])])
    else
      var header := s[..HEADER_SIZE];
      var end := HEADER_SIZE + Size(header);
      if Size(header) > MAX_SIZE then None
      else if |s| <= end then Some([Msg(header, s[HEADER_SIZE..])])
      else match Parsed(s[end..])
        case None => None
        case Some(later) => Some([Msg(header, s[HEADER_SIZE..end])] + later)
  }

  /** Only the last message may be incomplete, and it is not empty. */
  ghost predicate WellFormed(ms: seq<Msg>) {
    && (forall i :: 0 <= i < |ms| ==> ms[i].Ok())
    && (forall i :: 0 <= i < |ms| - 1 ==> ms[i].Complete())
    && (forall i :: 0 <= i < |ms| ==> ms[i].header != [])
  }

  ghost predicate AllComplete(ms: seq<Msg>) {
    WellFormed(ms) && forall i :: 0 <= i < |ms| ==> ms[i].Complete()
  }

  lemma StreamFirst(m: Msg, later: seq<Msg>)
    ensures Stream([m] + later) == m.Bytes() + Stream(later)
    ensures m.Ok() && m.header != [] && (later != [] ==> m.Complete()) && WellFormed(later) ==> WellFormed([m] + later)
  {
    hide LittleEndian;
    var ms := [m] + later;
    assert ms[0] == m && ms[1..] == later;
    assert forall i :: 1 <= i < |ms| ==> ms[i] == later[i - 1];
  }

  /** Parsing loses nothing. */
  lemma {:induction false} ParsedStream(s: Bytes)
    requires Parsed(s).Some?
    ensures WellFormed(Parsed(s).value) && Stream(Parsed(s).value) == s
    decreases |s|
  {
    hide LittleEndian, WellFormed, Stream;
    NoMessages();
    if |s| >= HEADER_SIZE && |s| > HEADER_SIZE + Size(s[..HEADER_SIZE]) {
      var end := HEADER_SIZE + Size(s[..HEADER_SIZE]);
      ParsedStream(s[end..]);
      var first, later := Msg(s[..HEADER_SIZE], s[HEADER_SIZE..end]), Parsed(s[end..]).value;
      StreamFirst(first, later);
      assert Parsed(s).value == [first] + later;
      assert first.Bytes() + s[end..] == s;
    } else if s != [] {
      var first := Parsed(s).value[0];
      StreamFirst(first, []);
      assert Parsed(s).value == [first] + [];
      assert first.Bytes() == s;
    }
  }

  lemma NoMessages()
    ensures WellFormed([]) && Stream([]) == []
  {
  }

  /** A complete message is cut off, and parsing starts afresh behind it. */
  lemma ParsedFirst(m: Msg, rest: Bytes)
    requires m.Ok() && m.Complete()
    ensures Parsed(m.Bytes() + rest) == match Parsed(rest) case None => None case Some(later) => Some([m] + later)
  {
    hide LittleEndian;
    var s, end := m.Bytes() + rest, HEADER_SIZE + |m.data|;
    assert s[..HEADER_SIZE] == m.header && s[HEADER_SIZE..end] == m.data && s[end..] == rest;
    if rest == [] {
      assert s[HEADER_SIZE..] == m.data;
      assert [m] + [] == [m];
    }
  }

  /** And there is only one way to cut a stream: how its bytes came in makes no difference. */
  lemma {:induction false} StreamParsed(ms: seq<Msg>)
    requires WellFormed(ms)
    ensures Parsed(Stream(ms)) == Some(ms)
  {
    hide LittleEndian;
    if ms != [] {
      var m, later := ms[0], ms[1..];
      assert WellFormed(later);
      StreamParsed(later);
      assert ms == [m] + later;
      if later == [] {
        var s := Stream(ms);
        assert s == m.Bytes() && ms == [m];
        if |m.header| == HEADER_SIZE {
          assert s[..HEADER_SIZE] == m.header && s[HEADER_SIZE..] == m.data;
        } else {
          assert s == m.header;
        }
      } else {
        ParsedFirst(m, Stream(later));
      }
    }
  }

  lemma {:induction false} StreamJoin(ms: seq<Msg>, ns: seq<Msg>)
    ensures Stream(ms + ns) == Stream(ms) + Stream(ns)
  {
    if ms == [] {
      assert ms + ns == ns;
    } else {
      assert (ms + ns)[1..] == ms[1..] + ns;
      StreamJoin(ms[1..], ns);
    }
  }

  /** After complete messages parsing starts afresh. */
  lemma {:induction false} ParsedAfter(ms: seq<Msg>, s: Bytes)
    requires AllComplete(ms)
    ensures Parsed(Stream(ms) + s) == match Parsed(s) case None => None case Some(later) => Some(ms + later)
  {
    hide Parsed;
    if ms == [] {
      assert Stream(ms) + s == s;
      if Parsed(s).Some? { assert ms + Parsed(s).value == Parsed(s).value; }
    } else {
      var m, rest := ms[0], Stream(ms[1..]) + s;
      assert AllComplete(ms[1..]);
      ParsedAfter(ms[1..], s);
      assert Stream(ms) + s == m.Bytes() + rest;
      ParsedFirst(m, rest);
      if Parsed(s).Some? { assert ms + Parsed(s).value == [m] + (ms[1..] + Parsed(s).value); }
    }
  }

  /** A stream that is cut without objection had no objection before, and what was complete then has not changed. */
  lemma {:induction false} ParsedPrefix(s: Bytes, t: Bytes)
    requires Parsed(s + t).Some?
    ensures Parsed(s).Some? && |Parsed(s).value| <= |Parsed(s + t).value|
    ensures forall i :: 0 <= i < |Parsed(s).value| && Parsed(s).value[i].Complete() ==>
      Parsed(s).value[i] == Parsed(s + t).value[i]
    decreases |s|
  {
    hide LittleEndian;
    if |s| >= HEADER_SIZE {
      assert (s + t)[..HEADER_SIZE] == s[..HEADER_SIZE];
      var end := HEADER_SIZE + Size(s[..HEADER_SIZE]);
      if |s| > end {
        assert (s + t)[end..] == s[end..] + t && (s + t)[HEADER_SIZE..end] == s[HEADER_SIZE..end];
        ParsedPrefix(s[end..], t);
      } else if |s| == end && t != [] {
        assert (s + t)[HEADER_SIZE..end] == s[HEADER_SIZE..];
      } else if t == [] {
        assert s + t == s;
      }
    }
  }

  // ---- What a sender writes ----

  /** A command as its twelve bytes. */
  function Command(c: Bytes): (r: Bytes)
    ensures |r| == 12
  {
    if |c| >= 12 then c[..12] else c + seq(12 - |c|, _ => 0)
  }

  /** Text up to the first zero. */
  function Text(s: Bytes): (r: Bytes)
    ensures r <= s && 0 !in r
    ensures |r| < |s| ==> s[|r|] == 0
  {
    if s == [] || s[0] == 0 then [] else [s[0]] + Text(s[1..])
  }

  lemma {:induction false} TextBeforeZeros(c: Bytes, zeros: Bytes)
    requires 0 !in c && forall i :: 0 <= i < |zeros| ==> zeros[i] == 0
    ensures Text(c + zeros) == c
  {
    if c == [] {
      assert c + zeros == zeros;
    } else {
      assert c[0] in c && (c + zeros)[1..] == c[1..] + zeros;
      TextBeforeZeros(c[1..], zeros);
    }
  }

  /** A short command stands in its twelve bytes with zeros behind it, of a longer one the first twelve letters; up to
      the first zero they read back as that. */
  lemma CommandBytes(c: Bytes)
    ensures |c| <= 12 ==> Command(c)[..|c|] == c && forall i :: |c| <= i < 12 ==> Command(c)[i] == 0
    ensures |c| > 12 ==> Command(c) == c[..12]
    ensures 0 !in c ==> Text(Command(c)) == if |c| <= 12 then c else c[..12]
  {
    if |c| <= 12 {
      var zeros := Command(c)[|c|..];
      assert Command(c) == c + zeros;
      if 0 !in c { TextBeforeZeros(c, zeros); }
    } else if 0 !in c {
      assert forall b :: b in c[..12] ==> b in c;
      TextBeforeZeros(c[..12], []);
      assert c[..12] + [] == c[..12];
    }
  }

  /** The first twelve letters of a command. */
  function Short(command: Bytes): (r: Bytes)
    ensures |r| <= 12 && r <= command && (|command| <= 12 ==> r == command) && (|command| > 12 ==> |r| == 12)
  {
    if |command| <= 12 then command else command[..12]
  }

  /** What a node needs to know to write a header: the network's magic bytes and the checksum. */
  datatype Magic = Magic(start: Bytes, checksum: Bytes -> Bytes)
  {
    ghost predicate Ok() {
      |start| == 4 && forall data :: |checksum(data)| == 4
    }
  }

  /** The bytes of one message; its length is held in 32 bits. */
  function Framed(magic: Magic, command: Bytes, data: Bytes): Bytes {
    magic.start + Command(command) + ToLittleEndian(|data|, 4) + magic.checksum(data) + data
  }

  lemma FramedIsMessage(magic: Magic, command: Bytes, data: Bytes)
    requires magic.Ok() && |data| <= MAX_SIZE
    ensures var s := Framed(magic, command, data);
      && |s| == HEADER_SIZE + |data| && s[HEADER_SIZE..] == data
      && s[..HEADER_SIZE] == magic.start + Command(command) + ToLittleEndian(|data|, 4) + magic.checksum(data)
      && Msg(s[..HEADER_SIZE], data).Ok() && Msg(s[..HEADER_SIZE], data).Complete()
  {
    var header := magic.start + Command(command) + ToLittleEndian(|data|, 4) + magic.checksum(data);
    assert |header| == HEADER_SIZE;
    assert Framed(magic, command, data) == header + data;
    assert header[MESSAGE_SIZE_OFFSET..CHECKSUM_OFFSET] == ToLittleEndian(|data|, 4);
    LittleEndianBack(|data|, 4);
    assert Pow256(4) == 256 * 256 * 256 * 256;
  }

  datatype Letter = Letter(command: Bytes, data: Bytes)

  function AllFramed(magic: Magic, ls: seq<Letter>): Bytes {
    if ls == [] then [] else Framed(magic, ls[0].command, ls[0].data) + AllFramed(magic, ls[1..])
  }

  function Delivered(magic: Magic, ls: seq<Letter>): (ms: seq<Msg>)
    ensures |ms| == |ls|
  {
    seq(|ls|, i requires 0 <= i < |ls| =>
      Msg(magic.start + Command(ls[i].command) + ToLittleEndian(|ls[i].data|, 4) + magic.checksum(ls[i].data), ls[i].data))
  }

  /** What a reader finds in a message that carries a letter: four bytes of magic, the text of the command in the next
      twelve and zeros behind it, the size of the data in four, its checksum in four, and the data. */
  ghost predicate Carries(magic: Magic, l: Letter, m: Msg) {
    && |m.header| == 24
    && m.header[..4] == magic.start
    && (0 !in l.command ==> Text(m.header[4..16]) == Short(l.command))
    && (forall i :: 4 + |Short(l.command)| <= i < 16 ==> m.header[i] == 0)
    && LittleEndian(m.header[16..20]) == |l.data|
    && m.header[20..] == magic.checksum(l.data)
    && m.data == l.data
  }

  lemma DeliveredCarries(magic: Magic, ls: seq<Letter>, i: nat)
    requires magic.Ok() && i < |ls| && |ls[i].data| <= MAX_SIZE
    ensures Carries(magic, ls[i], Delivered(magic, ls)[i])
  {
    hide Text, Command, LittleEndian, ToLittleEndian, Pow256;
    var l := ls[i];
    var header := Delivered(magic, ls)[i].header;
    var size, sum := ToLittleEndian(|l.data|, 4), magic.checksum(l.data);
    assert header == magic.start + Command(l.command) + size + sum;
    assert header[4..16] == Command(l.command) && header[16..20] == size && header[20..] == sum;
    CommandBytes(l.command);
    forall i | 4 + |Short(l.command)| <= i < 16 ensures header[i] == 0 { assert header[i] == header[4..16][i - 4]; }
    LittleEndianBack(|l.data|, 4);
    Powers();
  }

  /** What one side frames, the other side cuts into the same messages. */
  lemma {:induction false} FramedParsed(magic: Magic, ls: seq<Letter>)
    requires magic.Ok() && forall i :: 0 <= i < |ls| ==> |ls[i].data| <= MAX_SIZE
    ensures AllComplete(Delivered(magic, ls)) && AllFramed(magic, ls) == Stream(Delivered(magic, ls))
    ensures Parsed(AllFramed(magic, ls)) == Some(Delivered(magic, ls))
  {
    hide LittleEndian, ToLittleEndian, Parsed;
    FramedStream(magic, ls);
    StreamParsed(Delivered(magic, ls));
  }

  lemma {:induction false} FramedStream(magic: Magic, ls: seq<Letter>)
    requires magic.Ok() && forall i :: 0 <= i < |ls| ==> |ls[i].data| <= MAX_SIZE
    ensures AllComplete(Delivered(magic, ls)) && AllFramed(magic, ls) == Stream(Delivered(magic, ls))
  {
    hide LittleEndian, ToLittleEndian;
    if ls != [] {
      FramedIsMessage(magic, ls[0].command, ls[0].data);
      FramedStream(magic, ls[1..]);
      var ms := Delivered(magic, ls);
      assert ms[1..] == Delivered(magic, ls[1..]);
      assert Framed(magic, ls[0].command, ls[0].data) == ms[0].Bytes();
      assert forall i :: 1 <= i < |ms| ==> ms[i] == ms[1..][i - 1];
    }
  }

  /** However much of it has arrived, the receiver has no objection and has the first messages. */
  lemma PartlyArrived(magic: Magic, ls: seq<Letter>, n: nat)
    requires magic.Ok() && (forall i :: 0 <= i < |ls| ==> |ls[i].data| <= MAX_SIZE) && n <= |AllFramed(magic, ls)|
    ensures var p := Parsed(AllFramed(magic, ls)[..n]);
      && p.Some? && |p.value| <= |ls|
      && forall i :: 0 <= i < |p.value| && p.value[i].Complete() ==> p.value[i] == Delivered(magic, ls)[i]
  {
    FramedParsed(magic, ls);
    var s := AllFramed(magic, ls);
    assert s[..n] + s[n..] == s;
    ParsedPrefix(s[..n], s[n..]);
  }

  lemma {:induction false} AllFramedLast(magic: Magic, ls: seq<Letter>, l: Letter)
    ensures AllFramed(magic, ls + [l]) == AllFramed(magic, ls) + Framed(magic, l.command, l.data)
  {
    hide ToLittleEndian;
    if ls == [] {
      assert ls + [l] == [l] && [l][1..] == [];
    } else {
      assert (ls + [l])[1..] == ls[1..] + [l];
      AllFramedLast(magic, ls[1..], l);
    }
  }
}
