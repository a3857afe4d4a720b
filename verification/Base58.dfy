/**
 Base 58: src/base58.h.

 A byte string is a number in base 256 with its leading zeros; so is its base-58 text, where
 the digit zero is written '1'.  Big numbers go through the byte strings of ScriptNum, least
 significant first.
 */
module Base58 {
  import opened ScriptCode
  import opened ScriptNum
  import opened Sequences
  import opened Wrappers

  /** The digit after the first `skip` of a run of characters. */
  function From(first: char, skip: nat): char
    requires skip < 32 && first < 'z'
  {
    (first as int + skip) as char
  }

  /** The character of a digit.  The alphabet is made of runs: digits and letters without 0, I, O and l. */
  function Alphabet(d: nat): (c: char)
    requires d < 58
  {
    if d < 9 then From('1', d)
    else if d < 17 then From('A', d - 9)
    else if d < 22 then From('J', d - 17)
    else if d < 33 then From('P', d - 22)
    else if d < 44 then From('a', d - 33)
    else From('m', d - 44)
  }

  /** What strchr finds in the alphabet. */
  function Index(c: char): (d: Option<nat>)
    ensures d.Some? ==> d.value < 58 && Alphabet(d.value) == c
  {
    if '1' <= c <= '9' then Some(c as int - '1' as int)
    else if 'A' <= c <= 'H' then Some(9 + c as int - 'A' as int)
    else if 'J' <= c <= 'N' then Some(17 + c as int - 'J' as int)
    else if 'P' <= c <= 'Z' then Some(22 + c as int - 'P' as int)
    else if 'a' <= c <= 'k' then Some(33 + c as int - 'a' as int)
    else if 'm' <= c <= 'z' then Some(44 + c as int - 'm' as int)
    else None
  }

  lemma IndexOfDigit(d: nat)
    requires d < 58
    ensures Index(Alphabet(d)) == Some(d) && !IsSpace(Alphabet(d))
  {
  }

  /** The alphabet is all digits and letters but 0, I, O and l, in their order. */
  lemma AlphabetOrder(c: char, d: nat, e: nat)
    ensures Index(c).Some? <==>
            ('0' <= c <= '9' || 'A' <= c <= 'Z' || 'a' <= c <= 'z') && c !in {'0', 'I', 'O', 'l'}
    ensures d < e < 58 ==> Alphabet(d) < Alphabet(e)
  {
  }

  predicate IsSpace(c: char) {
    c == ' ' || '\t' <= c <= '\r'
  }

  /** Space, tab, line feed, vertical tab, form feed and carriage return. */
  lemma SpaceCodes(c: char)
    ensures IsSpace(c) <==> c as int in {32, 9, 10, 11, 12, 13}
  {
  }

  // ---- Digits of a number ----

  function Value(d: seq<nat>): nat {
    if d == [] then 0 else d[0] + 58 * Value(d[1..])
  }

  function Digits58(n: nat): (d: seq<nat>)
    ensures forall i :: 0 <= i < |d| ==> d[i] < 58
    ensures d != [] ==> d[|d| - 1] != 0
  {
    if n == 0 then [] else [n % 58] + Digits58(n / 58)
  }

  lemma {:induction false} ValueOfDigits(n: nat)
    ensures Value(Digits58(n)) == n
  {
    if n > 0 {
      ValueOfDigits(n / 58);
      assert Digits58(n)[1..] == Digits58(n / 58);
    }
  }

  /** Any digits are the shortest ones of their value, and zeros. */
  lemma {:induction false} Shortest58(d: seq<nat>)
    requires forall i :: 0 <= i < |d| ==> d[i] < 58
    ensures |Digits58(Value(d))| <= |d|
    ensures d == Digits58(Value(d)) + Repeat(0, |d| - |Digits58(Value(d))|)
  {
    if d != [] {
      var t := d[1..];
      Shortest58(t);
      var n := Value(d);
      assert n / 58 == Value(t) && n % 58 == d[0];
      assert d == [d[0]] + t;
    }
  }

  lemma {:induction false} Shortest256(s: Bytes)
    ensures |Digits(LittleEndian(s))| <= |s|
    ensures s == Digits(LittleEndian(s)) + Repeat(0, |s| - |Digits(LittleEndian(s))|)
  {
    if s != [] {
      var t := s[1..];
      Shortest256(t);
      var n := LittleEndian(s);
      assert n / 256 == LittleEndian(t) && n % 256 == s[0] as int;
      assert s == [s[0]] + t;
    }
  }

  lemma {:induction false} ValueZeros(d: seq<nat>, k: nat)
    ensures Value(d + Repeat<nat>(0, k)) == Value(d)
    decreases |d| + k
  {
    var s := d + Repeat<nat>(0, k);
    if d != [] {
      assert s[0] == d[0] && s[1..] == d[1..] + Repeat<nat>(0, k);
      ValueZeros(d[1..], k);
    } else if k > 0 {
      assert s[0] == 0 && s[1..] == [] + Repeat<nat>(0, k - 1);
      ValueZeros([], k - 1);
    } else {
      assert d + Repeat<nat>(0, k) == [];
    }
  }

  lemma {:induction false} LittleEndianZeros(d: Bytes, k: nat)
    ensures LittleEndian(d + Repeat(0, k)) == LittleEndian(d)
    decreases |d| + k
  {
    var s := d + Repeat(0 as Byte, k);
    if d != [] {
      assert s[0] == d[0] && s[1..] == d[1..] + Repeat(0 as Byte, k);
      LittleEndianZeros(d[1..], k);
    } else if k > 0 {
      assert s[0] == 0 && s[1..] == [] + Repeat(0 as Byte, k - 1);
      LittleEndianZeros([], k - 1);
    }
  }

  // ---- Text ----

  predicate InAlphabet(s: string) {
    forall i :: 0 <= i < |s| ==> Index(s[i]).Some?
  }

  function Text(d: seq<nat>): (s: string)
    requires forall i :: 0 <= i < |d| ==> d[i] < 58
    ensures |s| == |d|
  {
    seq(|d|, i requires 0 <= i < |d| => Alphabet(d[i]))
  }

  function Figures(s: string): (d: seq<nat>)
    requires InAlphabet(s)
    ensures |d| == |s| && forall i :: 0 <= i < |d| ==> d[i] < 58
  {
    seq(|s|, i requires 0 <= i < |s| => Index(s[i]).value)
  }

  lemma FiguresOfText(d: seq<nat>)
    requires forall i :: 0 <= i < |d| ==> d[i] < 58
    ensures InAlphabet(Text(d)) && Figures(Text(d)) == d
  {
    forall i | 0 <= i < |d| ensures Index(Text(d)[i]) == Some(d[i]) { IndexOfDigit(d[i]); }
  }

  lemma TextOfFigures(s: string)
    requires InAlphabet(s)
    ensures Text(Figures(s)) == s
  {
  }

  /** How many times `x` comes first. */
  function Leading<T(==)>(s: seq<T>, x: T): (k: nat)
    ensures k <= |s| && (forall i :: 0 <= i < k ==> s[i] == x) && (k < |s| ==> s[k] != x)
  {
    if s != [] && s[0] == x then 1 + Leading(s[1..], x) else 0
  }

  lemma LeadingIs<T>(s: seq<T>, x: T, k: nat)
    requires k <= |s| && (forall i :: 0 <= i < k ==> s[i] == x) && (k < |s| ==> s[k] != x)
    ensures Leading(s, x) == k
  {
  }

  // ---- Encoding and decoding ----

  function Encoded(b: Bytes): string {
    var n := LittleEndian(Reversed(b));
    Reversed(Text(Digits58(n)) + Repeat('1', Leading(b, 0)))
  }

  /** The bytes of a text of the alphabet. */
  function BytesOf(s: string): Bytes
    requires InAlphabet(s)
  {
    Repeat(0 as Byte, Leading(s, '1')) + Reversed(Digits(Value(Reversed(Figures(s)))))
  }

  function AfterSpaces(s: string): (r: string)
    ensures |r| <= |s|
  {
    if s != [] && IsSpace(s[0]) then AfterSpaces(s[1..]) else s
  }

  /** How many characters of the alphabet come first. */
  function Span(s: string): (k: nat)
    ensures k <= |s| && InAlphabet(s[..k]) && (k < |s| ==> Index(s[k]).None?)
  {
    if s != [] && Index(s[0]).Some? then
      assert s[..1 + Span(s[1..])] == [s[0]] + s[1..][..Span(s[1..])];
      1 + Span(s[1..])
    else 0
  }

  /** Spaces, text of the alphabet, spaces; anything else is refused. */
  function Decoded(psz: string): Option<Bytes> {
    var s := AfterSpaces(psz);
    if AfterSpaces(s[Span(s)..]) != [] then None else Some(BytesOf(s[..Span(s)]))
  }

  /** How the number and the leading zeros of a byte string appear in its text. */
  lemma EncodedParts(b: Bytes)
    ensures var n := LittleEndian(Reversed(b));
      && Encoded(b) == Repeat('1', Leading(b, 0)) + Reversed(Text(Digits58(n)))
      && b == Repeat(0, Leading(b, 0)) + Reversed(Digits(n))
      && InAlphabet(Encoded(b)) && Leading(Encoded(b), '1') == Leading(b, 0)
      && Reversed(Figures(Encoded(b))) == Digits58(n) + Repeat(0, Leading(b, 0))
  {
    var n, z := LittleEndian(Reversed(b)), Leading(b, 0);
    var d := Digits58(n);
    ReversedJoin(Text(d), Repeat('1', z));
    assert Reversed(Repeat('1', z)) == Repeat('1', z);
    BytesParts(b);
    TextParts(d, z);
  }

  lemma BytesParts(b: Bytes)
    ensures b == Repeat(0, Leading(b, 0)) + Reversed(Digits(LittleEndian(Reversed(b))))
  {
    hide LittleEndian, Leading;
    var le := Reversed(b);
    Shortest256(le);
    var m := Digits(LittleEndian(le));
    var k := |le| - |m|;
    ReversedTwice(b);
    TurnedAround(m, k);
    assert b == Repeat(0 as Byte, k) + Reversed(m);
    ZerosFirst(b, m, k);
  }

  lemma TurnedAround(m: Bytes, k: nat)
    ensures Reversed(m + Repeat(0 as Byte, k)) == Repeat(0 as Byte, k) + Reversed(m)
  {
    ReversedJoin(m, Repeat(0 as Byte, k));
    assert Reversed(Repeat(0 as Byte, k)) == Repeat(0 as Byte, k);
  }

  lemma ZerosFirst(b: Bytes, m: Bytes, k: nat)
    requires b == Repeat(0 as Byte, k) + Reversed(m) && (m != [] ==> m[|m| - 1] != 0)
    ensures Leading(b, 0) == k
  {
    hide Leading;
    LeadingIs(b, 0, k);
  }

  lemma TextParts(d: seq<nat>, z: nat)
    requires (forall i :: 0 <= i < |d| ==> d[i] < 58) && (d != [] ==> d[|d| - 1] != 0)
    ensures var s := Repeat('1', z) + Reversed(Text(d));
      InAlphabet(s) && Leading(s, '1') == z && Reversed(Figures(s)) == d + Repeat(0, z)
  {
    var s := Repeat('1', z) + Reversed(Text(d));
    FiguresOfText(d);
    forall i | 0 <= i < |s| ensures Index(s[i]).Some? {
      if i >= z { IndexOfDigit(d[|d| - 1 - (i - z)]); }
    }
    if d != [] { IndexOfDigit(d[|d| - 1]); }
    LeadingIs(s, '1', z);
    var r := Reversed(Figures(s));
    forall i | 0 <= i < |r| ensures r[i] == (d + Repeat(0, z))[i] {
      if i < |d| { IndexOfDigit(d[i]); }
    }
  }

  // ---- The two numbers ----

  /** A byte string as a number in base 256, most significant digit first. */
  function BytesNumber(b: Bytes): nat {
    if b == [] then 0 else 256 * BytesNumber(b[..|b| - 1]) + b[|b| - 1] as int
  }

  /** A text as a number in base 58, most significant digit first. */
  function TextNumber(s: string): nat
    requires InAlphabet(s)
  {
    if s == [] then 0 else 58 * TextNumber(s[..|s| - 1]) + Index(s[|s| - 1]).value
  }

  lemma {:induction false} BytesNumberIs(b: Bytes)
    ensures BytesNumber(b) == LittleEndian(Reversed(b))
    decreases |b|
  {
    if b != [] {
      BytesNumberIs(b[..|b| - 1]);
      assert Reversed(b)[1..] == Reversed(b[..|b| - 1]) && Reversed(b)[0] == b[|b| - 1];
    }
  }

  lemma {:induction false} TextNumberIs(s: string)
    requires InAlphabet(s)
    ensures TextNumber(s) == Value(Reversed(Figures(s)))
    decreases |s|
  {
    if s != [] {
      TextNumberIs(s[..|s| - 1]);
      var d := Reversed(Figures(s));
      assert d[1..] == Reversed(Figures(s[..|s| - 1])) && d[0] == Index(s[|s| - 1]).value;
    }
  }

  /** A text stands for the same number as its bytes and begins with as many ones as they do with zeros. */
  lemma SameNumber(b: Bytes)
    ensures InAlphabet(Encoded(b)) && TextNumber(Encoded(b)) == BytesNumber(b)
    ensures Leading(Encoded(b), '1') == Leading(b, 0)
  {
    hide Encoded, Value, Leading;
    EncodedParts(b);
    BytesNumberIs(b);
    TextNumberIs(Encoded(b));
    var n := LittleEndian(Reversed(b));
    ValueZeros(Digits58(n), Leading(b, 0));
    ValueOfDigits(n);
  }

  lemma AlphabetDecodes(s: string)
    requires InAlphabet(s)
    ensures Decoded(s) == Some(BytesOf(s))
  {
    if s != [] { IndexOfDigit(Index(s[0]).value); }
    assert Span(s) == |s| && s[..|s|] == s && s[|s|..] == [];
  }

  /** Every byte string comes back from its text, leading zeros included. */
  lemma DecodeEncode(b: Bytes)
    ensures Decoded(Encoded(b)) == Some(b)
  {
    EncodedParts(b);
    var n := LittleEndian(Reversed(b));
    ValueZeros(Digits58(n), Leading(b, 0));
    ValueOfDigits(n);
    AlphabetDecodes(Encoded(b));
  }

  /** And every text over the alphabet comes back from its bytes. */
  lemma EncodeDecode(s: string)
    requires InAlphabet(s)
    ensures Decoded(s).Some? && Encoded(Decoded(s).value) == s
  {
    AlphabetDecodes(s);
    var d, z := Reversed(Figures(s)), Leading(s, '1');
    var b, n := BytesOf(s), Value(d);
    Shortest58(d);
    var k := |d| - |Digits58(n)|;
    TextOfFigures(s);
    ReversedTwice(Figures(s));
    TextParts(Digits58(n), k);
    TextReversed(Digits58(n), k);
    assert s == Repeat('1', k) + Reversed(Text(Digits58(n)));
    assert z == k;
    NumberOfBytes(n, z);
    EncodedParts(b);
  }

  lemma TextReversed(d: seq<nat>, k: nat)
    requires forall i :: 0 <= i < |d| ==> d[i] < 58
    ensures Text(Reversed(d + Repeat(0, k))) == Repeat('1', k) + Reversed(Text(d))
  {
  }

  lemma NumberOfBytes(n: nat, z: nat)
    ensures var b := Repeat(0 as Byte, z) + Reversed(Digits(n));
      LittleEndian(Reversed(b)) == n && Leading(b, 0) == z
  {
    var b := Repeat(0 as Byte, z) + Reversed(Digits(n));
    ReversedJoin(Repeat(0 as Byte, z), Reversed(Digits(n)));
    ReversedTwice(Digits(n));
    assert Reversed(Repeat(0 as Byte, z)) == Repeat(0 as Byte, z);
    LittleEndianZeros(Digits(n), z);
    DigitsBack(n);
    LeadingIs(b, 0, z);
  }

  // ---- What is accepted ----

  predicate AllSpaces(s: string) {
    forall i :: 0 <= i < |s| ==> IsSpace(s[i])
  }

  lemma {:induction false} AfterSpacesIs(pre: string, s: string)
    requires AllSpaces(pre) && (s == [] || !IsSpace(s[0]))
    ensures AfterSpaces(pre + s) == s
  {
    if pre == [] {
      assert pre + s == s;
    } else {
      assert (pre + s)[1..] == pre[1..] + s;
      AfterSpacesIs(pre[1..], s);
    }
  }

  lemma {:induction false} SpacesBefore(s: string) returns (pre: string)
    ensures AllSpaces(pre) && s == pre + AfterSpaces(s)
  {
    hide AllSpaces, IsSpace;
    if s != [] && IsSpace(s[0]) {
      var more := SpacesBefore(s[1..]);
      pre := [s[0]] + more;
      OneMoreSpace(s[0], more, AfterSpaces(s[1..]));
      assert s == [s[0]] + s[1..];
    } else {
      pre := [];
      NoSpaces();
    }
  }

  lemma OneMoreSpace(c: char, more: string, rest: string)
    requires IsSpace(c) && AllSpaces(more)
    ensures AllSpaces([c] + more) && ([c] + more) + rest == [c] + (more + rest)
  {
    hide IsSpace;
  }

  lemma NoSpaces()
    ensures AllSpaces([])
  {
  }

  /** Spaces around the text make no difference. */
  lemma SpacesAround(pre: string, s: string, post: string)
    requires AllSpaces(pre) && InAlphabet(s) && AllSpaces(post)
    ensures Decoded(pre + s + post) == Some(BytesOf(s))
  {
    var t := s + post;
    assert pre + s + post == pre + t;
    if s != [] { IndexOfDigit(Index(s[0]).value); }
    if s == [] {
      AfterSpacesIs(pre + post, []);
      assert pre + t == (pre + post) + [];
      assert Span([]) == 0;
    } else {
      assert t[0] == s[0];
      AfterSpacesIs(pre, t);
      SpanIs(s, post);
      assert t[|s|..] == post && t[..|s|] == s;
      AfterSpacesIs(post, []);
      assert post == post + [];
    }
  }

  lemma {:induction false} SpanIs(s: string, post: string)
    requires InAlphabet(s) && AllSpaces(post)
    ensures Span(s + post) == |s|
  {
    if s == [] {
      assert s + post == post;
    } else {
      assert (s + post)[1..] == s[1..] + post;
      SpanIs(s[1..], post);
    }
  }

  /** Nothing else is accepted. */
  lemma OnlySpacesAround(psz: string) returns (pre: string, s: string, post: string)
    requires Decoded(psz).Some?
    ensures AllSpaces(pre) && InAlphabet(s) && AllSpaces(post) && psz == pre + s + post
  {
    hide AllSpaces, AfterSpaces, Span, BytesOf;
    pre := SpacesBefore(psz);
    var t := AfterSpaces(psz);
    s := t[..Span(t)];
    post := SpacesBefore(t[Span(t)..]);
    assert t == s + t[Span(t)..];
  }

  // ---- The loops ----

  lemma BignumOfBytes(b: Bytes)
    ensures DecodeNum(Reversed(b) + [0]) == LittleEndian(Reversed(b))
  {
    LittleEndianSplit(Reversed(b), 0);
  }

  lemma TextStep(n: nat)
    ensures Text(Digits58(0)) == []
    ensures n > 0 ==> Text(Digits58(n)) == [Alphabet(n % 58)] + Text(Digits58(n / 58))
  {
  }

  method EncodeBase58(b: Bytes) returns (str: string)
    ensures str == Encoded(b)
  {
    hide Digits58, Text, LittleEndian, DecodeNum, Leading, Alphabet;
    BignumOfBytes(b);
    var bn := DecodeNum(Reversed(b) + [0]);
    ghost var d := Digits58(bn);
    str := [];
    while bn > 0
      invariant bn >= 0 && str + Text(Digits58(bn)) == Text(d)
    {
      var c := bn % 58;
      TextStep(bn);
      bn := bn / 58;
      str := str + [Alphabet(c)];
    }
    TextStep(0);
    var p := 0;
    while p < |b| && b[p] == 0
      invariant 0 <= p <= |b| && forall i :: 0 <= i < p ==> b[i] == 0
      invariant str == Text(d) + Repeat('1', p)
    {
      str := str + ['1'];
      p := p + 1;
    }
    LeadingIs(b, 0, p);
    str := Reversed(str);
  }

  /** The sign byte, when there is one, is the only thing that getvch adds to the shortest digits. */
  function WithoutSign(s: Bytes): Bytes {
    if |s| >= 2 && s[|s| - 1] == 0 && s[|s| - 2] >= 0x80 then s[..|s| - 1] else s
  }

  lemma BytesOfBignum(n: nat)
    ensures WithoutSign(EncodeNum(n)) == Digits(n)
  {
  }

  /** A C string: no character of it is zero. */
  method DecodeBase58(psz: string) returns (ok: bool, vchRet: Bytes)
    requires '\0' !in psz
    ensures ok <==> Decoded(psz).Some?
    ensures ok ==> vchRet == Decoded(psz).value
  {
    hide AfterSpaces, Span, Leading, Digits, Value, Figures;
    var start := SkipSpaces(psz, 0);
    assert psz[0..] == psz;
    ghost var s := psz[start..];
    var parsed, bn := ParseDigits(psz, start);
    if !parsed { return false, []; }
    BytesOfBignum(bn);
    var vchTmp := WithoutSign(EncodeNum(bn));
    var nLeadingZeros := 0;
    while start + nLeadingZeros < |psz| && psz[start + nLeadingZeros] == '1'
      invariant 0 <= nLeadingZeros <= |s| && forall i :: 0 <= i < nLeadingZeros ==> s[i] == '1'
    {
      nLeadingZeros := nLeadingZeros + 1;
    }
    OnesWithin(s, nLeadingZeros);
    return true, Repeat(0 as Byte, nLeadingZeros) + Reversed(vchTmp);
  }

  /** Takes digits as long as they are in the alphabet; only spaces may follow. */
  method ParseDigits(psz: string, start: nat) returns (ok: bool, bn: nat)
    requires start <= |psz|
    ensures var s := psz[start..];
      && (ok <==> AfterSpaces(s[Span(s)..]) == [])
      && (ok ==> bn == Value(Reversed(Figures(s[..Span(s)]))))
  {
    hide AfterSpaces, Span, Value, Figures;
    ghost var s := psz[start..];
    var p := start;
    bn := 0;
    NoFigures(s[..0]);
    while p < |psz|
      invariant start <= p <= |psz| && p - start <= Span(s) && InAlphabet(s[..p - start])
      invariant bn == Value(Reversed(Figures(s[..p - start])))
    {
      var p1 := Index(psz[p]);
      SpanAt(s, p - start);
      if p1.None? {
        var q := SkipSpaces(psz, p);
        assert psz[p..] == s[p - start..];
        return q == |psz|, bn;
      }
      NextFigure(s, p - start);
      bn := bn * 58 + p1.value;
      p := p + 1;
    }
    SpanAt(s, p - start);
    EmptyAfterSpaces(s[|s|..]);
    return true, bn;
  }

  lemma NoFigures(s: string)
    requires s == []
    ensures Value(Reversed(Figures(s))) == 0
  {
  }

  lemma EmptyAfterSpaces(s: string)
    requires s == []
    ensures AfterSpaces(s) == []
  {
  }

  lemma NextFigure(s: string, k: nat)
    requires k < |s| && InAlphabet(s[..k]) && Index(s[k]).Some?
    ensures InAlphabet(s[..k + 1])
    ensures Value(Reversed(Figures(s[..k + 1]))) == Value(Reversed(Figures(s[..k]))) * 58 + Index(s[k]).value
  {
    var f, x := Figures(s[..k]), Index(s[k]).value;
    assert s[..k + 1] == s[..k] + [s[k]];
    assert Figures(s[..k + 1]) == f + [x];
    ReversedJoin(f, [x]);
    var r := Reversed(Figures(s[..k + 1]));
    assert r[0] == x && r[1..] == Reversed(f);
  }

  method SkipSpaces(psz: string, i: nat) returns (p: nat)
    requires i <= |psz|
    ensures i <= p <= |psz| && psz[p..] == AfterSpaces(psz[i..])
  {
    p := i;
    while p < |psz| && IsSpace(psz[p])
      invariant i <= p <= |psz| && AfterSpaces(psz[p..]) == AfterSpaces(psz[i..])
    {
      assert psz[p..][0] == psz[p] && psz[p..][1..] == psz[p + 1..];
      p := p + 1;
    }
  }

  /** Inside the span or at its end. */
  lemma SpanAt(s: string, k: nat)
    requires k <= Span(s)
    ensures k < |s| ==> (Index(s[k]).None? <==> k == Span(s))
    ensures k == |s| ==> k == Span(s)
  {
    if k < Span(s) { assert s[..Span(s)][k] == s[k]; }
  }

  lemma {:induction false} SpanAtLeast(s: string, k: nat)
    requires k <= |s| && forall i :: 0 <= i < k ==> Index(s[i]).Some?
    ensures k <= Span(s)
  {
    if k > 0 { SpanAtLeast(s[1..], k - 1); }
  }

  lemma OnesWithin(s: string, k: nat)
    requires k <= |s| && (forall i :: 0 <= i < k ==> s[i] == '1') && (k < |s| ==> s[k] != '1')
    ensures Leading(s[..Span(s)], '1') == k
  {
    SpanAtLeast(s, k);
    LeadingIs(s[..Span(s)], '1', k);
  }
}
