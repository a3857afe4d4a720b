/**
 Numbers of variable length: WriteVarInt and ReadVarInt in src/serialize.h.

 Base 128, most significant digit first; every digit but the last has its high bit set, and
 one is taken off every digit but the last, so that no number has two encodings.
 */
module VarInt {
  import opened Arithmetic
  import opened Sequences
  import opened Wrappers

  /** `more` says that another digit follows the last one of these. */
  function Digits(n: nat, more: bool): (r: Bytes)
    ensures r != []
  {
    var last := (n % 128 + if more then 128 else 0) as Byte;
    (if n <= 0x7f then [] else Digits(n / 128 - 1, true)) + [last]
  }

  function Encoded(n: nat): Bytes {
    Digits(n, false)
  }

  /** Reads on from an intermediate value; None when the stream ends too early. */
  function Decoded(n: nat, s: Bytes): Option<(nat, Bytes)>
    decreases |s|
  {
    if s == [] then None
    else
      var m := n * 128 + s[0] as int % 128;
      if s[0] >= 128 then Decoded(m + 1, s[1..]) else Some((m, s[1..]))
  }

  lemma {:induction false} DigitsDecode(n: nat, more: bool, rest: Bytes)
    ensures Decoded(0, Digits(n, more) + rest) == if more then Decoded(n + 1, rest) else Some((n, rest))
    decreases n
  {
    hide Decoded, Digits;
    var last := (n % 128 + if more then 128 else 0) as Byte;
    DigitsUnfold(n, more);
    if n <= 0x7f {
      DecodedNext(0, last, rest);
    } else {
      var higher := n / 128 - 1;
      assert Digits(n, more) + rest == Digits(higher, true) + ([last] + rest);
      DigitsDecode(higher, true, [last] + rest);
      DecodedNext(higher + 1, last, rest);
    }
  }

  lemma DecodedNext(n: nat, b: Byte, rest: Bytes)
    ensures Decoded(n, [b] + rest) ==
      var m := n * 128 + b as int % 128;
      if b >= 128 then Decoded(m + 1, rest) else Some((m, rest))
  {
    assert ([b] + rest)[1..] == rest;
  }

  /** Reading back gives the number and leaves what follows. */
  lemma RoundTrip(n: nat, rest: Bytes)
    ensures Decoded(0, Encoded(n) + rest) == Some((n, rest))
  {
    DigitsDecode(n, false, rest);
  }

  /** The other way round: no number has a second encoding. */
  lemma {:induction false} DecodedIsEncoded(before: Bytes, n: nat, s: Bytes)
    requires Decoded(n, s).Some? && (if n == 0 then before == [] else before == Digits(n - 1, true))
    ensures before + s == Encoded(Decoded(n, s).value.0) + Decoded(n, s).value.1
    decreases |s|
  {
    var m := n * 128 + s[0] as int % 128;
    assert m / 128 == n && m % 128 == s[0] as int % 128;
    assert Digits(m, s[0] >= 128) == before + [s[0]];
    assert before + s == (before + [s[0]]) + s[1..];
    if s[0] >= 128 { DecodedIsEncoded(before + [s[0]], m + 1, s[1..]); }
  }

  lemma OnlyEncoding(s: Bytes)
    requires Decoded(0, s).Some?
    ensures s == Encoded(Decoded(0, s).value.0) + Decoded(0, s).value.1
  {
    DecodedIsEncoded([], 0, s);
    assert [] + s == s;
  }

  // ---- The format in figures ----

  /** The last digit, and 128^i times one more than the digit `i` places before it. */
  function Figure(s: Bytes): (n: nat) {
    if s == [] then 0
    else if |s| == 1 then s[0] as int % 128
    else Pow128(|s| - 1) * (s[0] as int % 128 + 1) + Figure(s[1..])
  }

  lemma {:induction false} FigureLast(s: Bytes, b: Byte)
    requires s != []
    ensures Figure(s + [b]) == 128 * (Figure(s) + 1) + b as int % 128
  {
    var t := s + [b];
    assert t[0] == s[0] && t[1..] == s[1..] + [b];
    if |s| == 1 {
      assert Pow128(1) == 128 && Figure([b]) == b as int % 128;
    } else {
      FigureLast(s[1..], b);
      assert Pow128(|s|) == 128 * Pow128(|s| - 1);
      PullOut(Pow128(|s| - 1), s[0] as int % 128 + 1);
    }
  }

  lemma PullOut(p: nat, x: nat)
    ensures 128 * p * x == 128 * (p * x)
  {
  }

  /** All bytes but the last have the high bit set, and the figure of the bytes is the number. */
  lemma {:induction false} DigitsFigure(n: nat, more: bool)
    ensures Figure(Digits(n, more)) == n && Continued(Digits(n, more), more)
    decreases n
  {
    hide Digits;
    DigitsUnfold(n, more);
    hide Continued;
    if n > 0x7f {
      hide Figure;
      var higher, last := Digits(n / 128 - 1, true), (n % 128 + if more then 128 else 0) as Byte;
      DigitsFigure(n / 128 - 1, true);
      FigureLast(higher, last);
      ContinuedLast(higher, last, more);
      LastDigit(n, more);
    } else {
      LastDigit(n, more);
      ContinuedOne((n % 128 + if more then 128 else 0) as Byte, more);
    }
  }

  lemma ContinuedOne(b: Byte, more: bool)
    requires b as int >= 128 <==> more
    ensures Continued([b], more)
  {
  }

  lemma LastDigit(n: nat, more: bool)
    ensures var last := n % 128 + if more then 128 else 0;
      128 * (n / 128) + last % 128 == n && (last >= 128 <==> more)
  {
  }

  /** The high bit says of every byte that another one follows. */
  predicate Continued(s: Bytes, more: bool) {
    s != [] && (s[|s| - 1] as int >= 128 <==> more) && forall i :: 0 <= i < |s| - 1 ==> s[i] as int >= 128
  }

  lemma ContinuedLast(s: Bytes, b: Byte, more: bool)
    requires Continued(s, true) && (b as int >= 128 <==> more)
    ensures Continued(s + [b], more)
  {
  }

  /** One byte up to 127, two up to 16511, three up to 2113663. */
  lemma SmallSizes(n: nat)
    ensures |Encoded(n)| == 1 <==> n <= 127
    ensures |Encoded(n)| == 2 <==> 128 <= n <= 16_511
    ensures |Encoded(n)| == 3 <==> 16_512 <= n <= 2_113_663
  {
    if n > 0x7f {
      var m := n / 128 - 1;
      assert Encoded(n) == Digits(m, true) + [(n % 128) as Byte];
      if m > 0x7f { assert |Digits(m, true)| == |Digits(m / 128 - 1, true)| + 1; }
    }
  }

  /** The numbers that the comment in src/serialize.h gives as examples.  Two of the encodings it shows are those of
      other numbers. */
  lemma Examples()
    ensures Encoded(0) == [0x00] && Encoded(1) == [0x01] && Encoded(127) == [0x7f]
    ensures Encoded(128) == [0x80, 0x00] && Encoded(255) == [0x80, 0x7f] && Encoded(256) == [0x81, 0x00]
    ensures Encoded(16_383) == [0xfe, 0x7f] && Encoded(16_384) == [0xff, 0x00]
    ensures Encoded(0x1_0000_0000) == [0x8e, 0xfe, 0xfe, 0xff, 0x00]
    ensures Encoded(16_511) == [0xff, 0x7f] && Encoded(32_895) == [0x80, 0xff, 0x7f]
    ensures Encoded(65_535) == [0x82, 0xfe, 0x7f] && Encoded(65_407) == [0x82, 0xfd, 0x7f]
  {
    hide Digits;
    DigitsUnfold(0, false);
    DigitsUnfold(1, false);
    DigitsUnfold(127, false);
    DigitsUnfold(0, true);
    DigitsUnfold(1, true);
    DigitsUnfold(2, true);
    DigitsUnfold(14, true);
    DigitsUnfold(126, true);
    DigitsUnfold(127, true);
    DigitsUnfold(128, false);
    DigitsUnfold(255, false);
    DigitsUnfold(255, true);
    DigitsUnfold(256, false);
    DigitsUnfold(16_383, false);
    DigitsUnfold(16_384, false);
    DigitsUnfold(16_511, false);
    DigitsUnfold(32_895, false);
    DigitsUnfold(509, true);
    DigitsUnfold(510, true);
    DigitsUnfold(65_407, false);
    DigitsUnfold(65_535, false);
    DigitsUnfold(2046, true);
    DigitsUnfold(262_142, true);
    DigitsUnfold(33_554_431, true);
    DigitsUnfold(0x1_0000_0000, false);
  }

  /** The buffer of (8 * sizeof + 6) / 7 bytes is large enough. */
  lemma DigitsFit(n: nat, more: bool)
    ensures n < TWO32 ==> |Digits(n, more)| <= (8 * 4 + 6) / 7
    ensures n < TWO64 ==> |Digits(n, more)| <= (8 * 8 + 6) / 7
  {
    if n < Pow128(5) { DigitsBound(n, more, 5); }
    if n < Pow128(10) { DigitsBound(n, more, 10); }
    assert Pow128(5) == 128 * 128 * 128 * 128 * 128;
    assert Pow128(10) == Pow128(5) * Pow128(5);
  }

  function Pow128(k: nat): nat {
    if k == 0 then 1 else 128 * Pow128(k - 1)
  }

  lemma {:induction false} DigitsBound(n: nat, more: bool, k: nat)
    requires k > 0 && n < Pow128(k)
    ensures |Digits(n, more)| <= k
    decreases k
  {
    if n > 0x7f { DigitsBound(n / 128 - 1, true, k - 1); }
  }

  /** `n` in two's complement with 7 bits left: for a negative `n` that is all that is written. */
  function Written(n: int): Bytes {
    if n < 0 then [(n % 128) as Byte] else Encoded(n)
  }

  /** A negative number does not come back; every other one does. */
  lemma WrittenReads(n: int, rest: Bytes)
    ensures Decoded(0, Written(n) + rest) == Some((n % 128, rest)) || n >= 0
    ensures Decoded(0, Written(n) + rest).Some?
    ensures (Decoded(0, Written(n) + rest).value.0 == n) <==> n >= 0
    ensures Decoded(0, Written(n) + rest).value.1 == rest
  {
    if n >= 0 {
      RoundTrip(n, rest);
    } else {
      var s := Written(n) + rest;
      assert s[0] == (n % 128) as Byte && s[1..] == rest;
    }
  }

  lemma DigitsUnfold(n: nat, more: bool)
    ensures n <= 0x7f ==> Digits(n, more) == [(n % 128 + if more then 128 else 0) as Byte]
    ensures n > 0x7f ==>
      Digits(n, more) == Digits(n / 128 - 1, true) + [(n % 128 + if more then 128 else 0) as Byte]
  {
  }

  /** Fills a small buffer from the lowest digit up and writes it out backwards.  `size` is that of the type. */
  method WriteVarInt(os: Bytes, n0: int, size: nat) returns (r: Bytes)
    requires size == 4 || size == 8
    requires n0 < if size == 4 then TWO32 else TWO64
    ensures r == os + Written(n0)
  {
    hide Digits, Reversed, Written;
    var tmp := new Byte[(size * 8 + 6) / 7];
    var n, len := n0, 0;
    FirstDigits(n0);
    ghost var all := Written(n0);
    while true
      invariant 0 <= len < tmp.Length
      invariant n < 0 ==> len == 0 && all == [(n % 128) as Byte]
      invariant n >= 0 ==> len + |Digits(n, len > 0)| <= tmp.Length && all == Digits(n, len > 0) + Reversed(tmp[..len])
      decreases n
    {
      tmp[len] := (n % 128 + if len > 0 then 128 else 0) as Byte;
      ReversedLast(tmp[..len], tmp[len]);
      assert tmp[..len + 1] == tmp[..len] + [tmp[len]];
      if n >= 0 { DigitsUnfold(n, len > 0); }
      if n <= 0x7f { break; }
      n := n / 128 - 1;
      len := len + 1;
    }
    assert all == Reversed(tmp[..len + 1]);
    r := WriteBackwards(os, tmp, len);
  }

  lemma FirstDigits(n: int)
    ensures Reversed<Byte>([]) == []
    ensures n < 0 ==> Written(n) == [(n % 128) as Byte]
    ensures 0 <= n ==> Written(n) == Digits(n, false)
    ensures 0 <= n < TWO32 ==> |Digits(n, false)| <= 5
    ensures 0 <= n < TWO64 ==> |Digits(n, false)| <= 10
  {
    if n >= 0 { DigitsFit(n, false); }
  }

  method WriteBackwards(os: Bytes, tmp: array<Byte>, len0: nat) returns (r: Bytes)
    requires len0 < tmp.Length
    ensures r == os + Reversed(tmp[..len0 + 1])
  {
    hide Reversed;
    var len := len0;
    r := os;
    ghost var all := Reversed(tmp[..len + 1]);
    FirstDigits(0);
    while true
      invariant 0 <= len < tmp.Length
      invariant r + Reversed(tmp[..len + 1]) == os + all
      decreases len
    {
      assert tmp[..len + 1] == tmp[..len] + [tmp[len]];
      ReversedLast(tmp[..len], tmp[len]);
      r := r + [tmp[len]];
      if len == 0 {
        assert tmp[..0] == [];
        break;
      }
      len := len - 1;
    }
  }

  /** Reads into a type of `size` bytes: what does not fit is lost. */
  method ReadVarInt(s: Bytes, size: nat) returns (r: Option<(nat, Bytes)>)
    requires size == 4 || size == 8
    ensures r == match Decoded(0, s)
      case None => None
      case Some((n, rest)) => Some((n % if size == 4 then TWO32 else TWO64, rest))
  {
    var modulus := if size == 4 then TWO32 else TWO64;
    var n, i := 0, 0;
    ghost var exact: nat := 0;
    assert s[0..] == s;
    while i < |s|
      invariant 0 <= i <= |s| && n == exact % modulus
      invariant Decoded(0, s) == Decoded(exact, s[i..])
    {
      var chData := s[i];
      assert s[i..][0] == chData && s[i..][1..] == s[i + 1..];
      ModLinear(exact, modulus, 128, chData as int % 128);
      n := (n * 128 + chData as int % 128) % modulus;
      exact := exact * 128 + chData as int % 128;
      i := i + 1;
      if chData < 128 { return Some((n, s[i..])); }
      ModLinear(exact, modulus, 1, 1);
      n := (n + 1) % modulus;
      exact := exact + 1;
    }
    return None;
  }
}
