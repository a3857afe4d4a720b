/**
 Numbers and truth values on the script stack: src/script.cpp and src/bignum.h.

 A number is stored least significant byte first; the top bit of the last byte is its
 sign.  `EncodeNum` is the shortest such encoding.
 */
module ScriptNum {
  import opened Wrappers
  import opened ScriptCode

  const MAX_NUM_SIZE: nat := 4

  /** The shortest little-endian digits of a natural number. */
  function Digits(n: nat): (s: Bytes)
    ensures n > 0 ==> s != [] && s[|s| - 1] != 0
  {
    if n == 0 then [] else [(n % 256) as Byte] + Digits(n / 256)
  }

  lemma {:induction false} DigitsBack(n: nat)
    ensures LittleEndian(Digits(n)) == n
  {
    if n > 0 {
      DigitsBack(n / 256);
      var s := Digits(n);
      assert s[0] as int == n % 256 && s[1..] == Digits(n / 256);
    }
  }

  lemma {:induction false} DigitsLength(n: nat, k: nat)
    requires n < Pow256(k)
    ensures |Digits(n)| <= k
  {
    if n > 0 {
      DigitsLength(n / 256, k - 1);
    }
  }

  lemma {:induction false} LittleEndianSplit(a: Bytes, last: Byte)
    ensures LittleEndian(a + [last]) == LittleEndian(a) + Pow256(|a|) * last as int
  {
    if a == [] {
      assert [] + [last] == [last];
      assert [last][1..] == [];
    } else {
      assert (a + [last])[0] == a[0] && (a + [last])[1..] == a[1..] + [last];
      LittleEndianSplit(a[1..], last);
      var p, d := Pow256(|a| - 1), last as int;
      assert Pow256(|a|) == 256 * p;
      assert 256 * (p * d) == (256 * p) * d;
    }
  }

  function Abs(n: int): nat { if n < 0 then -n else n }

  /** The encoding of a number; zero is the empty string. */
  function EncodeNum(n: int): Bytes {
    var digits := Digits(Abs(n));
    if n == 0 then []
    else
      var last := digits[|digits| - 1] as int;
      if last >= 0x80 then digits + [if n < 0 then 0x80 else 0]
      else if n < 0 then digits[|digits| - 1 := (last + 0x80) as Byte]
      else digits
  }

  /** The number that any byte string stands for, shortest or not. */
  function DecodeNum(s: Bytes): int {
    if s == [] then 0
    else
      var last := s[|s| - 1] as int;
      if last >= 0x80 then (var v: int := LittleEndian(s[|s| - 1 := (last - 0x80) as Byte]); -v)
      else LittleEndian(s)
  }

  lemma DecodeEncodeNum(n: int)
    ensures DecodeNum(EncodeNum(n)) == n
  {
    hide LittleEndian, Digits, Pow256;
    if n != 0 {
      var digits := Digits(Abs(n));
      DigitsBack(Abs(n));
      var last := digits[|digits| - 1];
      if last as int >= 0x80 {
        LittleEndianSplit(digits, 0);
        assert (digits + [0x80])[|digits| := 0] == digits + [0];
        assert (digits + [0x80])[|digits|] == 0x80;
      } else if n < 0 {
        var flipped := digits[|digits| - 1 := (last as int + 0x80) as Byte];
        assert flipped[|digits| - 1] as int - 0x80 == last as int;
        assert flipped[|digits| - 1 := last] == digits;
      }
    }
  }

  /** A number below 2^(8k-1) in magnitude takes at most k bytes. */
  lemma EncodeNumLength(n: int, k: nat)
    requires k > 0 && 2 * Abs(n) < Pow256(k)
    ensures |EncodeNum(n)| <= k
  {
    if n != 0 {
      var digits := Digits(Abs(n));
      DigitsLength(Abs(n), k);
      TopDigit(Abs(n), k);
    }
  }

  /** With a free top bit to spare, the last of k digits is below 0x80. */
  lemma {:induction false} TopDigit(n: nat, k: nat)
    requires k > 0 && 0 < n && 2 * n < Pow256(k)
    ensures |Digits(n)| == k ==> Digits(n)[k - 1] as int < 0x80
  {
    if k > 1 {
      if n / 256 > 0 {
        TopDigit(n / 256, k - 1);
        assert Digits(n)[1..] == Digits(n / 256);
      }
    } else {
      assert Pow256(1) == 256 * Pow256(0);
      assert Digits(n)[0] as int == n % 256;
    }
  }

  /** The bytes are digits in base 256, least significant first, and the top bit of the last says that the number is
      negative. */
  lemma DecodeDigits(a: Bytes, last: Byte)
    ensures (last < 0x80 ==> DecodeNum(a + [last]) == LittleEndian(a) + Pow256(|a|) * last as int)
    ensures (last >= 0x80 ==> DecodeNum(a + [last]) == -(LittleEndian(a) + Pow256(|a|) * (last as int - 0x80)))
  {
    hide LittleEndian, Pow256;
    var s := a + [last];
    LittleEndianSplit(a, last);
    if last >= 0x80 {
      LittleEndianSplit(a, last - 0x80);
      assert s[|s| - 1 := last - 0x80] == a + [last - 0x80];
    }
  }

  lemma DecodeBound(s: Bytes)
    requires s != []
    ensures 2 * Abs(DecodeNum(s)) < Pow256(|s|)
  {
    hide LittleEndian, Pow256;
    var last := s[|s| - 1] as int;
    var low := (if last >= 0x80 then last - 0x80 else last) as Byte;
    var t := s[|s| - 1 := low];
    assert t == t[..|s| - 1] + [low];
    LittleEndianSplit(t[..|s| - 1], low);
    LittleEndianBelow(t[..|s| - 1]);
    if last < 0x80 { assert t == s; }
    TopBelow(Pow256(|s| - 1), low as int);
    NextPower(|s| - 1);
  }

  lemma TopBelow(p: nat, low: int)
    requires 0 <= low <= 127
    ensures p * low <= p * 127
  {
  }

  lemma NextPower(k: nat)
    ensures Pow256(k + 1) == 256 * Pow256(k)
  {
  }

  /** No byte string that stands for the same number is shorter than its encoding. */
  lemma EncodeShortest(s: Bytes)
    ensures |EncodeNum(DecodeNum(s))| <= |s|
  {
    hide DecodeNum, EncodeNum;
    if s == [] {
      DecodeNothing();
    } else {
      DecodeBound(s);
      EncodeNumLength(DecodeNum(s), |s|);
    }
  }

  lemma DecodeNothing()
    ensures EncodeNum(DecodeNum([])) == []
  {
  }

  /** Numbers longer than four bytes are refused. */
  function CastToNum(s: Bytes): Option<int> {
    if |s| > MAX_NUM_SIZE then None else Some(DecodeNum(s))
  }

  lemma CastRange(s: Bytes)
    requires CastToNum(s).Some?
    ensures -0x8000_0000 < CastToNum(s).value < 0x8000_0000
  {
    if s != [] {
      var last := s[|s| - 1] as int;
      var low := (if last >= 0x80 then last - 0x80 else last) as Byte;
      var t := s[|s| - 1 := low];
      assert t == t[..|s| - 1] + [low];
      LittleEndianSplit(t[..|s| - 1], low);
      LittleEndianBelow(t[..|s| - 1]);
      assert Pow256(0) == 1 && Pow256(1) == 256 && Pow256(2) == 0x1_0000 && Pow256(3) == 0x100_0000;
      if last < 0x80 { assert t == s; }
    }
  }

  lemma {:induction false} LittleEndianBelow(s: Bytes)
    ensures LittleEndian(s) < Pow256(|s|)
  {
    if s != [] { LittleEndianBelow(s[1..]); }
  }

  /** False is zero, of any length and either sign. */
  predicate CastToBool(s: Bytes) {
    exists i :: 0 <= i < |s| && s[i] != 0 && !(i == |s| - 1 && s[i] == 0x80)
  }

  /** The truth value of a byte string is whether the number it stands for differs from zero. */
  lemma BoolIsNonzero(s: Bytes)
    ensures CastToBool(s) <==> DecodeNum(s) != 0
  {
    if s != [] {
      var last := s[|s| - 1] as int;
      var low := (if last >= 0x80 then last - 0x80 else last) as Byte;
      var t := s[|s| - 1 := low];
      if last < 0x80 { assert t == s; }
      ZeroValue(t);
      if exists i :: 0 <= i < |t| && t[i] != 0 {
        var i :| 0 <= i < |t| && t[i] != 0;
        assert s[i] != 0 && !(i == |s| - 1 && s[i] == 0x80);
      }
      if CastToBool(s) {
        var i :| 0 <= i < |s| && s[i] != 0 && !(i == |s| - 1 && s[i] == 0x80);
        assert t[i] != 0;
      }
    }
  }

  lemma {:induction false} ZeroValue(s: Bytes)
    ensures LittleEndian(s) != 0 <==> exists i :: 0 <= i < |s| && s[i] != 0
  {
    if s != [] {
      ZeroValue(s[1..]);
      if LittleEndian(s) != 0 {
        if s[0] == 0 {
          var i :| 0 <= i < |s[1..]| && s[1..][i] != 0;
          assert s[i + 1] != 0;
        }
      }
      if exists i :: 0 <= i < |s| && s[i] != 0 {
        var i :| 0 <= i < |s| && s[i] != 0;
        if i > 0 { assert s[1..][i - 1] != 0; }
      }
    }
  }

  /** The loop of CastToBool. */
  method EvalBool(vch: Bytes) returns (r: bool)
    ensures r <==> CastToBool(vch)
  {
    var i := 0;
    while i < |vch|
      invariant 0 <= i <= |vch| && forall j :: 0 <= j < i ==> vch[j] == 0
    {
      if vch[i] != 0 {
        if i == |vch| - 1 && vch[i] == 0x80 { return false; }
        return true;
      }
      i := i + 1;
    }
    return false;
  }
}
