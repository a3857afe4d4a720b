/** The class CCoins and its streams: src/coins.h and src/coins.cpp. */
module CoinsStream {
  import opened Arithmetic
  import opened CoinsCodec
  import opened Transactions
  import opened VarInt
  import opened Wrappers
  import Amount
  import Scripts = ScriptCompressor

  // ---- Counting mask bytes ----

  lemma {:induction false} NonzeroSplit(vout: seq<TxOut>, a: nat, b: nat)
    requires a <= b
    ensures Nonzero(vout, a, b + 1) == Nonzero(vout, a, b) + if MaskByte(vout, b) != 0 then 1 else 0
    decreases b - a
  {
    hide MaskByte;
    if a < b { NonzeroSplit(vout, a + 1, b); } else { assert Nonzero(vout, b + 1, b + 1) == 0; }
  }

  lemma {:induction false} NonzeroUsed(vout: seq<TxOut>, b: nat)
    ensures Nonzero(vout, 0, b) == Nonzero(vout, 0, LastUsed(vout, b))
  {
    hide MaskByte;
    if b > 0 {
      NonzeroSplit(vout, 0, b - 1);
      if MaskByte(vout, b - 1) == 0 { NonzeroUsed(vout, b - 1); }
    }
  }

  // ---- Bits of a byte ----

  lemma {:induction false} FromBitsLast(s: seq<bool>, x: bool)
    ensures FromBits(s + [x]) == FromBits(s) + if x then Pow2(|s|) else 0
  {
    if s == [] {
      assert s + [x] == [x];
      assert [x][1..] == [];
    } else {
      assert (s + [x])[1..] == s[1..] + [x];
      FromBitsLast(s[1..], x);
    }
  }

  lemma {:induction false} FromBitsFalse(s: seq<bool>, k: nat)
    requires k <= |s| && forall i :: k <= i < |s| ==> !s[i]
    ensures FromBits(s) == FromBits(s[..k])
    decreases |s| - k
  {
    if k < |s| {
      FromBitsFalse(s, k + 1);
      assert s[..k + 1] == s[..k] + [s[k]];
      FromBitsLast(s[..k], s[k]);
    } else {
      assert s[..k] == s;
    }
  }

  lemma {:induction false} ToBitsAt(n: nat, k: nat, p: nat)
    requires p < k
    ensures ToBits(n, k)[p] <==> n / Pow2(p) % 2 == 1
  {
    if p > 0 {
      ToBitsAt(n / 2, k - 1, p - 1);
      HalfThenPow(n, p - 1);
    }
  }

  lemma {:induction false} HalfThenPow(n: nat, p: nat)
    ensures n / Pow2(p + 1) == n / 2 / Pow2(p)
  {
    var d, q := Pow2(p), n / 2 / Pow2(p);
    var r := n / 2 % d;
    assert n / 2 == d * q + r;
    assert n == 2 * (d * q + r) + n % 2;
    assert 2 * (d * q) == 2 * d * q;
    DivUnique(n, 2 * d, q, 2 * r + n % 2);
  }

  // ---- One output ----

  /** Amounts are signed 64-bit numbers. */
  predicate Amounts(vout: seq<TxOut>) {
    forall k :: 0 <= k < |vout| ==> -TWO63 <= vout[k].nValue < TWO63
  }

  method WriteOut(os: Bytes, curve: Scripts.Curve, o: TxOut) returns (r: Bytes)
    requires -TWO63 <= o.nValue < TWO63
    ensures r == os + EncodedOut(curve, o)
  {
    hide Encoded, Scripts.Written, Amount.Compressed;
    var nVal := Amount.CompressAmount(o.nValue % TWO64);
    r := WriteVarInt(os, nVal, 8);
    r := r + Scripts.Written(curve, o.scriptPubKey);
  }

  method ReadOut(s: Bytes, curve: Scripts.Curve) returns (r: Option<(TxOut, Bytes)>)
    ensures r == DecodedOut(curve, s)
  {
    hide Decoded, Scripts.Read, Amount.Decompressed;
    var read := ReadVarInt(s, 8);
    if read.None? { return None; }
    var nValue := Amount.DecompressAmount(read.value.0);
    var script := Scripts.Read(curve, read.value.1);
    if script.None? { return None; }
    return Some((TxOut(Signed64(nValue), script.value.0), script.value.1));
  }

  // ---- The mask ----

  method MaskByteOf(vout: seq<TxOut>, b: nat) returns (chAvail: Byte)
    ensures chAvail == MaskByte(vout, b)
  {
    BitsBack(MaskBits(vout, b));
    Bytes256();
    ghost var bits := MaskBits(vout, b);
    var avail, i := 0, 0;
    while i < 8 && 2 + b * 8 + i < |vout|
      invariant 0 <= i <= 8 && avail == FromBits(bits[..i])
    {
      assert bits[..i + 1] == bits[..i] + [bits[i]];
      FromBitsLast(bits[..i], bits[i]);
      if !vout[2 + b * 8 + i].IsNull() { avail := avail + Pow2(i); }
      i := i + 1;
    }
    FromBitsFalse(bits, i);
    return avail as Byte;
  }

  method PushBits(vAvail: seq<bool>, chAvail: Byte) returns (r: seq<bool>)
    ensures r == vAvail + ToBits(chAvail as nat, 8)
  {
    r := vAvail;
    var p := 0;
    while p < 8
      invariant 0 <= p <= 8 && r == vAvail + ToBits(chAvail as nat, 8)[..p]
    {
      ToBitsAt(chAvail as nat, 8, p);
      var f := chAvail as nat / Pow2(p) % 2 == 1;
      r := r + [f];
      p := p + 1;
    }
  }

  /** What ReadMask gives once `bits` have been read. */
  function After(bits: seq<bool>, r: Option<(seq<bool>, Bytes)>): Option<(seq<bool>, Bytes)> {
    match r
    case None => None
    case Some((more, rest)) => Some((bits + more, rest))
  }

  method ReadMaskBytes(count: nat, s: Bytes) returns (r: Option<(seq<bool>, Bytes)>)
    ensures r == ReadMask(count, s)
  {
    hide ToBits;
    var vAvail, nMaskCode, i := [], count, 0;
    assert s[0..] == s;
    AfterNothing(ReadMask(count, s));
    while nMaskCode > 0
      invariant 0 <= i <= |s|
      invariant ReadMask(count, s) == After(vAvail, ReadMask(nMaskCode, s[i..]))
      decreases |s| - i
    {
      if i == |s| { return None; }
      assert s[i..][0] == s[i] && s[i..][1..] == s[i + 1..];
      ghost var before := vAvail;
      vAvail := PushBits(vAvail, s[i]);
      AfterTwice(before, ToBits(s[i] as nat, 8), ReadMask(if s[i] != 0 then nMaskCode - 1 else nMaskCode, s[i + 1..]));
      if s[i] != 0 { nMaskCode := nMaskCode - 1; }
      i := i + 1;
    }
    assert vAvail + [] == vAvail;
    return Some((vAvail, s[i..]));
  }

  lemma AfterNothing(r: Option<(seq<bool>, Bytes)>)
    ensures After([], r) == r
  {
    if r.Some? { assert [] + r.value.0 == r.value.0; }
  }

  lemma AfterTwice(a: seq<bool>, b: seq<bool>, r: Option<(seq<bool>, Bytes)>)
    ensures After(a, After(b, r)) == After(a + b, r)
  {
    if r.Some? { assert a + (b + r.value.0) == (a + b) + r.value.0; }
  }

  // ---- The class ----

  class CCoins {
    const curve: Scripts.Curve
    var fCoinBase: bool
    var vout: seq<TxOut>
    var nVersion: int

    constructor (curve: Scripts.Curve)
      ensures this.curve == curve && Value() == Coins(false, [], 0)
    {
      this.curve, fCoinBase, vout, nVersion := curve, false, [], 0;
    }

    ghost function Value(): Coins
      reads this
    {
      Coins(fCoinBase, vout, nVersion)
    }

    method Cleanup()
      modifies this`vout
      ensures vout == Trim(old(vout))
    {
      while |vout| > 0 && vout[|vout| - 1].IsNull()
        invariant Trim(vout) == Trim(old(vout))
        decreases |vout|
      {
        vout := vout[..|vout| - 1];
      }
    }

    method CalcMaskSize() returns (nBytes: nat, nNonzeroBytes: nat)
      ensures nBytes == MaskSize(vout) && nNonzeroBytes == Nonzero(vout, 0, MaskSize(vout))
    {
      hide MaskByte;
      var nLastUsedByte, b := 0, 0;
      nNonzeroBytes := 0;
      while 2 + b * 8 < |vout|
        invariant b <= MaskBytes(|vout|)
        invariant nLastUsedByte == LastUsed(vout, b) && nNonzeroBytes == Nonzero(vout, 0, b)
        decreases |vout| - b * 8
      {
        NonzeroSplit(vout, 0, b);
        var fZero := NoneAvailable(b);
        if !fZero {
          nLastUsedByte := b + 1;
          nNonzeroBytes := nNonzeroBytes + 1;
        }
        b := b + 1;
      }
      NonzeroUsed(vout, b);
      nBytes := nLastUsedByte;
    }

    method NoneAvailable(b: nat) returns (fZero: bool)
      ensures fZero <==> MaskByte(vout, b) == 0
    {
      hide MaskByte, MaskBits, ToBits;
      MaskZero(vout, b);
      ghost var bits := MaskBits(vout, b);
      fZero := true;
      var i := 0;
      while i < 8 && 2 + b * 8 + i < |vout|
        invariant 0 <= i <= 8 && (fZero <==> forall j :: 0 <= j < i ==> !bits[j])
      {
        assert bits[i] <==> Avail(vout, 2 + b * 8 + i);
        if !vout[2 + b * 8 + i].IsNull() { fZero := false; }
        i := i + 1;
      }
    }

    /** The code, after the assertion that there is something to write. */
    method HeaderCode(nMaskCode: nat) returns (nCode: nat)
      requires Fits(Value()) && nMaskCode == Nonzero(vout, 0, MaskSize(vout))
      ensures nCode == Code(Value())
    {
      hide Nonzero, MaskSize;
      AvailableSomewhere(vout);
      CodeBound(Value());
      var fFirst := |vout| > 0 && !vout[0].IsNull();
      var fSecond := |vout| > 1 && !vout[1].IsNull();
      assert fFirst || fSecond || nMaskCode != 0;
      nCode := 8 * (nMaskCode - if fFirst || fSecond then 0 else 1)
        + (if fCoinBase then 1 else 0) + (if fFirst then 2 else 0) + (if fSecond then 4 else 0);
    }

    method Serialize(os: Bytes) returns (s: Bytes)
      requires Fits(Value()) && Amounts(vout)
      ensures s == os + Serialized(curve, Value())
    {
      hide Nonzero, MaskSize, Code, Encoded, Written, Mask, Outs, IsPruned;
      CodeBound(Value());
      var nMaskSize, nMaskCode := CalcMaskSize();
      var nCode := HeaderCode(nMaskCode);
      s := WriteVarInt(os, nVersion, 4);
      s := WriteVarInt(s, nCode, 4);
      s := WriteMask(s, nMaskSize);
      s := WriteOuts(s);
      WrittenNat(nCode);
      Regroup(os, Written(nVersion), Encoded(nCode), Mask(vout, 0, nMaskSize), Outs(curve, vout, 0, |vout|));
    }

    method WriteMask(os: Bytes, nMaskSize: nat) returns (s: Bytes)
      ensures s == os + Mask(vout, 0, nMaskSize)
    {
      hide MaskByte;
      var b := 0;
      s := os;
      while b < nMaskSize
        invariant 0 <= b <= nMaskSize && s + Mask(vout, b, nMaskSize) == os + Mask(vout, 0, nMaskSize)
      {
        var chAvail := MaskByteOf(vout, b);
        assert Mask(vout, b, nMaskSize) == [chAvail] + Mask(vout, b + 1, nMaskSize);
        s := s + [chAvail];
        b := b + 1;
      }
    }

    method WriteOuts(os: Bytes) returns (s: Bytes)
      requires Amounts(vout)
      ensures s == os + Outs(curve, vout, 0, |vout|)
    {
      hide EncodedOut;
      var i := 0;
      s := os;
      while i < |vout|
        invariant 0 <= i <= |vout| && s + Outs(curve, vout, i, |vout|) == os + Outs(curve, vout, 0, |vout|)
      {
        if !vout[i].IsNull() {
          assert Outs(curve, vout, i, |vout|) == EncodedOut(curve, vout[i]) + Outs(curve, vout, i + 1, |vout|);
          s := WriteOut(s, curve, vout[i]);
        }
        i := i + 1;
      }
    }

    /** Reads from the front of a stream.  False when the stream ends too early. */
    method Unserialize(s: Bytes) returns (ok: bool, rest: Bytes)
      modifies this
      ensures ok <==> Unserialized(curve, s).Some?
      ensures ok ==> Unserialized(curve, s) == Some((Value(), rest))
    {
      hide Decoded, ReadMask, ReadOuts, Trim;
      rest := s;
      var version := ReadVarInt(rest, 4);
      if version.None? { return false, rest; }
      rest := version.value.1;
      nVersion := Signed32(version.value.0);
      SignedOnce(Decoded(0, s).value.0);
      var code := ReadVarInt(rest, 4);
      if code.None? { return false, rest; }
      var nCode := code.value.0;
      rest := code.value.1;
      fCoinBase := nCode % 2 == 1;
      var nMaskCode := nCode / 8 + if nCode / 2 % 4 != 0 then 0 else 1;
      var mask := ReadMaskBytes(nMaskCode, rest);
      if mask.None? { return false, rest; }
      var vAvail := [nCode / 2 % 2 == 1, nCode / 4 % 2 == 1] + mask.value.0;
      rest := mask.value.1;
      ok, rest := ReadAll(vAvail, rest);
      if ok { Cleanup(); }
    }

    /** One output for every bit of `vAvail`, read if the bit is set. */
    method ReadAll(vAvail: seq<bool>, s: Bytes) returns (ok: bool, rest: Bytes)
      modifies this`vout
      ensures ok <==> ReadOuts(curve, vAvail, s).Some?
      ensures ok ==> ReadOuts(curve, vAvail, s) == Some((vout, rest))
    {
      hide DecodedOut;
      vout := seq(|vAvail|, _ => NULL_OUT);
      rest := s;
      var i := 0;
      assert vAvail[0..] == vAvail && vout[..0] == [];
      BehindNothing(ReadOuts(curve, vAvail, s));
      while i < |vAvail|
        invariant 0 <= i <= |vAvail| == |vout| && forall k :: i <= k < |vout| ==> vout[k] == NULL_OUT
        invariant ReadOuts(curve, vAvail, s) == Behind(vout[..i], ReadOuts(curve, vAvail[i..], rest))
      {
        assert vAvail[i..][0] == vAvail[i] && vAvail[i..][1..] == vAvail[i + 1..];
        ghost var before := vout[..i];
        if vAvail[i] {
          var read := ReadOut(rest, curve);
          if read.None? { return false, rest; }
          vout := vout[i := read.value.0];
          rest := read.value.1;
        }
        BehindTwice(before, vout[i], ReadOuts(curve, vAvail[i + 1..], rest));
        assert vout[..i + 1] == before + [vout[i]];
        i := i + 1;
      }
      assert vout[..i] + [] == vout;
      return true, rest;
    }
  }

  lemma Regroup(a: Bytes, b: Bytes, c: Bytes, d: Bytes, e: Bytes)
    ensures a + b + c + d + e == a + (b + c + (d + e))
  {
  }

  lemma WrittenNat(n: nat)
    ensures Written(n) == Encoded(n)
  {
  }

  lemma SignedOnce(n: nat)
    ensures Signed32(n % TWO32) == Signed32(n)
  {
  }

  function Behind(outs: seq<TxOut>, r: Option<(seq<TxOut>, Bytes)>): Option<(seq<TxOut>, Bytes)> {
    match r
    case None => None
    case Some((more, rest)) => Some((outs + more, rest))
  }

  lemma BehindNothing(r: Option<(seq<TxOut>, Bytes)>)
    ensures Behind([], r) == r
  {
    if r.Some? { assert [] + r.value.0 == r.value.0; }
  }

  lemma BehindTwice(a: seq<TxOut>, o: TxOut, r: Option<(seq<TxOut>, Bytes)>)
    ensures Behind(a, Behind([o], r)) == Behind(a + [o], r)
  {
    if r.Some? { assert a + ([o] + r.value.0) == (a + [o]) + r.value.0; }
  }
}
