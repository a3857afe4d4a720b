/**
 Unspent outputs as bytes: the serialization of CCoins in src/coins.h.

 A version, a code that says how many mask bytes are not zero and whether the first two
 outputs are there, one mask bit for every other output, and the outputs that are there.
 */
module CoinsCodec {
  import opened Arithmetic
  import opened Transactions
  import opened VarInt
  import opened Wrappers
  import Amount
  import Scripts = ScriptCompressor

  predicate IsPruned(vout: seq<TxOut>) {
    forall k :: 0 <= k < |vout| ==> vout[k].IsNull()
  }

  /** Spent outputs with nothing left in them. */
  function Nulled(vout: seq<TxOut>): (r: seq<TxOut>)
    ensures |r| == |vout|
  {
    seq(|vout|, k requires 0 <= k < |vout| => if vout[k].IsNull() then NULL_OUT else vout[k])
  }

  // ---- The mask ----

  function FromBits(s: seq<bool>): nat {
    if s == [] then 0 else (if s[0] then 1 else 0) + 2 * FromBits(s[1..])
  }

  function ToBits(n: nat, k: nat): (s: seq<bool>)
    ensures |s| == k
  {
    if k == 0 then [] else [n % 2 == 1] + ToBits(n / 2, k - 1)
  }

  lemma {:induction false} BitsBack(s: seq<bool>)
    ensures ToBits(FromBits(s), |s|) == s && FromBits(s) < Pow2(|s|)
  {
    if s != [] {
      BitsBack(s[1..]);
      FirstBit(s[0], FromBits(s[1..]));
      assert s == [s[0]] + s[1..];
    }
  }

  lemma FirstBit(x: bool, n: nat)
    ensures var m := (if x then 1 else 0) + 2 * n; (m % 2 == 1 <==> x) && m / 2 == n
  {
  }

  lemma {:induction false} NoBits(s: seq<bool>)
    ensures FromBits(s) == 0 <==> forall i :: 0 <= i < |s| ==> !s[i]
  {
    if s != [] {
      NoBits(s[1..]);
      if !s[0] && forall i :: 0 <= i < |s[1..]| ==> !s[1..][i] {
        forall i | 0 <= i < |s| ensures !s[i] {
          if i > 0 { assert s[i] == s[1..][i - 1]; }
        }
      }
    }
  }

  lemma Bytes256()
    ensures Pow2(8) == 256
  {
    assert Pow2(2) == 4 && Pow2(4) == 16 && Pow2(6) == 64;
  }

  function MaskBits(vout: seq<TxOut>, b: nat): (s: seq<bool>)
    ensures |s| == 8 && forall i :: 0 <= i < 8 ==> (s[i] <==> Avail(vout, 2 + b * 8 + i))
  {
    seq(8, i requires 0 <= i < 8 => Avail(vout, 2 + b * 8 + i))
  }

  function MaskByte(vout: seq<TxOut>, b: nat): Byte {
    BitsBack(MaskBits(vout, b));
    Bytes256();
    FromBits(MaskBits(vout, b)) as Byte
  }

  /** Bit by bit, the least significant first. */
  lemma MaskFigures(vout: seq<TxOut>, b: nat)
    ensures MaskByte(vout, b) as int
         == (if Avail(vout, 2 + 8 * b) then 1 else 0) + (if Avail(vout, 3 + 8 * b) then 2 else 0)
          + (if Avail(vout, 4 + 8 * b) then 4 else 0) + (if Avail(vout, 5 + 8 * b) then 8 else 0)
          + (if Avail(vout, 6 + 8 * b) then 16 else 0) + (if Avail(vout, 7 + 8 * b) then 32 else 0)
          + (if Avail(vout, 8 + 8 * b) then 64 else 0) + (if Avail(vout, 9 + 8 * b) then 128 else 0)
  {
    hide Avail;
    EightBits(MaskBits(vout, b));
  }

  lemma EightBits(s: seq<bool>)
    requires |s| == 8
    ensures FromBits(s)
         == (if s[0] then 1 else 0) + (if s[1] then 2 else 0) + (if s[2] then 4 else 0) + (if s[3] then 8 else 0)
          + (if s[4] then 16 else 0) + (if s[5] then 32 else 0) + (if s[6] then 64 else 0) + (if s[7] then 128 else 0)
  {
    assert FromBits([]) == 0;
    hide FromBits;
    FourBits(s[..4], s[4..]);
    FourBits(s[4..], []);
    assert s == s[..4] + s[4..] && s[4..] == s[4..] + [];
  }

  lemma FourBits(s: seq<bool>, rest: seq<bool>)
    requires |s| == 4
    ensures FromBits(s + rest)
         == (if s[0] then 1 else 0) + (if s[1] then 2 else 0) + (if s[2] then 4 else 0) + (if s[3] then 8 else 0)
          + 16 * FromBits(rest)
  {
    hide FromBits;
    assert s + rest == [s[0]] + ([s[1]] + ([s[2]] + ([s[3]] + rest)));
    BitFirst(s[0], [s[1]] + ([s[2]] + ([s[3]] + rest)));
    BitFirst(s[1], [s[2]] + ([s[3]] + rest));
    BitFirst(s[2], [s[3]] + rest);
    BitFirst(s[3], rest);
  }

  lemma BitFirst(x: bool, rest: seq<bool>)
    ensures FromBits([x] + rest) == (if x then 1 else 0) + 2 * FromBits(rest)
  {
    assert ([x] + rest)[1..] == rest;
  }

  lemma MaskZero(vout: seq<TxOut>, b: nat)
    ensures MaskByte(vout, b) == 0 <==> forall i :: 0 <= i < 8 ==> !MaskBits(vout, b)[i]
    ensures ToBits(MaskByte(vout, b) as nat, 8) == MaskBits(vout, b)
  {
    BitsBack(MaskBits(vout, b));
    NoBits(MaskBits(vout, b));
  }

  /** How many mask bytes there are before the last ones that are zero. */
  function LastUsed(vout: seq<TxOut>, b: nat): (r: nat)
    ensures r <= b && (r > 0 ==> MaskByte(vout, r - 1) != 0)
    ensures forall j :: r <= j < b ==> MaskByte(vout, j) == 0
  {
    if b == 0 then 0 else if MaskByte(vout, b - 1) != 0 then b else LastUsed(vout, b - 1)
  }

  /** As many mask bytes as the outputs after the second need. */
  function MaskBytes(n: nat): (b: nat)
    ensures 2 + b * 8 >= n && b * 8 <= n + 5
  {
    if n <= 2 then 0 else (n - 2 + 7) / 8
  }

  function MaskSize(vout: seq<TxOut>): nat {
    LastUsed(vout, MaskBytes(|vout|))
  }

  function Nonzero(vout: seq<TxOut>, b: nat, size: nat): (r: nat)
    ensures b <= size ==> r <= size - b
    decreases size - b
  {
    if b >= size then 0 else (if MaskByte(vout, b) != 0 then 1 else 0) + Nonzero(vout, b + 1, size)
  }

  function Mask(vout: seq<TxOut>, b: nat, size: nat): Bytes
    decreases size - b
  {
    if b >= size then [] else [MaskByte(vout, b)] + Mask(vout, b + 1, size)
  }

  /** Reads mask bytes until `count` of them were not zero. */
  function ReadMask(count: nat, s: Bytes): Option<(seq<bool>, Bytes)>
    decreases |s|
  {
    if count == 0 then Some(([], s))
    else if s == [] then None
    else match ReadMask(if s[0] != 0 then count - 1 else count, s[1..])
      case None => None
      case Some((bits, rest)) => Some((ToBits(s[0] as nat, 8) + bits, rest))
  }

  function Availability(vout: seq<TxOut>, k: nat, n: nat): (r: seq<bool>)
    decreases n - k
  {
    if k >= n then [] else [Avail(vout, k)] + Availability(vout, k + 1, n)
  }

  lemma {:induction false} AvailabilityAt(vout: seq<TxOut>, k: nat, n: nat)
    requires k <= n
    ensures |Availability(vout, k, n)| == n - k
    ensures forall i :: 0 <= i < n - k ==> (Availability(vout, k, n)[i] <==> Avail(vout, k + i))
    decreases n - k
  {
    if k < n {
      AvailabilityAt(vout, k + 1, n);
      forall i | 0 <= i < n - k ensures Availability(vout, k, n)[i] <==> Avail(vout, k + i) {
        if i > 0 { assert Availability(vout, k, n)[i] == Availability(vout, k + 1, n)[i - 1]; }
      }
    }
  }

  lemma AvailabilityOf(vout: seq<TxOut>, k: nat, n: nat, s: seq<bool>)
    requires k <= n && |s| == n - k && forall i :: 0 <= i < n - k ==> (s[i] <==> Avail(vout, k + i))
    ensures s == Availability(vout, k, n)
  {
    AvailabilityAt(vout, k, n);
  }

  lemma {:induction false} NonzeroLast(vout: seq<TxOut>, b: nat, size: nat)
    requires b < size && MaskByte(vout, size - 1) != 0
    ensures Nonzero(vout, b, size) > 0
    decreases size - b
  {
    if b < size - 1 { NonzeroLast(vout, b + 1, size); }
  }

  /** The count of bytes that are not zero is enough to find the end of the mask. */
  lemma {:induction false} ReadMaskBack(vout: seq<TxOut>, b: nat, size: nat, rest: Bytes)
    requires b <= size && (size > 0 ==> MaskByte(vout, size - 1) != 0)
    ensures ReadMask(Nonzero(vout, b, size), Mask(vout, b, size) + rest)
         == Some((Availability(vout, 2 + b * 8, 2 + size * 8), rest))
    decreases size - b
  {
    hide MaskByte, ToBits, Avail, MaskBits, Availability;
    var s := Mask(vout, b, size) + rest;
    if b == size {
      assert s == rest;
      AvailabilityAt(vout, 2 + b * 8, 2 + size * 8);
    } else {
      NonzeroLast(vout, b, size);
      ReadMaskBack(vout, b + 1, size, rest);
      MaskZero(vout, b);
      assert s[0] == MaskByte(vout, b) && s[1..] == Mask(vout, b + 1, size) + rest;
      var later := Availability(vout, 2 + (b + 1) * 8, 2 + size * 8);
      AvailabilityAt(vout, 2 + (b + 1) * 8, 2 + size * 8);
      AvailabilityOf(vout, 2 + b * 8, 2 + size * 8, MaskBits(vout, b) + later);
    }
  }

  // ---- The outputs ----

  function EncodedOut(curve: Scripts.Curve, o: TxOut): Bytes {
    Encoded(Amount.Compressed(o.nValue % TWO64) % TWO64) + Scripts.Written(curve, o.scriptPubKey)
  }

  function DecodedOut(curve: Scripts.Curve, s: Bytes): Option<(TxOut, Bytes)> {
    match Decoded(0, s)
    case None => None
    case Some((n, rest)) =>
      match Scripts.Read(curve, rest)
      case None => None
      case Some((script, rest2)) => Some((TxOut(Signed64(Amount.Decompressed(n % TWO64) % TWO64), script), rest2))
  }

  /** An unsigned 64-bit number taken as a signed one. */
  function Signed64(n: nat): int {
    if n < TWO63 then n else n - TWO64
  }

  /** What fits the code without loss: an amount whose compact form has 64 bits, negative or not, and a script whose
      length fits 32 bits. */
  predicate OutFits(o: TxOut) {
    && -TWO63 <= o.nValue < TWO63 && Amount.Compressed(o.nValue % TWO64) < TWO64
    && |o.scriptPubKey| + Scripts.SPECIAL < TWO32
  }

  /** All money fits, and far more: every amount below a ninth of 2^64. */
  lemma MoneyFits(o: TxOut)
    requires (MoneyRange(o.nValue) || 0 <= 9 * o.nValue < TWO64) && |o.scriptPubKey| + Scripts.SPECIAL < TWO32
    ensures OutFits(o)
  {
    hide Amount.Compressed;
    Amount.CompressedBound(o.nValue);
  }

  lemma SignedBack(n: int)
    requires -TWO63 <= n < TWO63
    ensures Signed64(n % TWO64) == n
  {
  }

  lemma OutRoundTrip(curve: Scripts.Curve, o: TxOut, rest: Bytes)
    requires curve.Lawful() && OutFits(o)
    ensures DecodedOut(curve, EncodedOut(curve, o) + rest) == Some((o, rest))
  {
    hide Decoded, Encoded, Amount.Compressed, Amount.Decompressed, Scripts.Written, Scripts.Read, Signed64;
    var u: nat := o.nValue % TWO64;
    var n := Amount.Compressed(u);
    Amount.DecompressCompress(u);
    SignedBack(o.nValue);
    var tail := Scripts.Written(curve, o.scriptPubKey) + rest;
    assert EncodedOut(curve, o) + rest == Encoded(n) + tail;
    VarInt.RoundTrip(n, tail);
    Scripts.RoundTrip(curve, o.scriptPubKey, rest);
  }

  function Outs(curve: Scripts.Curve, vout: seq<TxOut>, k: nat, n: nat): Bytes
    decreases n - k
  {
    if k >= n then []
    else (if Avail(vout, k) then EncodedOut(curve, vout[k]) else []) + Outs(curve, vout, k + 1, n)
  }

  function ReadOuts(curve: Scripts.Curve, avail: seq<bool>, s: Bytes): Option<(seq<TxOut>, Bytes)>
    decreases |avail|
  {
    if avail == [] then Some(([], s))
    else if !avail[0] then
      match ReadOuts(curve, avail[1..], s)
      case None => None
      case Some((outs, rest)) => Some(([NULL_OUT] + outs, rest))
    else
      match DecodedOut(curve, s)
      case None => None
      case Some((o, rest)) =>
        match ReadOuts(curve, avail[1..], rest)
        case None => None
        case Some((outs, rest2)) => Some(([o] + outs, rest2))
  }

  function KeptOut(vout: seq<TxOut>, k: nat): TxOut {
    if Avail(vout, k) then vout[k] else NULL_OUT
  }

  function Kept(vout: seq<TxOut>, k: nat, n: nat): (r: seq<TxOut>)
    decreases n - k
  {
    if k >= n then [] else [KeptOut(vout, k)] + Kept(vout, k + 1, n)
  }

  ghost predicate OutsFit(vout: seq<TxOut>) {
    forall k :: 0 <= k < |vout| && !vout[k].IsNull() ==> OutFits(vout[k])
  }

  lemma {:induction false} ReadOutsBack(curve: Scripts.Curve, vout: seq<TxOut>, k: nat, n: nat, rest: Bytes)
    requires curve.Lawful() && OutsFit(vout)
    ensures ReadOuts(curve, Availability(vout, k, n), Outs(curve, vout, k, n) + rest) == Some((Kept(vout, k, n), rest))
    decreases n - k
  {
    hide DecodedOut, EncodedOut, OutFits;
    var s := Outs(curve, vout, k, n) + rest;
    if k >= n {
      assert s == rest;
    } else {
      var tail := Outs(curve, vout, k + 1, n) + rest;
      ReadOutsBack(curve, vout, k + 1, n, rest);
      assert Availability(vout, k, n)[1..] == Availability(vout, k + 1, n);
      if Avail(vout, k) {
        assert s == EncodedOut(curve, vout[k]) + tail;
        OutRoundTrip(curve, vout[k], tail);
      } else {
        assert s == tail;
      }
    }
  }

  /** Outputs that are not there take no room. */
  lemma {:induction false} OutsBeyond(curve: Scripts.Curve, vout: seq<TxOut>, k: nat, n: nat, m: nat)
    requires n <= m && forall j: nat :: n <= j < m ==> !Avail(vout, j)
    ensures Outs(curve, vout, k, n) == Outs(curve, vout, k, m)
    decreases m - k
  {
    if k < m { OutsBeyond(curve, vout, k + 1, n, m); }
  }

  lemma {:induction false} KeptAt(vout: seq<TxOut>, k: nat, n: nat)
    requires k <= n
    ensures |Kept(vout, k, n)| == n - k
    ensures forall i :: 0 <= i < n - k ==> Kept(vout, k, n)[i] == KeptOut(vout, k + i)
    decreases n - k
  {
    hide KeptOut;
    if k < n {
      KeptAt(vout, k + 1, n);
      var later := Kept(vout, k + 1, n);
      assert Kept(vout, k, n) == [KeptOut(vout, k)] + later;
      forall i | 0 <= i < n - k ensures Kept(vout, k, n)[i] == KeptOut(vout, k + i) {
        if i > 0 { assert Kept(vout, k, n)[i] == later[i - 1]; }
      }
    }
  }

  // ---- Trimming ----

  /** Two lists of outputs that differ only in trailing spent ones. */
  ghost predicate Agree(v: seq<TxOut>, w: seq<TxOut>) {
    forall k: nat :: (Avail(v, k) <==> Avail(w, k)) && (k < |v| && k < |w| ==> v[k] == w[k])
  }

  lemma TrimAtLeast(v: seq<TxOut>, w: seq<TxOut>)
    requires Agree(v, w)
    ensures |Trim(v)| >= |Trim(w)|
  {
    var n := |Trim(w)|;
    if n > 0 {
      assert Trim(w)[n - 1] == w[n - 1];
      assert Avail(w, n - 1);
      assert Avail(v, n - 1);
    }
  }

  lemma TrimAgree(v: seq<TxOut>, w: seq<TxOut>)
    requires Agree(v, w)
    ensures Trim(v) == Trim(w)
  {
    TrimAtLeast(v, w);
    TrimAtLeast(w, v);
    forall k | 0 <= k < |Trim(v)| ensures Trim(v)[k] == Trim(w)[k] {
      assert Trim(v)[k] == v[k] && Trim(w)[k] == w[k];
    }
  }

  // ---- Everything ----

  function Code(c: Coins): (r: int) {
    var first, second := Avail(c.vout, 0), Avail(c.vout, 1);
    8 * (Nonzero(c.vout, 0, MaskSize(c.vout)) - (if first || second then 0 else 1))
      + (if c.fCoinBase then 1 else 0) + (if first then 2 else 0) + (if second then 4 else 0)
  }

  /** Not all outputs are spent exactly when one of the first two is there or some mask byte is not zero. */
  lemma AvailableSomewhere(vout: seq<TxOut>)
    ensures !IsPruned(vout) <==> Avail(vout, 0) || Avail(vout, 1) || Nonzero(vout, 0, MaskSize(vout)) > 0
  {
    hide MaskByte;
    if Nonzero(vout, 0, MaskSize(vout)) > 0 {
      var b := SomeNonzero(vout, 0, MaskSize(vout));
      MaskZero(vout, b);
      var i :| 0 <= i < 8 && MaskBits(vout, b)[i];
      assert Avail(vout, 2 + b * 8 + i);
    }
    if exists k :: 0 <= k < |vout| && !vout[k].IsNull() { AvailableFrom(vout); }
  }

  lemma {:induction false} SomeNonzero(vout: seq<TxOut>, b: nat, size: nat) returns (k: nat)
    requires Nonzero(vout, b, size) > 0
    ensures b <= k < size && MaskByte(vout, k) != 0
    decreases size - b
  {
    hide MaskByte;
    k := b;
    if MaskByte(vout, b) == 0 { k := SomeNonzero(vout, b + 1, size); }
  }

  lemma AvailableFrom(vout: seq<TxOut>)
    requires exists k :: 0 <= k < |vout| && !vout[k].IsNull()
    ensures Avail(vout, 0) || Avail(vout, 1) || Nonzero(vout, 0, MaskSize(vout)) > 0
  {
    hide MaskByte, MaskSize, Nonzero;
    var k :| 0 <= k < |vout| && !vout[k].IsNull();
    if k >= 2 {
      MaskHas(vout, (k - 2) / 8, (k - 2) % 8);
      MaskSizeAbove(vout, (k - 2) / 8);
      NonzeroLast(vout, 0, MaskSize(vout));
    }
  }

  lemma MaskHas(vout: seq<TxOut>, b: nat, i: nat)
    requires i < 8 && Avail(vout, 2 + b * 8 + i)
    ensures MaskByte(vout, b) != 0 && b < MaskBytes(|vout|)
  {
    hide MaskByte;
    MaskZero(vout, b);
    assert MaskBits(vout, b)[i];
  }

  lemma MaskSizeAbove(vout: seq<TxOut>, b: nat)
    requires MaskByte(vout, b) != 0 && b < MaskBytes(|vout|)
    ensures b < MaskSize(vout) && MaskByte(vout, MaskSize(vout) - 1) != 0
  {
    hide MaskByte, MaskBytes;
    MaskEnds(vout);
  }

  /** The outputs beyond the mask are not there. */
  lemma BeyondMask(vout: seq<TxOut>, k: nat)
    requires k >= 2 + MaskSize(vout) * 8
    ensures !Avail(vout, k)
  {
    hide MaskByte;
    var b := (k - 2) / 8;
    MaskZero(vout, b);
    assert MaskBits(vout, b)[(k - 2) % 8] <==> Avail(vout, 2 + b * 8 + (k - 2) % 8);
  }

  /** What can be written: something is left, and the numbers have their types. */
  predicate Fits(c: Coins) {
    !IsPruned(c.vout) && |c.vout| + 16 < TWO32 && -TWO32 / 2 <= c.nVersion < TWO32 / 2
  }

  lemma CodeBound(c: Coins)
    requires Fits(c)
    ensures 0 <= Code(c) < TWO32
    ensures Code(c) % 2 == 1 <==> c.fCoinBase
    ensures Code(c) / 2 % 2 == 1 <==> Avail(c.vout, 0)
    ensures Code(c) / 4 % 2 == 1 <==> Avail(c.vout, 1)
    ensures Code(c) / 8 + (if Code(c) / 2 % 4 != 0 then 0 else 1) == Nonzero(c.vout, 0, MaskSize(c.vout))
  {
    hide Nonzero, MaskSize, Avail;
    AvailableSomewhere(c.vout);
    MaskEnds(c.vout);
    var first, second := Avail(c.vout, 0), Avail(c.vout, 1);
    var n := Nonzero(c.vout, 0, MaskSize(c.vout)) - if first || second then 0 else 1;
    assert n >= 0 && 8 * n < |c.vout| + 6;
    CodeBits(n, c.fCoinBase, first, second);
  }

  lemma CodeBits(n: nat, coinBase: bool, first: bool, second: bool)
    ensures var code := 8 * n + (if coinBase then 1 else 0) + (if first then 2 else 0) + (if second then 4 else 0);
      && (code % 2 == 1 <==> coinBase) && (code / 2 % 2 == 1 <==> first) && (code / 4 % 2 == 1 <==> second)
      && (code / 2 % 4 != 0 <==> first || second) && code / 8 == n
  {
  }

  function Serialized(curve: Scripts.Curve, c: Coins): Bytes
    requires Fits(c)
  {
    CodeBound(c);
    Written(c.nVersion) + Encoded(Code(c)) + Body(curve, c.vout)
  }

  /** The version is read into a signed 32-bit number. */
  function Signed32(n: nat): int {
    var m := n % TWO32;
    if m < TWO32 / 2 then m else m - TWO32
  }

  function Unserialized(curve: Scripts.Curve, s: Bytes): Option<(Coins, Bytes)> {
    match Decoded(0, s)
    case None => None
    case Some((version, s1)) =>
      match Decoded(0, s1)
      case None => None
      case Some((code0, s2)) =>
        match ReadBody(curve, code0 % TWO32, s2)
        case None => None
        case Some((vout, s4)) => Some((Coins(code0 % TWO32 % 2 == 1, vout, Signed32(version)), s4))
  }

  /** What follows the code. */
  function ReadBody(curve: Scripts.Curve, code: nat, s: Bytes): Option<(seq<TxOut>, Bytes)> {
    match ReadMask(code / 8 + if code / 2 % 4 != 0 then 0 else 1, s)
    case None => None
    case Some((bits, s1)) =>
      match ReadOuts(curve, [code / 2 % 2 == 1, code / 4 % 2 == 1] + bits, s1)
      case None => None
      case Some((outs, s2)) => Some((Trim(outs), s2))
  }

  function Body(curve: Scripts.Curve, vout: seq<TxOut>): Bytes {
    Mask(vout, 0, MaskSize(vout)) + Outs(curve, vout, 0, |vout|)
  }

  lemma BodyRoundTrip(curve: Scripts.Curve, c: Coins, rest: Bytes)
    requires curve.Lawful() && Fits(c) && OutsFit(c.vout)
    ensures Code(c) >= 0 && ReadBody(curve, Code(c), Body(curve, c.vout) + rest) == Some((Trim(Nulled(c.vout)), rest))
  {
    hide ReadMask, ReadOuts, Mask, Outs, Code, Nonzero, MaskSize, Kept, Trim, Nulled, Avail, OutsFit, Availability;
    CodeBound(c);
    var size := MaskSize(c.vout);
    var s1 := Outs(curve, c.vout, 0, |c.vout|) + rest;
    assert Body(curve, c.vout) + rest == Mask(c.vout, 0, size) + s1;
    MaskEnds(c.vout);
    ReadMaskBack(c.vout, 0, size, s1);
    FirstTwo(c.vout, 2 + size * 8);
    OutsMask(curve, c.vout);
    ReadOutsBack(curve, c.vout, 0, 2 + size * 8, rest);
    KeptIsNulled(c.vout, 2 + size * 8);
  }

  lemma FirstTwo(vout: seq<TxOut>, n: nat)
    requires n >= 2
    ensures [Avail(vout, 0), Avail(vout, 1)] + Availability(vout, 2, n) == Availability(vout, 0, n)
  {
    AvailabilityAt(vout, 0, n);
    AvailabilityAt(vout, 2, n);
  }

  /** What is not pruned comes back, trimmed, and exactly the bytes written are read.  The version comes back exactly
      when it is not negative. */
  lemma CoinsRoundTrip(curve: Scripts.Curve, c: Coins, rest: Bytes)
    requires curve.Lawful() && Fits(c) && OutsFit(c.vout)
    ensures var r := Unserialized(curve, Serialized(curve, c) + rest);
      && r.Some? && r.value.1 == rest
      && r.value.0.fCoinBase == c.fCoinBase && r.value.0.vout == Trim(Nulled(c.vout))
      && (r.value.0.nVersion == c.nVersion <==> c.nVersion >= 0)
  {
    VersionFits(c);
    VersionBack(c.nVersion);
    hide Decoded, Encoded, Written, ReadBody, Body, Code, Trim, Nulled, Avail, Fits, OutsFit, Signed32, Serialized, Unserialized;
    CodeBound(c);
    var s2 := Body(curve, c.vout) + rest;
    var s1 := Encoded(Code(c)) + s2;
    var s := Written(c.nVersion) + s1;
    SerializedParts(curve, c, rest);
    WrittenReads(c.nVersion, s1);
    VarInt.RoundTrip(Code(c), s2);
    BodyRoundTrip(curve, c, rest);
    InParts(curve, s, if c.nVersion < 0 then c.nVersion % 128 else c.nVersion, s1, Code(c), s2);
  }

  lemma SerializedParts(curve: Scripts.Curve, c: Coins, rest: Bytes)
    requires Fits(c) && Code(c) >= 0
    ensures Serialized(curve, c) + rest == Written(c.nVersion) + (Encoded(Code(c)) + (Body(curve, c.vout) + rest))
  {
  }

  lemma VersionFits(c: Coins)
    requires Fits(c)
    ensures -TWO32 / 2 <= c.nVersion < TWO32 / 2
  {
  }

  lemma InParts(curve: Scripts.Curve, s: Bytes, version: nat, s1: Bytes, code: nat, s2: Bytes)
    requires Decoded(0, s) == Some((version, s1)) && Decoded(0, s1) == Some((code, s2)) && code < TWO32
    requires ReadBody(curve, code, s2).Some?
    ensures var (vout, rest) := ReadBody(curve, code, s2).value;
      Unserialized(curve, s) == Some((Coins(code % 2 == 1, vout, Signed32(version)), rest))
  {
    hide Decoded, ReadBody, Signed32;
    assert code % TWO32 == code;
  }

  lemma VersionBack(n: int)
    requires -TWO32 / 2 <= n < TWO32 / 2
    ensures n >= 0 ==> Signed32(n) == n
    ensures n < 0 ==> Signed32(n % 128) != n
  {
  }

  lemma MaskEnds(vout: seq<TxOut>)
    ensures MaskSize(vout) * 8 <= |vout| + 5
    ensures forall j :: MaskSize(vout) <= j < MaskBytes(|vout|) ==> MaskByte(vout, j) == 0
    ensures MaskSize(vout) > 0 ==> MaskByte(vout, MaskSize(vout) - 1) != 0
  {
  }

  /** Writing up to the last output or up to the last mask bit comes to the same. */
  lemma OutsMask(curve: Scripts.Curve, vout: seq<TxOut>)
    ensures Outs(curve, vout, 0, |vout|) == Outs(curve, vout, 0, 2 + MaskSize(vout) * 8)
  {
    hide MaskSize, Outs;
    var n := 2 + MaskSize(vout) * 8;
    if |vout| <= n {
      OutsBeyond(curve, vout, 0, |vout|, n);
    } else {
      forall k: nat | n <= k < |vout| ensures !Avail(vout, k) { BeyondMask(vout, k); }
      OutsBeyond(curve, vout, 0, n, |vout|);
    }
  }

  lemma KeptIsNulled(vout: seq<TxOut>, n: nat)
    requires n == 2 + MaskSize(vout) * 8
    ensures Trim(Kept(vout, 0, n)) == Trim(Nulled(vout))
  {
    hide MaskSize, Trim, Kept;
    var v, w := Kept(vout, 0, n), Nulled(vout);
    KeptAt(vout, 0, n);
    forall k: nat ensures (Avail(v, k) <==> Avail(w, k)) && (k < |v| && k < |w| ==> v[k] == w[k]) {
      if k < n {
        assert v[k] == KeptOut(vout, 0 + k);
      } else {
        BeyondMask(vout, k);
      }
    }
    TrimAgree(v, w);
  }

  // ---- The examples in src/coins.h ----

  /** The script that pays to a key hash. */
  function PayToKeyHash(hash: Bytes): Bytes { [0x76, 0xa9, 20] + hash + [0x88, 0xac] }

  lemma PaysToKeyHash(curve: Scripts.Curve, value: nat, amount: Bytes, hash: Bytes)
    requires value < TWO64 && Amount.Compressed(value) < TWO64 && Encoded(Amount.Compressed(value)) == amount && |hash| == 20
    ensures EncodedOut(curve, TxOut(value, PayToKeyHash(hash))) == amount + ([0] + hash)
  {
    hide Amount.Compressed, Encoded, Scripts.Compress;
    Scripts.SpecialForms(curve, hash, []);
  }

  /** 600 coins, 2.34925952 coins, and 0.00110397 coins. */
  lemma ExampleAmounts()
    ensures Encoded(Amount.Compressed(60_000_000_000)) == [0x83, 0x58] && Amount.Compressed(60_000_000_000) < TWO64
    ensures Encoded(Amount.Compressed(234_925_952)) == [0x86, 0xef, 0x97, 0xd5, 0x79] && Amount.Compressed(234_925_952) < TWO64
    ensures Encoded(Amount.Compressed(110_397)) == [0xbb, 0xd1, 0x23] && Amount.Compressed(110_397) < TWO64
  {
    hide Amount.Compressed, Digits;
    Amount.CompactForm(60, 0, 0);
    Amount.CompactForm(23_492_595, 2, 0);
    Amount.CompactForm(11_039, 7, 0);
    assert Amount.Pow10(0) == 1;
    DigitsUnfold(3, true);
    DigitsUnfold(600, false);
    DigitsUnfold(6, true);
    DigitsUnfold(1007, true);
    DigitsUnfold(129_047, true);
    DigitsUnfold(16_518_229, true);
    DigitsUnfold(2_114_333_561, false);
    DigitsUnfold(59, true);
    DigitsUnfold(7761, true);
    DigitsUnfold(993_571, false);
  }

  /** Outputs that are not there are passed over. */
  lemma {:induction false} OutsFrom(curve: Scripts.Curve, vout: seq<TxOut>, k: nat, m: nat, n: nat)
    requires k <= m <= n && forall j: nat :: k <= j < m ==> !Avail(vout, j)
    ensures Outs(curve, vout, k, n) == Outs(curve, vout, m, n)
    decreases m - k
  {
    if k < m { OutsFrom(curve, vout, k + 1, m, n); }
  }

  lemma OutsNext(curve: Scripts.Curve, vout: seq<TxOut>, k: nat, n: nat)
    requires k < n && Avail(vout, k)
    ensures Outs(curve, vout, k, n) == EncodedOut(curve, vout[k]) + Outs(curve, vout, k + 1, n)
  {
    hide EncodedOut;
  }

  /** Version 1, not a coinbase; of two outputs the second is left, with 600 coins for a key hash. */
  lemma FirstExample(curve: Scripts.Curve, hash: Bytes)
    requires |hash| == 20
    ensures var c := Coins(false, [NULL_OUT, TxOut(60_000_000_000, PayToKeyHash(hash))], 1);
      Fits(c) && Serialized(curve, c) == [0x01] + [0x04] + ([0x83, 0x58] + ([0] + hash))
  {
    hide EncodedOut, PayToKeyHash, Digits, VarInt.Written;
    var o := TxOut(60_000_000_000, PayToKeyHash(hash));
    var vout := [NULL_OUT, o];
    var c := Coins(false, vout, 1);
    assert !vout[1].IsNull();
    ExampleAmounts();
    PaysToKeyHash(curve, 60_000_000_000, [0x83, 0x58], hash);
    OutsFrom(curve, vout, 0, 1, 2);
    OutsNext(curve, vout, 1, 2);
    assert Outs(curve, vout, 2, 2) == [];
    assert MaskSize(vout) == 0 && Mask(vout, 0, 0) == [] && Nonzero(vout, 0, 0) == 0;
    assert Code(c) == 4;
    SmallNumbers();
    assert Body(curve, vout) == [] + (EncodedOut(curve, o) + []) == EncodedOut(curve, o);
  }

  lemma SmallNumbers()
    ensures VarInt.Written(1) == [0x01] && Encoded(4) == [0x04] && Encoded(9) == [0x09]
  {
    DigitsUnfold(1, false);
    DigitsUnfold(4, false);
    DigitsUnfold(9, false);
  }

  /** Version 1, a coinbase; of seventeen outputs those numbered 4 and 16 are left. */
  lemma SecondExample(curve: Scripts.Curve, hash4: Bytes, hash16: Bytes, vout: seq<TxOut>)
    requires |hash4| == 20 && |hash16| == 20 && |vout| == 17
    requires forall k :: 0 <= k < 17 && k != 4 && k != 16 ==> vout[k].IsNull()
    requires vout[4] == TxOut(234_925_952, PayToKeyHash(hash4)) && vout[16] == TxOut(110_397, PayToKeyHash(hash16))
    ensures var c := Coins(true, vout, 1);
      Fits(c) && Serialized(curve, c) == [0x01] + [0x09] + ([0x04, 0x40]
        + (([0x86, 0xef, 0x97, 0xd5, 0x79] + ([0] + hash4)) + ([0xbb, 0xd1, 0x23] + ([0] + hash16))))
  {
    hide EncodedOut, PayToKeyHash, Digits, VarInt.Written, MaskByte;
    var c := Coins(true, vout, 1);
    assert !vout[4].IsNull();
    ExampleAmounts();
    PaysToKeyHash(curve, 234_925_952, [0x86, 0xef, 0x97, 0xd5, 0x79], hash4);
    PaysToKeyHash(curve, 110_397, [0xbb, 0xd1, 0x23], hash16);
    OutsFrom(curve, vout, 0, 4, 17);
    OutsNext(curve, vout, 4, 17);
    OutsFrom(curve, vout, 5, 16, 17);
    OutsNext(curve, vout, 16, 17);
    assert Outs(curve, vout, 17, 17) == [];
    SecondMask(vout);
    assert Code(c) == 9;
    SmallNumbers();
    assert EncodedOut(curve, vout[16]) + [] == EncodedOut(curve, vout[16]);
  }

  lemma SecondMask(vout: seq<TxOut>)
    requires |vout| == 17 && forall k :: 0 <= k < 17 ==> (Avail(vout, k) <==> k == 4 || k == 16)
    ensures MaskSize(vout) == 2 && Mask(vout, 0, 2) == [0x04, 0x40] && Nonzero(vout, 0, 2) == 2
  {
    hide MaskByte;
    MaskFigures(vout, 0);
    MaskFigures(vout, 1);
    assert MaskByte(vout, 0) == 0x04 && MaskByte(vout, 1) == 0x40;
    assert Mask(vout, 2, 2) == [] && Mask(vout, 1, 2) == [0x40] + [];
    assert Nonzero(vout, 2, 2) == 0 && Nonzero(vout, 1, 2) == 1;
  }
}
