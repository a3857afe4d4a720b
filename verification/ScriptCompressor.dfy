/**
 Scripts in compact form: CScriptCompressor in src/script.h and src/script.cpp.

 Payments to a key, a key hash or a script hash have short codes below `SPECIAL`; any other
 script is written with its length, `SPECIAL` higher.
 */
module ScriptCompressor {
  import opened Arithmetic
  import opened VarInt
  import opened Wrappers

  const OP_DUP: Byte := 0x76
  const OP_EQUAL: Byte := 0x87
  const OP_EQUALVERIFY: Byte := 0x88
  const OP_HASH160: Byte := 0xa9
  const OP_CHECKSIG: Byte := 0xac

  const SPECIAL: nat := 6

  /** What elliptic curves decide: whether a public key is a point, and what point a short key stands for. */
  datatype Curve = Curve(isFullyValid: Bytes -> bool, decompress: Bytes -> Option<Bytes>)
  {
    /** A long key that is valid comes back from its short form, whose first byte has the parity of the last. */
    ghost predicate Lawful() {
      && (forall key :: |key| == 65 && key[0] == 4 && isFullyValid(key) ==> decompress(Short(key)) == Some(key))
      && (forall short :: decompress(short).Some? ==> |decompress(short).value| == 65)
    }
  }

  function Short(key: Bytes): Bytes
    requires |key| == 65
  {
    [2 + key[64] % 2] + key[1..33]
  }

  predicate IsToKeyID(script: Bytes) {
    && |script| == 25 && script[0] == OP_DUP && script[1] == OP_HASH160
    && script[2] == 20 && script[23] == OP_EQUALVERIFY && script[24] == OP_CHECKSIG
  }

  predicate IsToScriptID(script: Bytes) {
    |script| == 23 && script[0] == OP_HASH160 && script[1] == 20 && script[22] == OP_EQUAL
  }

  predicate IsToShortKey(script: Bytes) {
    && |script| == 35 && script[0] == 33 && script[34] == OP_CHECKSIG
    && (script[1] == 0x02 || script[1] == 0x03)
  }

  predicate IsToLongKey(curve: Curve, script: Bytes) {
    && |script| == 67 && script[0] == 65 && script[66] == OP_CHECKSIG && script[1] == 0x04
    && curve.isFullyValid(script[1..66])
  }

  function Compress(curve: Curve, script: Bytes): Option<Bytes> {
    if IsToKeyID(script) then Some([0x00] + script[3..23])
    else if IsToScriptID(script) then Some([0x01] + script[2..22])
    else if IsToShortKey(script) then Some([script[1]] + script[2..34])
    else if IsToLongKey(curve, script) then Some([4 + script[65] % 2] + script[2..34])
    else None
  }

  function SpecialSize(nSize: nat): nat {
    if nSize == 0 || nSize == 1 then 20 else if nSize < SPECIAL then 32 else 0
  }

  /** The script is left as it was, which is empty, when a key is not a point. */
  function Decompress(curve: Curve, nSize: nat, data: Bytes): Bytes
    requires nSize < SPECIAL && |data| == SpecialSize(nSize)
  {
    if nSize == 0 then [OP_DUP, OP_HASH160, 20] + data + [OP_EQUALVERIFY, OP_CHECKSIG]
    else if nSize == 1 then [OP_HASH160, 20] + data + [OP_EQUAL]
    else if nSize == 2 || nSize == 3 then [33, nSize as Byte] + data + [OP_CHECKSIG]
    else match curve.decompress([(nSize - 2) as Byte] + data)
      case None => []
      case Some(key) => [65] + key + [OP_CHECKSIG]
  }

  /** Serialize.  The length is held in 32 bits. */
  function Written(curve: Curve, script: Bytes): Bytes {
    match Compress(curve, script)
    case Some(out) => out
    case None => Encoded((|script| + SPECIAL) % TWO32) + script
  }

  /** Unserialize; None when the stream ends too early. */
  function Read(curve: Curve, s: Bytes): Option<(Bytes, Bytes)> {
    match Decoded(0, s)
    case None => None
    case Some((n, rest)) =>
      var nSize := n % TWO32;
      var length := if nSize < SPECIAL then SpecialSize(nSize) else nSize - SPECIAL;
      if length > |rest| then None
      else if nSize < SPECIAL then Some((Decompress(curve, nSize, rest[..length]), rest[length..]))
      else Some((rest[..length], rest[length..]))
  }

  /** The bytes of the special forms: a key hash after 0, a script hash after 1, a short key as it is, and of a long key
      its x coordinate after 4 or, when the last byte is odd, 5. */
  lemma SpecialForms(curve: Curve, hash: Bytes, key: Bytes)
    requires |hash| == 20
    ensures Compress(curve, [0x76, 0xa9, 20] + hash + [0x88, 0xac]) == Some([0] + hash)
    ensures Compress(curve, [0xa9, 20] + hash + [0x87]) == Some([1] + hash)
    ensures |key| == 33 && (key[0] == 2 || key[0] == 3) ==> Compress(curve, [33] + key + [0xac]) == Some(key)
    ensures (|key| == 65 && key[0] == 4 ==>
      Compress(curve, [65] + key + [0xac])
      == if curve.isFullyValid(key) then Some([if key[64] % 2 == 1 then 5 else 4] + key[1..33]) else None)
  {
    assert ([0x76, 0xa9, 20] + hash + [0x88, 0xac])[3..23] == hash;
    assert ([0xa9, 20] + hash + [0x87])[2..22] == hash;
    if |key| == 33 {
      assert ([33] + key + [0xac])[2..34] == key[1..] && [key[0]] + key[1..] == key;
    } else if |key| == 65 {
      var s := [65] + key + [0xac];
      assert s[2..34] == key[1..33] && s[1..66] == key && s[65] == key[64];
    }
  }

  /** No other script has a special form. */
  lemma OnlySpecialForms(curve: Curve, script: Bytes)
    requires Compress(curve, script).Some?
    ensures var n := |script|;
      || (n == 25 && script == [0x76, 0xa9, 20] + script[3..23] + [0x88, 0xac])
      || (n == 23 && script == [0xa9, 20] + script[2..22] + [0x87])
      || (n == 35 && script == [33] + script[1..34] + [0xac] && 2 <= script[1] <= 3)
      || (n == 67 && script == [65] + script[1..66] + [0xac] && script[1] == 4 && curve.isFullyValid(script[1..66]))
  {
  }

  /** Codes 4 and 5 ask for the point with that x coordinate, as short keys that begin with 2 and 3 do; where there is
      none the script stays empty. */
  lemma LongForms(curve: Curve, x: Bytes, odd: nat)
    requires |x| == 32 && odd <= 1
    ensures Decompress(curve, 4 + odd, x)
      == match curve.decompress([(2 + odd) as Byte] + x) case None => [] case Some(key) => [65] + key + [0xac]
  {
  }

  /** Any other script follows its length, six higher. */
  lemma PlainForm(curve: Curve, script: Bytes)
    requires |script| + 6 < 0x1_0000_0000
    ensures Compress(curve, script).None? ==> Written(curve, script) == Encoded(|script| + 6) + script
  {
    hide Compress, Encoded;
  }

  /** A special code reads back as the script it was made from. */
  lemma DecompressCompress(curve: Curve, script: Bytes)
    requires curve.Lawful() && Compress(curve, script).Some?
    ensures var out := Compress(curve, script).value;
      && out != [] && (out[0] as int) < SPECIAL && |out[1..]| == SpecialSize(out[0] as int)
      && Decompress(curve, out[0] as int, out[1..]) == script
  {
    var out := Compress(curve, script).value;
    if IsToKeyID(script) {
      assert script == [OP_DUP, OP_HASH160, 20] + script[3..23] + [OP_EQUALVERIFY, OP_CHECKSIG];
    } else if IsToScriptID(script) {
      assert script == [OP_HASH160, 20] + script[2..22] + [OP_EQUAL];
    } else if IsToShortKey(script) {
      assert script == [33, script[1]] + script[2..34] + [OP_CHECKSIG];
    } else {
      var key := script[1..66];
      assert key[64] == script[65] && key[1..33] == script[2..34];
      assert [(out[0] as int - 2) as Byte] + out[1..] == Short(key);
      assert script == [65] + key + [OP_CHECKSIG];
    }
  }

  /** Every script comes back, whatever it is, and exactly its bytes are read. */
  lemma RoundTrip(curve: Curve, script: Bytes, rest: Bytes)
    requires curve.Lawful() && |script| + SPECIAL < TWO32
    ensures Read(curve, Written(curve, script) + rest) == Some((script, rest))
  {
    hide Compress, Decompress, SpecialSize, Encoded;
    match Compress(curve, script)
    case Some(out) =>
      DecompressCompress(curve, script);
      ReadSpecial(curve, out, rest);
    case None =>
      var s := Written(curve, script) + rest;
      VarInt.RoundTrip(|script| + SPECIAL, script + rest);
      assert s == Encoded(|script| + SPECIAL) + (script + rest);
      assert (script + rest)[..|script|] == script && (script + rest)[|script|..] == rest;
  }

  lemma ReadSpecial(curve: Curve, out: Bytes, rest: Bytes)
    requires out != [] && (out[0] as int) < SPECIAL && |out[1..]| == SpecialSize(out[0] as int)
    ensures Read(curve, out + rest) == Some((Decompress(curve, out[0] as int, out[1..]), rest))
  {
    hide Decompress, SpecialSize;
    var s, length := out + rest, |out[1..]|;
    assert s[0] == out[0] && s[1..] == out[1..] + rest;
    assert Decoded(0, s) == Some((out[0] as int, s[1..]));
    assert s[1..][..length] == out[1..] && s[1..][length..] == rest;
  }
}
