/**
 Scripts as byte strings: src/script.h.

 A script is read one instruction at a time.  `GetOp` is the reader, `Push` the writer of
 data instructions, and `FindAndDelete` removes an instruction wherever the reader finds it.
 Lengths are stored least significant byte first.
 */
module ScriptCode {
  import opened Wrappers

  const OP_PUSHDATA1: int := 0x4c
  const OP_PUSHDATA2: int := 0x4d
  const OP_PUSHDATA4: int := 0x4e

  /** One step of the reader: failure, or an instruction of `size` bytes with its immediate data. */
  datatype Reading = Bad | Instruction(opcode: int, data: Bytes, size: nat)

  /** An unsigned number of `|s|` bytes. */
  function LittleEndian(s: Bytes): (n: nat) {
    if s == [] then 0 else s[0] as int + 256 * LittleEndian(s[1..])
  }

  /** The low `width` bytes of a number; higher bytes are lost. */
  function ToLittleEndian(n: nat, width: nat): (s: Bytes)
    ensures |s| == width
  {
    if width == 0 then [] else [(n % 256) as Byte] + ToLittleEndian(n / 256, width - 1)
  }

  function Pow256(k: nat): (p: nat)
    ensures p > 0
  {
    if k == 0 then 1 else 256 * Pow256(k - 1)
  }

  lemma {:induction false} LittleEndianBack(n: nat, width: nat)
    ensures LittleEndian(ToLittleEndian(n, width)) <= n
    ensures LittleEndian(ToLittleEndian(n, width)) < Pow256(width)
    ensures n < Pow256(width) ==> LittleEndian(ToLittleEndian(n, width)) == n
  {
    if width > 0 {
      LittleEndianBack(n / 256, width - 1);
      var s := ToLittleEndian(n, width);
      assert s[0] as int == n % 256 && s[1..] == ToLittleEndian(n / 256, width - 1);
    }
  }

  /** How many bytes of length follow an opcode. */
  function LengthBytes(opcode: int): nat {
    if opcode == OP_PUSHDATA1 then 1 else if opcode == OP_PUSHDATA2 then 2 else if opcode == OP_PUSHDATA4 then 4 else 0
  }

  /** Reads the instruction that `s` starts with. */
  function GetOp(s: Bytes): (r: Reading)
    ensures r.Instruction? ==> 1 <= r.size <= |s| && 0 <= r.opcode < 256
  {
    if s == [] then Bad
    else
      var opcode := s[0] as int;
      if opcode > OP_PUSHDATA4 then Instruction(opcode, [], 1)
      else
        var w := LengthBytes(opcode);
        if |s| - 1 < w then Bad
        else
          var nSize := if opcode < OP_PUSHDATA1 then opcode else LittleEndian(s[1..1 + w]);
          if |s| - 1 - w < nSize then Bad
          else Instruction(opcode, s[1 + w..1 + w + nSize], 1 + w + nSize)
  }

  /** Pushes data with the shortest length field; a length of 2^32 or more does not fit and is truncated. */
  function Push(data: Bytes): (s: Bytes)
    ensures s != []
  {
    if |data| < OP_PUSHDATA1 then [|data| as Byte] + data
    else if |data| <= 0xff then [OP_PUSHDATA1 as Byte] + [|data| as Byte] + data
    else if |data| <= 0xffff then [OP_PUSHDATA2 as Byte] + ToLittleEndian(|data|, 2) + data
    else [OP_PUSHDATA4 as Byte] + ToLittleEndian(|data|, 4) + data
  }

  /** The bytes of a push: up to 75 bytes of data follow their own number; then 0x4c and one byte of length, 0x4d and
      two, or 0x4e and four, least significant first. */
  lemma PushForms(data: Bytes)
    ensures var n := |data|;
      && (n <= 75 ==> Push(data) == [n as Byte] + data)
      && (76 <= n <= 255 ==> Push(data) == [0x4c, n as Byte] + data)
      && (256 <= n <= 65_535 ==> Push(data) == [0x4d, (n % 256) as Byte, (n / 256) as Byte] + data)
      && (65_536 <= n < 0x1_0000_0000 ==>
            Push(data) == [0x4e, (n % 256) as Byte, (n / 256 % 256) as Byte, (n / 65_536 % 256) as Byte,
                           (n / 16_777_216) as Byte] + data)
  {
    var n := |data|;
    if 256 <= n <= 65_535 {
      assert ToLittleEndian(n, 2) == [(n % 256) as Byte] + ToLittleEndian(n / 256, 1);
      assert ToLittleEndian(n / 256, 1) == [(n / 256) as Byte] + ToLittleEndian(0, 0);
    } else if n > 65_535 && n < 0x1_0000_0000 {
      FourBytes(n);
    }
  }

  lemma FourBytes(n: nat)
    requires n < 0x1_0000_0000
    ensures ToLittleEndian(n, 4) == [(n % 256) as Byte, (n / 256 % 256) as Byte, (n / 65_536 % 256) as Byte,
                                     (n / 16_777_216) as Byte]
  {
    var a, b, c := n / 256, n / 65_536, n / 16_777_216;
    assert a / 256 == b && b / 256 == c && c < 256;
    assert ToLittleEndian(n, 4) == [(n % 256) as Byte] + ToLittleEndian(a, 3);
    assert ToLittleEndian(a, 3) == [(a % 256) as Byte] + ToLittleEndian(b, 2);
    assert ToLittleEndian(b, 2) == [(b % 256) as Byte] + ToLittleEndian(c, 1);
    assert ToLittleEndian(c, 1) == [c as Byte] + ToLittleEndian(0, 0);
  }

  /** The reader undoes every push whose length fits in its length field, whatever follows; and no other. */
  lemma ReadPush(data: Bytes, rest: Bytes)
    ensures GetOp(Push(data) + rest).Instruction?
    ensures var r := GetOp(Push(data) + rest);
      r.data == data && r.size == |Push(data)| <==> |data| < 0x1_0000_0000
  {
    var s := Push(data) + rest;
    if |data| < OP_PUSHDATA1 {
      assert s[1..1 + |data|] == data;
    } else if |data| <= 0xff {
      assert s[1..2] == [|data| as Byte];
      assert LittleEndian(s[1..2]) == |data| by { assert s[1..2][1..] == []; }
      assert s[2..2 + |data|] == data;
    } else {
      var w := if |data| <= 0xffff then 2 else 4;
      ReadLongPush(data, rest, w);
    }
  }

  lemma ReadLongPush(data: Bytes, rest: Bytes, w: nat)
    requires |data| > 0xff && w == if |data| <= 0xffff then 2 else 4
    ensures var s := Push(data) + rest; var r := GetOp(s);
      r.Instruction? && (r.data == data && r.size == |Push(data)| <==> |data| < 0x1_0000_0000)
  {
    hide LittleEndian, ToLittleEndian, Pow256;
    var s := Push(data) + rest;
    var field := ToLittleEndian(|data|, w);
    assert s[1..1 + w] == field;
    LittleEndianBack(|data|, w);
    Powers();
    assert s[1 + w..1 + w + |data|] == data;
  }

  lemma Powers()
    ensures Pow256(2) == 0x1_0000 && Pow256(4) == 0x1_0000_0000
  {
    assert Pow256(1) == 256;
    assert Pow256(2) == 0x1_0000;
    assert Pow256(3) == 0x100_0000;
  }

  // ---- A script as a list of instructions ----

  /** The raw bytes of the instructions that can be read. */
  function Instructions(s: Bytes): (r: seq<Bytes>)
    decreases |s|
  {
    var op := GetOp(s);
    if op.Bad? then [] else [s[..op.size]] + Instructions(s[op.size..])
  }

  /** What is left where reading fails: nothing, or a broken instruction and all that follows. */
  function Tail(s: Bytes): (r: Bytes)
    decreases |s|
  {
    var op := GetOp(s);
    if op.Bad? then s else Tail(s[op.size..])
  }

  function Concat(parts: seq<Bytes>): Bytes {
    if parts == [] then [] else parts[0] + Concat(parts[1..])
  }

  function Without(parts: seq<Bytes>, b: Bytes): seq<Bytes> {
    if parts == [] then [] else (if parts[0] == b then [] else [parts[0]]) + Without(parts[1..], b)
  }

  function Count(parts: seq<Bytes>, b: Bytes): nat {
    if parts == [] then 0 else (if parts[0] == b then 1 else 0) + Count(parts[1..], b)
  }

  /** A byte string that reads as exactly one instruction. */
  predicate IsInstruction(b: Bytes) {
    var op := GetOp(b); op.Instruction? && op.size == |b|
  }

  /** Reading depends only on the bytes of the instruction read: encodings are prefix-free. */
  lemma GetOpPrefix(b: Bytes, rest: Bytes)
    requires GetOp(b).Instruction?
    ensures GetOp(b + rest) == GetOp(b)
  {
    hide LittleEndian;
    var opcode := b[0] as int;
    var w := LengthBytes(opcode);
    assert (b + rest)[0] == b[0];
    if opcode <= OP_PUSHDATA4 {
      assert (b + rest)[1..1 + w] == b[1..1 + w];
      var nSize := if opcode < OP_PUSHDATA1 then opcode else LittleEndian(b[1..1 + w]);
      assert (b + rest)[1 + w..1 + w + nSize] == b[1 + w..1 + w + nSize];
    }
  }

  lemma GetOpTaken(s: Bytes)
    requires GetOp(s).Instruction?
    ensures IsInstruction(s[..GetOp(s).size]) && GetOp(s[..GetOp(s).size]) == GetOp(s)
  {
    hide LittleEndian;
    var op := GetOp(s);
    var b := s[..op.size];
    var w := LengthBytes(op.opcode);
    if op.opcode <= OP_PUSHDATA4 {
      assert b[1..1 + w] == s[1..1 + w];
      assert b[1 + w..op.size] == s[1 + w..op.size];
    }
  }

  lemma PartsFirst(first: Bytes, parts: seq<Bytes>, tail: Bytes)
    ensures Concat([first] + parts) + tail == first + (Concat(parts) + tail)
  {
    assert ([first] + parts)[1..] == parts;
  }

  /** The script is its instructions followed by its tail. */
  lemma {:induction false} ScriptParts(s: Bytes)
    ensures Concat(Instructions(s)) + Tail(s) == s
    ensures GetOp(Tail(s)).Bad?
    ensures forall i :: 0 <= i < |Instructions(s)| ==> IsInstruction(Instructions(s)[i])
    decreases |s|
  {
    hide GetOp, IsInstruction, Concat, Instructions, Tail;
    var op := GetOp(s);
    if op.Instruction? {
      var first, rest := s[..op.size], s[op.size..];
      ScriptParts(rest);
      GetOpTaken(s);
      UnfoldInstructions(s);
      PartsFirst(first, Instructions(rest), Tail(rest));
      FirstAndRest(s, op.size);
    } else {
      NothingReadable(s);
    }
  }

  lemma FirstAndRest(s: Bytes, n: nat)
    requires n <= |s|
    ensures s[..n] + s[n..] == s
  {
  }

  lemma NothingReadable(s: Bytes)
    requires GetOp(s).Bad?
    ensures Instructions(s) == [] && Tail(s) == s && Concat([]) + s == s
  {
    hide GetOp;
  }

  /** A list of instructions followed by something unreadable reads back as itself. */
  lemma {:induction false} PartsScript(parts: seq<Bytes>, tail: Bytes)
    requires forall i :: 0 <= i < |parts| ==> IsInstruction(parts[i])
    requires GetOp(tail).Bad?
    ensures Instructions(Concat(parts) + tail) == parts && Tail(Concat(parts) + tail) == tail
    decreases |parts|
  {
    if parts == [] {
      assert Concat(parts) + tail == tail;
    } else {
      var rest := Concat(parts[1..]) + tail;
      assert Concat(parts) + tail == parts[0] + rest;
      GetOpPrefix(parts[0], rest);
      assert (parts[0] + rest)[..|parts[0]|] == parts[0] && (parts[0] + rest)[|parts[0]|..] == rest;
      PartsScript(parts[1..], tail);
    }
  }

  /** An instruction is found at a position exactly when it is the one that is read there. */
  lemma MatchIsReading(s: Bytes, b: Bytes)
    requires IsInstruction(b)
    ensures b <= s <==> GetOp(s).Instruction? && s[..GetOp(s).size] == b
  {
    if b <= s {
      assert s == b + s[|b|..];
      GetOpPrefix(b, s[|b|..]);
    }
  }

  /** What FindAndDelete leaves of a script: the script without every instruction `b`. */
  function Deleted(s: Bytes, b: Bytes): Bytes {
    Concat(Without(Instructions(s), b)) + Tail(s)
  }

  lemma Unfold(first: Bytes, rest: seq<Bytes>, b: Bytes)
    ensures Without([first] + rest, b) == (if first == b then [] else [first]) + Without(rest, b)
    ensures Count([first] + rest, b) == (if first == b then 1 else 0) + Count(rest, b)
    ensures Concat([first] + rest) == first + Concat(rest)
  {
    assert ([first] + rest)[1..] == rest;
  }

  lemma UnfoldInstructions(s: Bytes)
    requires GetOp(s).Instruction?
    ensures var size := GetOp(s).size;
      Instructions(s) == [s[..size]] + Instructions(s[size..]) && Tail(s) == Tail(s[size..])
  {
  }

  lemma DeletedHere(s: Bytes, b: Bytes)
    requires IsInstruction(b) && b <= s
    ensures Deleted(s, b) == Deleted(s[|b|..], b)
    ensures Count(Instructions(s), b) == 1 + Count(Instructions(s[|b|..]), b)
  {
    hide Instructions, Tail, Without, Count, Concat, GetOp, IsInstruction;
    MatchIsReading(s, b);
    UnfoldInstructions(s);
    Unfold(b, Instructions(s[|b|..]), b);
    assert [] + Without(Instructions(s[|b|..]), b) == Without(Instructions(s[|b|..]), b);
  }

  lemma KeptHere(s: Bytes, b: Bytes)
    requires IsInstruction(b) && !(b <= s) && GetOp(s).Instruction?
    ensures var size := GetOp(s).size;
      && Deleted(s, b) == s[..size] + Deleted(s[size..], b)
      && Count(Instructions(s), b) == Count(Instructions(s[size..]), b)
  {
    hide Instructions, Tail, Without, Count, Concat, GetOp, IsInstruction;
    MatchIsReading(s, b);
    UnfoldInstructions(s);
    var first, rest := s[..GetOp(s).size], Instructions(s[GetOp(s).size..]);
    Unfold(first, rest, b);
    Unfold(first, Without(rest, b), b);
  }

  lemma DeletedEnd(s: Bytes, b: Bytes)
    requires GetOp(s).Bad?
    ensures Deleted(s, b) == s && Count(Instructions(s), b) == 0
  {
  }

  /** A script without any byte string, wherever that stands at the start of an instruction. */
  function Erased(s: Bytes, b: Bytes): Bytes
    decreases |s|
  {
    if b == [] then s
    else if b <= s then Erased(s[|b|..], b)
    else
      var op := GetOp(s);
      if op.Bad? then s else s[..op.size] + Erased(s[op.size..], b)
  }

  function Erasures(s: Bytes, b: Bytes): nat
    decreases |s|
  {
    if b == [] then 0
    else if b <= s then 1 + Erasures(s[|b|..], b)
    else
      var op := GetOp(s);
      if op.Bad? then 0 else Erasures(s[op.size..], b)
  }

  /** One turn at position `pc`: a match is cut out, an instruction is skipped, and the end is reached. */
  lemma ErasedHere(code: Bytes, pc: nat, b: Bytes)
    requires pc <= |code| && b != []
    ensures (b <= code[pc..] ==>
      && pc + |b| <= |code|
      && (var shorter := code[..pc] + code[pc + |b|..];
          && pc <= |shorter|
          && code[..pc] + Erased(code[pc..], b) == shorter[..pc] + Erased(shorter[pc..], b)
          && Erasures(code[pc..], b) == 1 + Erasures(shorter[pc..], b)))
  {
    hide GetOp;
    if b <= code[pc..] {
      var shorter := code[..pc] + code[pc + |b|..];
      assert code[pc..][|b|..] == code[pc + |b|..] == shorter[pc..];
      assert shorter[..pc] == code[..pc];
    }
  }

  lemma ErasedUnfold(s: Bytes, b: Bytes)
    requires b != [] && !(b <= s)
    ensures var op := GetOp(s);
      if op.Bad? then Erased(s, b) == s && Erasures(s, b) == 0
      else Erased(s, b) == s[..op.size] + Erased(s[op.size..], b) && Erasures(s, b) == Erasures(s[op.size..], b)
  {
    hide GetOp;
  }

  lemma ErasedNext(code: Bytes, pc: nat, b: Bytes)
    requires pc <= |code| && b != [] && !(b <= code[pc..])
    ensures var op := ReadAt(code, pc);
      if op.Bad? then code[..pc] + Erased(code[pc..], b) == code && Erasures(code[pc..], b) == 0
      else
        && code[..pc] + Erased(code[pc..], b) == code[..pc + op.size] + Erased(code[pc + op.size..], b)
        && Erasures(code[pc..], b) == Erasures(code[pc + op.size..], b)
  {
    hide GetOp, Erased, Erasures;
    ErasedUnfold(code[pc..], b);
    var op := ReadAt(code, pc);
    if op.Bad? {
      assert code == code[..pc] + code[pc..];
    } else {
      SkippedParts(code, pc, op.size, Erased(code[pc + op.size..], b));
    }
  }

  lemma SkippedParts(code: Bytes, pc: nat, size: nat, rest: Bytes)
    requires pc + size <= |code|
    ensures code[pc..][size..] == code[pc + size..]
    ensures code[..pc] + (code[pc..][..size] + rest) == code[..pc + size] + rest
  {
    assert code[..pc + size] == code[..pc] + code[pc..][..size];
  }

  /** For a single instruction that is to delete it from the list of instructions. */
  lemma {:induction false} ErasedIsDeleted(s: Bytes, b: Bytes)
    requires IsInstruction(b)
    ensures Erased(s, b) == Deleted(s, b) && Erasures(s, b) == Count(Instructions(s), b)
    decreases |s|
  {
    hide Deleted, Instructions, Count, GetOp;
    if b <= s {
      DeletedHere(s, b);
      ErasedIsDeleted(s[|b|..], b);
    } else if GetOp(s).Instruction? {
      KeptHere(s, b);
      ErasedIsDeleted(s[GetOp(s).size..], b);
    } else {
      DeletedEnd(s, b);
    }
  }

  /** A push without its data. */
  function Header(b: Bytes): Bytes {
    if |b| < OP_PUSHDATA1 then [|b| as Byte]
    else if |b| <= 0xff then [OP_PUSHDATA1 as Byte, |b| as Byte]
    else if |b| <= 0xffff then [OP_PUSHDATA2 as Byte] + ToLittleEndian(|b|, 2)
    else [OP_PUSHDATA4 as Byte] + ToLittleEndian(|b|, 4)
  }

  lemma PushHeader(b: Bytes)
    ensures Push(b) == Header(b) + b
  {
  }

  class CScript {
    var code: Bytes

    constructor (code: Bytes)
      ensures this.code == code
    {
      this.code := code;
    }

    /** Appends a push of `b`. */
    method PushBytes(b: Bytes)
      modifies this
      ensures code == old(code) + Push(b)
    {
      hide Push, Header;
      PushHeader(b);
      AppendHeader(b);
      assert (old(code) + Header(b)) + b == old(code) + (Header(b) + b);
      code := code + b;
    }

    method AppendHeader(b: Bytes)
      modifies this
      ensures code == old(code) + Header(b)
    {
      hide ToLittleEndian;
      if |b| < OP_PUSHDATA1 {
        code := code + [|b| as Byte];
      } else if |b| <= 0xff {
        code := code + [OP_PUSHDATA1 as Byte];
        code := code + [|b| as Byte];
      } else if |b| <= 0xffff {
        code := code + [OP_PUSHDATA2 as Byte];
        code := code + ToLittleEndian(|b|, 2);
      } else {
        code := code + [OP_PUSHDATA4 as Byte];
        code := code + ToLittleEndian(|b|, 4);
      }
    }

    /** Cuts out `b` as long as it stands at `pc`. */
    method EraseHere(pc: nat, b: Bytes) returns (n: nat)
      requires pc <= |code| && b != []
      modifies this
      ensures pc <= |code| <= old(|code|) && !(b <= code[pc..])
      ensures code[..pc] + Erased(code[pc..], b) == old(code[..pc] + Erased(code[pc..], b))
      ensures n + Erasures(code[pc..], b) == old(Erasures(code[pc..], b))
    {
      hide Erased, Erasures;
      n := 0;
      while b <= code[pc..]
        invariant pc <= |code| <= old(|code|)
        invariant code[..pc] + Erased(code[pc..], b) == old(code[..pc] + Erased(code[pc..], b))
        invariant n + Erasures(code[pc..], b) == old(Erasures(code[pc..], b))
        decreases |code|
      {
        ErasedHere(code, pc, b);
        code := code[..pc] + code[pc + |b|..];
        n := n + 1;
      }
    }

    /** Removes `b` in place, wherever it stands at the start of an instruction, and counts how often.  Nothing is
        removed when it is empty. */
    method FindAndDelete(b: Bytes) returns (nFound: nat)
      modifies this
      ensures code == Erased(old(code), b) && nFound == Erasures(old(code), b)
      ensures IsInstruction(b) ==> code == Deleted(old(code), b) && nFound == Count(Instructions(old(code)), b)
    {
      hide Deleted, Instructions, Count, GetOp, IsInstruction;
      nFound := 0;
      ghost var before := code;
      if IsInstruction(b) { ErasedIsDeleted(before, b); }
      if b == [] { return nFound; }
      hide Erased, Erasures;
      var pc := 0;
      var go := true;
      assert code[..0] + Erased(code[0..], b) == Erased(code, b) && code[0..] == code;
      while go
        invariant 0 <= pc <= |code|
        invariant go ==> Erased(before, b) == code[..pc] + Erased(code[pc..], b)
        invariant go ==> Erasures(before, b) == nFound + Erasures(code[pc..], b)
        invariant !go ==> code == Erased(before, b) && nFound == Erasures(before, b)
        decreases go, |code| - pc
      {
        var n := EraseHere(pc, b);
        nFound := nFound + n;
        ErasedNext(code, pc, b);
        var op := ReadAt(code, pc);
        if op.Bad? {
          go := false;
        } else {
          pc := pc + op.size;
        }
      }
    }
  }

  function ReadAt(s: Bytes, pc: nat): (r: Reading)
    requires pc <= |s|
    ensures r == GetOp(s[pc..])
    ensures r.Instruction? ==> 1 <= r.size <= |s| - pc
  {
    GetOp(s[pc..])
  }

  lemma {:induction false} WithoutInstructions(parts: seq<Bytes>, b: Bytes)
    requires forall i :: 0 <= i < |parts| ==> IsInstruction(parts[i])
    ensures forall i :: 0 <= i < |Without(parts, b)| ==> IsInstruction(Without(parts, b)[i])
    ensures b !in Without(parts, b)
    ensures b !in parts <==> Without(parts, b) == parts
  {
    if parts != [] {
      assert parts == [parts[0]] + parts[1..];
      WithoutInstructions(parts[1..], b);
      WithoutShorter(parts[1..], b);
    }
  }

  lemma {:induction false} WithoutShorter(parts: seq<Bytes>, b: Bytes)
    ensures |Without(parts, b)| + Count(parts, b) == |parts|
  {
    if parts != [] { WithoutShorter(parts[1..], b); }
  }

  /** The instructions of what is left are the other instructions, in order; none of them is `b`, so deleting again
      finds nothing; and a script without `b` is left as it is. */
  lemma DeletedReads(s: Bytes, b: Bytes)
    ensures Instructions(Deleted(s, b)) == Without(Instructions(s), b)
    ensures Tail(Deleted(s, b)) == Tail(s)
    ensures b !in Instructions(Deleted(s, b))
    ensures b !in Instructions(s) ==> Deleted(s, b) == s
    ensures |s| - |Deleted(s, b)| == Count(Instructions(s), b) * |b|
  {
    hide Instructions, Tail;
    ScriptParts(s);
    WithoutInstructions(Instructions(s), b);
    PartsScript(Without(Instructions(s), b), Tail(s));
    DeletedLength(Instructions(s), b);
  }

  lemma {:induction false} DeletedLength(parts: seq<Bytes>, b: Bytes)
    ensures |Concat(parts)| == |Concat(Without(parts, b))| + Count(parts, b) * |b|
  {
    if parts != [] {
      DeletedLength(parts[1..], b);
      var rest := Without(parts[1..], b);
      if parts[0] == b {
        assert Without(parts, b) == rest;
        assert (1 + Count(parts[1..], b)) * |b| == |b| + Count(parts[1..], b) * |b|;
      } else {
        assert Without(parts, b) == [parts[0]] + rest;
        assert ([parts[0]] + rest)[1..] == rest;
      }
    }
  }

  /** A push is one instruction, so the results above apply to it. */
  lemma PushIsInstruction(data: Bytes)
    requires |data| < 0x1_0000_0000
    ensures IsInstruction(Push(data)) && GetOp(Push(data)).data == data
  {
    ReadPush(data, []);
    assert Push(data) + [] == Push(data);
  }
}
