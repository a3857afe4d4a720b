/**
 What each opcode means: the stack pictures and numbers of src/script.cpp, proved of the stack
 machine instruction by instruction.  A picture shows the top of the stack on the right.
 */
module ScriptLaws {
  import opened Wrappers
  import opened ScriptCode
  import opened ScriptNum
  import opened MultiSig
  import opened ScriptMachine
  import opened Sequences

  /** Where an instruction is executed. */
  datatype Place = Place(env: Env, d: Data, next: nat)
  {
    ghost predicate Ok() { d.codeStart <= |env.script| && next <= |env.script| }

    ghost function Exec(op: int, before: seq<Bytes>): Option<Data>
      requires Ok()
    {
      ExecOp(env, Instr(op, [], next), d.(stack := before))
    }

    /** The instruction makes the one stack of the other, and touches nothing else. */
    ghost predicate Makes(op: int, before: seq<Bytes>, after: seq<Bytes>)
      requires Ok()
    {
      Exec(op, before) == Some(d.(stack := after))
    }

    ghost predicate Refuses(op: int, before: seq<Bytes>)
      requires Ok()
    {
      Exec(op, before).None?
    }

    /** The script from the last OP_CODESEPARATOR that was executed. */
    ghost function Code(): Bytes
      requires Ok()
    {
      env.script[d.codeStart..]
    }
  }

  lemma ByMove(p: Place, op: int, s: seq<Bytes>)
    requires p.Ok() && 0x6d <= op <= 0x7d && op != 0x74
    ensures p.Exec(op, s) == match ExecMove(op, s) case None => None case Some(t) => Some(p.d.(stack := t))
  {
    hide ExecMove;
  }

  lemma ByCompute(p: Place, op: int, s: seq<Bytes>)
    requires p.Ok() && (op == 0x74 || 0x82 <= op <= 0xa5)
    ensures p.Exec(op, s) == match ExecCompute(op, s) case None => None case Some(t) => Some(p.d.(stack := t))
  {
    hide ExecCompute;
  }

  // ---- Pushing and moving ----

  /** Opcodes up to 0x4e push their data; 0x4f pushes -1, and 0x51 to 0x60 push 1 to 16. */
  lemma PushLaws(p: Place, op: int, data: Bytes)
    requires p.Ok()
    ensures (op <= 0x4e ==>
      ExecOp(p.env, Instr(op, data, p.next), p.d) == Some(p.d.(stack := p.d.stack + [data])))
    ensures p.Makes(0x4f, p.d.stack, p.d.stack + [EncodeNum(-1)])
    ensures forall n :: 1 <= n <= 16 ==> p.Makes(0x50 + n, p.d.stack, p.d.stack + [EncodeNum(n)])
  {
    hide EncodeNum;
  }

  lemma NoMove(op: int, s: seq<Bytes>)
    requires op < 0x6d || op > 0x7d
    ensures ExecMove(op, s).None?
  {
  }

  lemma NoCompute(op: int, s: seq<Bytes>)
    requires op != 0x74 && (op < 0x82 || op > 0xa5 || op == 0x89 || op == 0x8a)
    ensures ExecCompute(op, s).None?
  {
    hide CastToNum, EncodeNum;
  }

  /** Opcodes that do nothing, and those that always fail when executed. */
  lemma OtherOpcodes(p: Place, op: int, s: seq<Bytes>)
    requires p.Ok()
    ensures op == 0x61 || 0xb0 <= op <= 0xb9 ==> p.Makes(op, s, s)
    ensures op in {0x50, 0x62, 0x6a, 0x89, 0x8a} || op >= 0xba ==> p.Refuses(op, s)
  {
    hide ExecMove, ExecCompute;
    if op in {0x50, 0x62, 0x6a, 0x89, 0x8a} || op >= 0xba {
      NoMove(op, s);
      NoCompute(op, s);
    }
  }

  /** 2DROP, DROP and NIP. */
  lemma DropLaws(p: Place, below: seq<Bytes>, a: Bytes, b: Bytes)
    requires p.Ok()
    ensures p.Makes(0x6d, below + [a, b], below)
    ensures p.Makes(0x75, below + [a], below)
    ensures p.Makes(0x77, below + [a, b], below + [b])
  {
    hide ExecOp, CastToBool, CastToNum;
    var s1, s2 := below + [a], below + [a, b];
    ByMove(p, 0x6d, s2);
    ByMove(p, 0x75, s1);
    ByMove(p, 0x77, s2);
    assert Pop(s2, 2) == below && Pop(s1, 1) == below;
    assert s2[..|s2| - 2] + s2[|s2| - 1..] == below + [b];
  }

  /** 2DUP, 3DUP, IFDUP, DUP and OVER. */
  lemma DupLaws(p: Place, below: seq<Bytes>, a: Bytes, b: Bytes, c: Bytes)
    requires p.Ok()
    ensures p.Makes(0x6e, below + [a, b], below + [a, b, a, b])
    ensures p.Makes(0x6f, below + [a, b, c], below + [a, b, c, a, b, c])
    ensures p.Makes(0x73, below + [a], below + if DecodeNum(a) != 0 then [a, a] else [a])
    ensures p.Makes(0x76, below + [a], below + [a, a])
    ensures p.Makes(0x78, below + [a, b], below + [a, b, a])
  {
    hide ExecOp, CastToBool, DecodeNum, CastToNum;
    var s1, s2, s3 := below + [a], below + [a, b], below + [a, b, c];
    ByMove(p, 0x6e, s2);
    ByMove(p, 0x6f, s3);
    ByMove(p, 0x73, s1);
    ByMove(p, 0x76, s1);
    ByMove(p, 0x78, s2);
    BoolIsNonzero(a);
    assert s2 + s2[|s2| - 2..] == below + [a, b, a, b];
    assert s3 + s3[|s3| - 3..] == below + [a, b, c, a, b, c];
    assert s1 + [a] == below + [a, a];
    assert s2 + [a] == below + [a, b, a];
  }

  /** 2OVER, 2ROT and 2SWAP. */
  lemma PairLaws(p: Place, below: seq<Bytes>, a: Bytes, b: Bytes, c: Bytes, d: Bytes, e: Bytes, f: Bytes)
    requires p.Ok()
    ensures p.Makes(0x70, below + [a, b, c, d], below + [a, b, c, d, a, b])
    ensures p.Makes(0x71, below + [a, b, c, d, e, f], below + [c, d, e, f, a, b])
    ensures p.Makes(0x72, below + [a, b, c, d], below + [c, d, a, b])
  {
    hide ExecOp, CastToBool, CastToNum;
    var s4, s6 := below + [a, b, c, d], below + [a, b, c, d, e, f];
    var n := |below|;
    ByMove(p, 0x70, s4);
    ByMove(p, 0x71, s6);
    ByMove(p, 0x72, s4);
    assert s4 + s4[n..n + 2] == below + [a, b, c, d, a, b];
    assert s6[..n] + s6[n + 2..] + s6[n..n + 2] == below + [c, d, e, f, a, b];
    assert s4[..n] + s4[n + 2..] + s4[n..n + 2] == below + [c, d, a, b];
  }

  /** ROT, SWAP and TUCK. */
  lemma TurnLaws(p: Place, below: seq<Bytes>, a: Bytes, b: Bytes, c: Bytes)
    requires p.Ok()
    ensures p.Makes(0x7b, below + [a, b, c], below + [b, c, a])
    ensures p.Makes(0x7c, below + [a, b], below + [b, a])
    ensures p.Makes(0x7d, below + [a, b], below + [b, a, b])
  {
    hide ExecOp, CastToBool, CastToNum;
    var s2, s3 := below + [a, b], below + [a, b, c];
    var n := |below|;
    ByMove(p, 0x7b, s3);
    ByMove(p, 0x7c, s2);
    ByMove(p, 0x7d, s2);
    assert s3[..n] + s3[n + 1..] + [s3[n]] == below + [b, c, a];
    assert s2[..n] + [s2[n + 1]] + [s2[n]] == below + [b, a];
    assert s2[..n] + [s2[n + 1]] + s2[n..] == below + [b, a, b];
  }

  /** PICK copies and ROLL moves the element that has the given number of others on top; the number has at most four
      bytes and has to find an element. */
  lemma PickLaws(p: Place, below: seq<Bytes>, x: Bytes, above: seq<Bytes>, n: Bytes)
    requires p.Ok()
    ensures (|n| <= 4 && DecodeNum(n) == |above| ==>
      && p.Makes(0x79, below + [x] + above + [n], below + [x] + above + [x])
      && p.Makes(0x7a, below + [x] + above + [n], below + above + [x]))
    ensures (|n| > 4 || DecodeNum(n) < 0 || DecodeNum(n) >= |above| ==>
      p.Refuses(0x79, above + [n]) && p.Refuses(0x7a, above + [n]))
  {
    hide DecodeNum, ExecOp;
    var s, rest := below + [x] + above + [n], below + [x] + above;
    ByMove(p, 0x79, s);
    ByMove(p, 0x7a, s);
    ByMove(p, 0x79, above + [n]);
    ByMove(p, 0x7a, above + [n]);
    assert Pop(s, 1) == rest && Pop(above + [n], 1) == above;
    assert rest[|rest| - |above| - 1] == x && rest[|rest| - |above|..] == above && rest[..|rest| - |above| - 1] == below;
  }

  predicate TakesOne(op: int) {
    || op in {0x69, 0x6b, 0x73, 0x75, 0x76, 0x82, 0x8b, 0x8c, 0x8f, 0x90, 0x91, 0x92}
    || 0xa6 <= op <= 0xaa
  }

  predicate TakesTwo(op: int) {
    || op in {0x6d, 0x6e, 0x77, 0x78, 0x79, 0x7a, 0x7c, 0x7d, 0x87, 0x88, 0x93, 0x94, 0xac, 0xad}
    || 0x9a <= op <= 0xa4
  }

  /** Too few elements. */
  lemma TooFew(p: Place, op: int, s: seq<Bytes>)
    requires p.Ok()
    ensures |s| < 1 && TakesOne(op) ==> p.Refuses(op, s)
    ensures |s| < 2 && TakesTwo(op) ==> p.Refuses(op, s)
    ensures |s| < 3 && op in {0x6f, 0x7b, 0xa5} ==> p.Refuses(op, s)
    ensures |s| < 4 && op in {0x70, 0x72} ==> p.Refuses(op, s)
    ensures |s| < 6 && op == 0x71 ==> p.Refuses(op, s)
    ensures p.d.alt == [] && op == 0x6c ==> p.Refuses(op, s)
  {
    hide CastToNum, CastToBool, EncodeNum;
    if 0x6d <= op <= 0x7d && op != 0x74 {
      ByMove(p, op, s);
      hide ExecOp, ExecCompute;
    } else if 0x82 <= op <= 0xa5 {
      ByCompute(p, op, s);
      hide ExecOp, ExecMove;
    } else {
      hide ExecMove, ExecCompute;
    }
  }

  // ---- Testing, comparing, hashing ----

  /** VERIFY goes on after a true element only, and takes it; EQUAL compares two elements byte by byte. */
  lemma TestLaws(p: Place, below: seq<Bytes>, a: Bytes, b: Bytes)
    requires p.Ok()
    ensures if DecodeNum(a) != 0 then p.Makes(0x69, below + [a], below) else p.Refuses(0x69, below + [a])
    ensures p.Makes(0x87, below + [a, b], below + [if a == b then [1] else []])
    ensures if a == b then p.Makes(0x88, below + [a, b], below) else p.Refuses(0x88, below + [a, b])
    ensures forall op :: 0xa6 <= op <= 0xaa ==> p.Makes(op, below + [a], below + [p.env.hash(op, a)])
  {
    hide CastToBool, DecodeNum;
    BoolIsNonzero(a);
    assert Pop(below + [a], 1) == below && Pop(below + [a, b], 2) == below;
  }

  /** TOALTSTACK and FROMALTSTACK move the top of one stack to the other. */
  lemma AltLaws(p: Place, below: seq<Bytes>, a: Bytes)
    requires p.Ok()
    ensures p.Exec(0x6b, below + [a]) == Some(p.d.(stack := below, alt := p.d.alt + [a]))
    ensures (p.d.alt != [] ==>
      var n := |p.d.alt| - 1;
      p.Exec(0x6c, below) == Some(p.d.(stack := below + [p.d.alt[n]], alt := p.d.alt[..n])))
  {
    assert Pop(below + [a], 1) == below;
  }

  // ---- Numbers ----

  /** The shortest form of a number. */
  ghost predicate Stands(s: Bytes, n: int) {
    DecodeNum(s) == n && forall t: Bytes :: DecodeNum(t) == n ==> |s| <= |t|
  }

  lemma EncodedStands(n: int)
    ensures Stands(EncodeNum(n), n)
  {
    hide EncodeNum, DecodeNum;
    DecodeEncodeNum(n);
    forall t: Bytes | DecodeNum(t) == n ensures |EncodeNum(n)| <= |t| { EncodeShortest(t); }
  }

  lemma EncodedBool(b: bool)
    ensures EncodeNum(BoolNum(b)) == if b then [1] else []
  {
    if b { assert Digits(1) == [1] by { assert Digits(0) == []; } }
  }

  /** 1ADD, 1SUB, NEGATE, ABS, NOT and 0NOTEQUAL. */
  lemma OneNumber(p: Place, op: int, below: seq<Bytes>, a: Bytes) returns (r: Bytes)
    requires p.Ok() && (0x8b <= op <= 0x8c || 0x8f <= op <= 0x92)
    ensures |a| > 4 ==> p.Refuses(op, below + [a])
    ensures |a| <= 4 ==> p.Makes(op, below + [a], below + [r])
    ensures op == 0x8b ==> Stands(r, DecodeNum(a) + 1)
    ensures op == 0x8c ==> Stands(r, DecodeNum(a) - 1)
    ensures op == 0x8f ==> Stands(r, -DecodeNum(a))
    ensures op == 0x90 ==> Stands(r, if DecodeNum(a) < 0 then -DecodeNum(a) else DecodeNum(a))
    ensures op == 0x91 ==> r == if DecodeNum(a) == 0 then [1] else []
    ensures op == 0x92 ==> r == if DecodeNum(a) != 0 then [1] else []
  {
    hide EncodeNum, DecodeNum, Stands, ExecOp;
    assert Pop(below + [a], 1) == below;
    ByCompute(p, op, below + [a]);
    var n := Unary(op, DecodeNum(a)).value;
    r := EncodeNum(n);
    EncodedStands(n);
    EncodedBool(n != 0);
  }

  lemma BinaryComputes(op: int, below: seq<Bytes>, a: Bytes, b: Bytes)
    requires 0x93 <= op <= 0x94 || 0x9a <= op <= 0xa4
    ensures Binary(op, DecodeNum(a), DecodeNum(b)).Some?
    ensures ExecCompute(op, below + [a, b]) ==
      var c := Binary(op, DecodeNum(a), DecodeNum(b)).value;
      if |a| > 4 || |b| > 4 then None
      else if op == 0x9d then if c != 0 then Some(below) else None
      else Some(below + [EncodeNum(c)])
  {
    hide EncodeNum, DecodeNum;
    var s := below + [a, b];
    assert Pop(s, 2) == below && Top(s, 2) == a && Top(s, 1) == b;
  }

  lemma BinaryMeans(op: int, x: int, y: int)
    requires (0x93 <= op <= 0x94 || 0x9a <= op <= 0xa4) && Binary(op, x, y).Some?
    ensures var c := Binary(op, x, y).value;
      && (op == 0x93 ==> c == x + y) && (op == 0x94 ==> c == x - y)
      && (op == 0xa3 ==> c == if x <= y then x else y) && (op == 0xa4 ==> c == if x >= y then x else y)
      && (0x9a <= op <= 0xa2 ==> c == BoolNum(Compared(op, x, y)))
  {
  }

  /** ADD, SUB, the comparisons, MIN and MAX. */
  lemma TwoNumbers(p: Place, op: int, below: seq<Bytes>, a: Bytes, b: Bytes) returns (r: Bytes)
    requires p.Ok() && (0x93 <= op <= 0x94 || 0x9a <= op <= 0xa4)
    ensures |a| > 4 || |b| > 4 ==> p.Refuses(op, below + [a, b])
    ensures |a| <= 4 && |b| <= 4 && op != 0x9d ==> p.Makes(op, below + [a, b], below + [r])
    ensures op == 0x93 ==> Stands(r, DecodeNum(a) + DecodeNum(b))
    ensures op == 0x94 ==> Stands(r, DecodeNum(a) - DecodeNum(b))
    ensures op == 0xa3 ==> Stands(r, if DecodeNum(a) <= DecodeNum(b) then DecodeNum(a) else DecodeNum(b))
    ensures op == 0xa4 ==> Stands(r, if DecodeNum(a) >= DecodeNum(b) then DecodeNum(a) else DecodeNum(b))
    ensures 0x9a <= op <= 0xa2 ==> r == if Compared(op, DecodeNum(a), DecodeNum(b)) then [1] else []
    ensures (|a| <= 4 && |b| <= 4 && op == 0x9d ==>
      if DecodeNum(a) == DecodeNum(b) then p.Makes(op, below + [a, b], below) else p.Refuses(op, below + [a, b]))
  {
    hide EncodeNum, DecodeNum, Stands, ExecOp, Binary, ExecCompute, Compared;
    ByCompute(p, op, below + [a, b]);
    BinaryComputes(op, below, a, b);
    BinaryMeans(op, DecodeNum(a), DecodeNum(b));
    var n := Binary(op, DecodeNum(a), DecodeNum(b)).value;
    r := EncodeNum(n);
    EncodedStands(n);
    EncodedBool(Compared(op, DecodeNum(a), DecodeNum(b)));
    if op == 0x9d { NumEqualIs(DecodeNum(a), DecodeNum(b)); }
  }

  lemma NumEqualIs(x: int, y: int)
    ensures Compared(0x9d, x, y) <==> x == y
  {
  }

  /** BOOLAND and BOOLOR, NUMEQUAL and NUMNOTEQUAL, and the four orders. */
  predicate Compared(op: int, x: int, y: int) {
    match op
    case 0x9a => !(x == 0 || y == 0)
    case 0x9b => !(x == 0 && y == 0)
    case 0x9e => x < y || y < x
    case 0x9f => y > x
    case 0xa0 => y < x
    case 0xa1 => !(y < x)
    case 0xa2 => !(x < y)
    case _ => x == y
  }

  /** WITHIN: at least the lower and below the upper limit. */
  lemma WithinLaw(p: Place, below: seq<Bytes>, x: Bytes, lo: Bytes, hi: Bytes)
    requires p.Ok()
    ensures |x| > 4 || |lo| > 4 || |hi| > 4 ==> p.Refuses(0xa5, below + [x, lo, hi])
    ensures (|x| <= 4 && |lo| <= 4 && |hi| <= 4 ==>
      p.Makes(0xa5, below + [x, lo, hi],
              below + [if DecodeNum(lo) <= DecodeNum(x) < DecodeNum(hi) then [1] else []]))
  {
    hide DecodeNum, ExecOp;
    var s := below + [x, lo, hi];
    ByCompute(p, 0xa5, s);
    assert Pop(s, 3) == below && Top(s, 3) == x && Top(s, 2) == lo && Top(s, 1) == hi;
  }

  /** DEPTH and SIZE push the number of elements and of bytes. */
  lemma SizeLaws(p: Place, below: seq<Bytes>, a: Bytes) returns (depth: Bytes, size: Bytes)
    requires p.Ok()
    ensures p.Makes(0x74, below, below + [depth]) && Stands(depth, |below|)
    ensures p.Makes(0x82, below + [a], below + [a, size]) && Stands(size, |a|)
  {
    hide EncodeNum, Stands, ExecOp;
    ByCompute(p, 0x74, below);
    ByCompute(p, 0x82, below + [a]);
    depth, size := EncodeNum(|below|), EncodeNum(|a|);
    EncodedStands(|below|);
    EncodedStands(|a|);
    assert below + [a] + [size] == below + [a, size];
  }

  // ---- Signatures ----

  /** CHECKSIG pushes whether a canonical signature verifies under a canonical key for the script from the last
      OP_CODESEPARATOR on, without the signature itself; CHECKSIGVERIFY goes on only then. */
  lemma CheckSigLaws(p: Place, below: seq<Bytes>, sig: Bytes, key: Bytes)
    requires p.Ok()
    ensures var good := p.env.canonicalSig(sig) && p.env.canonicalKey(key)
                        && p.env.checkSig(sig, key, Deleted(p.Code(), Push(sig)));
      && p.Makes(0xac, below + [sig, key], below + [if good then [1] else []])
      && if good then p.Makes(0xad, below + [sig, key], below) else p.Refuses(0xad, below + [sig, key])
  {
    hide Deleted, Push;
    var s := below + [sig, key];
    assert Pop(s, 2) == below && Top(s, 2) == sig && Top(s, 1) == key;
  }

  /** OP_CODESEPARATOR makes the script that is signed start behind it. */
  lemma SeparatorLaw(p: Place)
    requires p.Ok()
    ensures p.Exec(0xab, p.d.stack) == Some(p.d.(codeStart := p.next))
  {
  }

  /** The operands as they lie on the stack: an element that is not used, signatures, their number, keys, and theirs. */
  function Operands(below: seq<Bytes>, unused: Bytes, sigs: seq<Bytes>, m: Bytes, keys: seq<Bytes>, n: Bytes): seq<Bytes> {
    below + [unused] + sigs + [m] + keys + [n]
  }

  /** CHECKMULTISIG takes its operands and counts the keys as operations.  It leaves whether the signatures can be
      assigned to keys in the order of both, each of them good for the script from the last OP_CODESEPARATOR on; of
      that, the instructions that push one of the signatures are left out. */
  lemma MultisigLaw(p: Place, below: seq<Bytes>, unused: Bytes, sigs: seq<Bytes>, m: Bytes, keys: seq<Bytes>, n: Bytes)
    returns (code: Bytes)
    requires p.Ok() && |m| <= 4 && |n| <= 4 && DecodeNum(m) == |sigs| && DecodeNum(n) == |keys|
    requires |sigs| <= |keys| <= 20 && p.d.nOpCount + |keys| <= 201
    ensures Instructions(code) == Unsigned(Instructions(p.Code()), sigs) && Tail(code) == Tail(p.Code())
    ensures var good := Assignable((sig, key) => p.env.SigOk(sig, key, code), sigs, keys);
      p.Exec(0xae, Operands(below, unused, sigs, m, keys, n))
      == Some(p.d.(stack := below + [if good then [1] else []], nOpCount := p.d.nOpCount + |keys|))
  {
    hide DecodeNum, DeleteSigs, Assignable, Instructions, Tail, Unsigned, Reversed;
    var s := Operands(below, unused, sigs, m, keys, n);
    var d := p.d.(stack := s);
    OperandsRead(d, below, unused, sigs, m, keys, n);
    code := DeleteSigs(p.Code(), Reversed(sigs));
    DeleteSigsReads(p.Code(), Reversed(sigs));
    ReversedMembers(sigs);
    UnsignedSame(Instructions(p.Code()), Reversed(sigs), sigs);
    var ok := (sig, key) => p.env.SigOk(sig, key, code);
    AssignableReversed(ok, sigs, keys);
    AssignableSame(ok, (sig, key) => p.env.SigOk(sig, key, code), Reversed(sigs), Reversed(keys));
    MultisigExec(p, d, code, Reversed(sigs), Reversed(keys), 3 + |keys| + |sigs|);
    assert Pop(s, 3 + |keys| + |sigs|) == below;
  }

  lemma ReversedMembers(s: seq<Bytes>)
    ensures forall x :: x in Reversed(s) <==> x in s
  {
    forall x | x in s ensures x in Reversed(s) {
      var i :| 0 <= i < |s| && s[i] == x;
      assert Reversed(s)[|s| - 1 - i] == x;
    }
  }

  lemma OperandsRead(d: Data, below: seq<Bytes>, unused: Bytes, sigs: seq<Bytes>, m: Bytes, keys: seq<Bytes>, n: Bytes)
    requires d.stack == Operands(below, unused, sigs, m, keys, n)
    requires |m| <= 4 && |n| <= 4 && DecodeNum(m) == |sigs| && DecodeNum(n) == |keys|
    requires |sigs| <= |keys| <= 20 && d.nOpCount + |keys| <= 201
    ensures ReadMultisig(d) == Some(Multisig(Reversed(sigs), Reversed(keys), 3 + |keys| + |sigs|))
  {
    hide DecodeNum;
    var s := d.stack;
    assert Top(s, 1) == n && Top(s, 2 + |keys|) == m;
    assert FromTop(s, 2, |keys|) == Reversed(keys);
    assert FromTop(s, 3 + |keys|, |sigs|) == Reversed(sigs);
  }

  lemma MultisigExec(p: Place, d: Data, code: Bytes, sigs: seq<Bytes>, keys: seq<Bytes>, used: nat)
    requires p.Ok() && d == p.d.(stack := d.stack) && used <= |d.stack|
    requires ReadMultisig(d) == Some(Multisig(sigs, keys, used)) && code == DeleteSigs(p.Code(), sigs)
    ensures var good := Assignable((sig, key) => p.env.SigOk(sig, key, code), sigs, keys);
      p.Exec(0xae, d.stack) == Some(d.(stack := Pop(d.stack, used) + [BoolBytes(good)], nOpCount := d.nOpCount + |keys|))
  {
    hide ReadMultisig, DeleteSigs, Assignable;
    var inner := DeleteSigs(p.env.script[d.codeStart..], sigs);
    AssignableSame((sig, key) => p.env.SigOk(sig, key, code), (sig, key) => p.env.SigOk(sig, key, inner), sigs, keys);
  }

  /** It fails on a number of more than four bytes, on more than 20 keys or fewer than none, on more keys than there are
      operations left, on more signatures than keys or fewer than none, and when elements are missing. */
  lemma MultisigRefuses(p: Place, below: seq<Bytes>, m: Bytes, keys: seq<Bytes>, n: Bytes)
    requires p.Ok()
    ensures p.Refuses(0xae, [])
    ensures |n| > 4 || DecodeNum(n) < 0 || DecodeNum(n) > 20 ==> p.Refuses(0xae, below + [n])
    ensures p.d.nOpCount + DecodeNum(n) > 201 || |below| < DecodeNum(n) + 1 ==> p.Refuses(0xae, below + [n])
    ensures (DecodeNum(n) == |keys| ==>
      |m| > 4 || DecodeNum(m) < 0 || DecodeNum(m) > |keys| || |below| < DecodeNum(m) + 1 ==>
        p.Refuses(0xae, below + [m] + keys + [n]))
  {
    hide DecodeNum, DeleteSigs, Assignable;
    var s, t := below + [n], below + [m] + keys + [n];
    assert Top(s, 1) == n && Top(t, 1) == n && Top(t, 2 + |keys|) == m;
  }

  /** CHECKMULTISIGVERIFY goes on exactly when CHECKMULTISIG leaves true, and takes that. */
  lemma MultisigVerifies(p: Place, before: seq<Bytes>)
    requires p.Ok()
    ensures var r := p.Exec(0xae, before);
      if r.None? then p.Refuses(0xaf, before)
      else
        && r.value.stack != []
        && (var n := |r.value.stack| - 1;
            p.Exec(0xaf, before)
            == if r.value.stack[n] == [1] then Some(r.value.(stack := r.value.stack[..n])) else None)
  {
    hide ReadMultisig, DeleteSigs, Assignable;
    var d := p.d.(stack := before);
    var q := ReadMultisig(d);
    if q.Some? {
      var t := Pop(before, q.value.used);
      assert forall b: bool :: (t + [BoolBytes(b)])[..|t|] == t;
    }
  }

  // ---- Limits and conditionals ----

  /** CAT, SUBSTR, LEFT and RIGHT; INVERT, AND, OR and XOR; 2MUL and 2DIV; MUL, DIV, MOD, LSHIFT and RSHIFT. */
  predicate SwitchedOff(op: int) {
    0x7e <= op <= 0x81 || 0x83 <= op <= 0x86 || 0x8d <= op <= 0x8e || 0x95 <= op <= 0x99
  }

  /** Executed or not, no instruction has more than 520 bytes of data or is switched off, none above OP_16 is the 202nd
      of its kind, and none leaves more than 1000 elements. */
  lemma StepLimits(env: Env, i: Instr, m: Machine)
    requires m.d.codeStart <= |env.script| && i.next <= |env.script|
    ensures (FlatStep(env, i, m).Some? ==>
      && |i.data| <= 520 && !SwitchedOff(i.opcode)
      && (i.opcode > 0x60 ==> m.d.nOpCount <= 200)
      && |FlatStep(env, i, m).value.d.stack| + |FlatStep(env, i, m).value.d.alt| <= 1000)
  {
    hide Act;
  }

  /** A script of more than 10000 bytes is refused before it is read. */
  lemma TooLong(env: Env, stack: seq<Bytes>)
    ensures |env.script| > 10_000 ==> Verdict(env, stack).None?
  {
    hide ReadAll, Flat;
  }

  /** And these limits are sharp: a push passes them all exactly when it is not too long and there is room for it, and
      an instruction that does nothing exactly when it is not the 202nd. */
  lemma LimitsAreSharp(env: Env, i: Instr, m: Machine)
    requires m.d.codeStart <= |env.script| && i.next <= |env.script| && |m.d.stack| + |m.d.alt| <= 1000
    ensures (0 <= i.opcode <= 0x4e && AllTrue(m.vfExec) ==>
      (FlatStep(env, i, m).Some? <==> |i.data| <= 520 && |m.d.stack| + |m.d.alt| < 1000)
      && (FlatStep(env, i, m).Some? ==> FlatStep(env, i, m).value == m.(d := m.d.(stack := m.d.stack + [i.data]))))
    ensures (i.opcode == 0x61 && i.data == [] ==>
      FlatStep(env, i, m) == if m.d.nOpCount <= 200 then Some(m.(d := m.d.(nOpCount := m.d.nOpCount + 1))) else None)
  {
    hide ExecMove, ExecCompute, ExecCheckSig, ExecMultisig, AllTrue;
  }

  /** IF and NOTIF open a branch that is taken by the truth of the top element, which they take; inside a branch that
      is not taken they look at nothing, and the new branch is not taken either. */
  lemma OpeningLaws(env: Env, i: Instr, m: Machine, below: seq<Bytes>, a: Bytes)
    requires m.d.codeStart <= |env.script| && i.next <= |env.script|
    ensures false !in m.vfExec && m.d.stack == below + [a] && i.opcode == 0x63 ==>
      Act(env, i, m) == Some(Machine(m.d.(stack := below), m.vfExec + [DecodeNum(a) != 0]))
    ensures false !in m.vfExec && m.d.stack == below + [a] && i.opcode == 0x64 ==>
      Act(env, i, m) == Some(Machine(m.d.(stack := below), m.vfExec + [DecodeNum(a) == 0]))
    ensures false !in m.vfExec && m.d.stack == [] && 0x63 <= i.opcode <= 0x64 ==> Act(env, i, m).None?
    ensures false in m.vfExec && 0x63 <= i.opcode <= 0x64 ==> Act(env, i, m) == Some(m.(vfExec := m.vfExec + [false]))
  {
    hide ExecOp, DecodeNum, CastToBool;
    BoolIsNonzero(a);
    assert Pop(below + [a], 1) == below;
    if false in m.vfExec {
      var k :| 0 <= k < |m.vfExec| && !m.vfExec[k];
      assert !AllTrue(m.vfExec);
    }
  }

  /** ELSE turns the innermost open branch round and ENDIF closes it; both fail without one.  VERIF and VERNOTIF fail
      even in a branch that is not taken, and every other instruction does nothing there. */
  lemma ClosingLaws(env: Env, i: Instr, m: Machine, outer: seq<bool>, taken: bool)
    requires m.d.codeStart <= |env.script| && i.next <= |env.script|
    ensures m.vfExec == outer + [taken] && i.opcode == 0x67 ==> Act(env, i, m) == Some(m.(vfExec := outer + [!taken]))
    ensures m.vfExec == outer + [taken] && i.opcode == 0x68 ==> Act(env, i, m) == Some(m.(vfExec := outer))
    ensures m.vfExec == [] && 0x67 <= i.opcode <= 0x68 ==> Act(env, i, m).None?
    ensures 0x65 <= i.opcode <= 0x66 ==> Act(env, i, m).None?
    ensures false in m.vfExec && !(0x63 <= i.opcode <= 0x68) ==> Act(env, i, m) == Some(m)
  {
    hide ExecOp;
    assert (outer + [taken])[|outer| := !taken] == outer + [!taken];
    assert (outer + [taken])[..|outer|] == outer;
    if false in m.vfExec {
      var k :| 0 <= k < |m.vfExec| && !m.vfExec[k];
      assert !AllTrue(m.vfExec);
    }
  }
}
