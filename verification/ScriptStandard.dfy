/**
 The standard scripts of src/script.cpp: when does VerifyScript accept an answer to one?  To a
 key, to a key's hash, and to a script's hash; the multisignature script is in ScriptVerify.
 */
module ScriptStandard {
  import opened MultiSig
  import opened ScriptCode
  import opened ScriptLaws
  import opened ScriptMachine
  import opened ScriptNum
  import opened ScriptVerify
  import opened Wrappers

  /** The signature is good for a script: it is canonical, and verifies under a canonical key for the script without
      the signature itself. */
  predicate Signs(env: Env, sig: Bytes, key: Bytes, code: Bytes) {
    env.canonicalSig(sig) && env.canonicalKey(key) && env.checkSig(sig, key, Deleted(code, Push(sig)))
  }

  // ---- One opcode at a time ----

  /** Opcodes that are executed one by one, without data. */
  predicate Plain(op: Byte) { 0x69 <= op as int <= 0xb9 && !IsDisabled(op as int) }

  /** The machine with which a plain opcode is executed at `pc`: it counts as an operation. */
  function Here(env: Env, pc: nat, d: Data): Place {
    Place(env, d.(nOpCount := d.nOpCount + 1), pc + 1)
  }

  lemma PlainRun(env: Env, pc: nat, op: Byte, d: Data)
    requires Plain(op) && StandsAt(env.script, pc, [op]) && d.codeStart <= |env.script| && d.nOpCount < MAX_OPS
    ensures pc + 1 <= |env.script|
    ensures Run(env, pc, Machine(d, [])) ==
      var r := Here(env, pc, d).Exec(op as int, d.stack);
      if r.None? || !SizesOk(r.value) then None else Run(env, pc + 1, Machine(r.value, []))
  {
    hide Run, FlatStep, GetOp, StandsAt, ExecOp;
    SingleByte(op);
    StandsWithin(env.script, pc, [op]);
    ReadStanding(env.script, pc, [op]);
    RunFrom(env, pc, Machine(d, []));
    PlainStep(env, Instr(op as int, [], pc + 1), d);
  }

  lemma PlainStep(env: Env, i: Instr, d: Data)
    requires 0x69 <= i.opcode <= 0xb9 && !IsDisabled(i.opcode) && i.data == [] && i.next <= |env.script|
    requires d.codeStart <= |env.script| && d.nOpCount < MAX_OPS
    ensures FlatStep(env, i, Machine(d, [])) ==
      var r := ExecOp(env, i, d.(nOpCount := d.nOpCount + 1));
      if r.None? || !SizesOk(r.value) then None else Some(Machine(r.value, []))
  {
    hide ExecOp;
  }

  /** A plain opcode that makes another stack of this one. */
  lemma PlainMakes(env: Env, pc: nat, op: Byte, d: Data, after: seq<Bytes>)
    requires Plain(op) && StandsAt(env.script, pc, [op]) && d.codeStart <= |env.script| && d.nOpCount < MAX_OPS
    requires Here(env, pc, d).Ok() && Here(env, pc, d).Makes(op as int, d.stack, after) && |after| + |d.alt| <= MAX_STACK
    ensures Run(env, pc, Machine(d, []))
         == Run(env, pc + 1, Machine(d.(stack := after, nOpCount := d.nOpCount + 1), []))
  {
    hide Run, StandsAt, ExecOp;
    PlainRun(env, pc, op, d);
  }

  lemma PlainRefuses(env: Env, pc: nat, op: Byte, d: Data)
    requires Plain(op) && StandsAt(env.script, pc, [op]) && d.codeStart <= |env.script| && d.nOpCount < MAX_OPS
    requires Here(env, pc, d).Ok() && Here(env, pc, d).Refuses(op as int, d.stack)
    ensures Run(env, pc, Machine(d, [])).None?
  {
    hide Run, StandsAt, ExecOp;
    PlainRun(env, pc, op, d);
  }

  lemma PushRun(env: Env, pc: nat, v: Bytes, d: Data)
    requires StandsAt(env.script, pc, Push(v)) && d.codeStart <= |env.script|
    requires |v| <= MAX_SCRIPT_ELEMENT_SIZE && |d.stack| + |d.alt| < MAX_STACK
    ensures Run(env, pc, Machine(d, [])) == Run(env, pc + |Push(v)|, Machine(d.(stack := d.stack + [v]), []))
  {
    hide Run, Push, StandsAt;
    PushOne(v);
    PushesRun(env, pc, [v], Machine(d, []));
  }

  /** CHECKSIG at the end of a script. */
  lemma CheckSigEnds(env: Env, pc: nat, d: Data, below: seq<Bytes>, sig: Bytes, key: Bytes)
    requires StandsAt(env.script, pc, [0xac]) && pc + 1 == |env.script|
    requires d.codeStart <= |env.script| && d.nOpCount < MAX_OPS
    requires d.stack == below + [sig, key] && |d.stack| + |d.alt| <= MAX_STACK
    ensures Run(env, pc, Machine(d, []))
         == Some(Machine(d.(stack := below + [BoolBytes(Signs(env, sig, key, env.script[d.codeStart..]))],
                            nOpCount := d.nOpCount + 1), []))
  {
    hide Run, ExecOp, Deleted, Push;
    CheckSigLaws(Here(env, pc, d), below, sig, key);
    var after := below + [BoolBytes(Signs(env, sig, key, env.script[d.codeStart..]))];
    PlainMakes(env, pc, 0xac, d, after);
    RunEnd(env, Machine(d.(stack := after, nOpCount := d.nOpCount + 1), []));
  }

  // ---- To a key ----

  /** `<key> CHECKSIG` behind the last separator, with anything at all in front that leaves a signature on top: what
      is signed is this part of the script. */
  lemma KeyRun(env: Env, pc: nat, d: Data, below: seq<Bytes>, sig: Bytes, key: Bytes)
    requires StandsAt(env.script, pc, [0xab] + (Push(key) + [0xac])) && pc + 2 + |Push(key)| == |env.script|
    requires d.codeStart <= |env.script| && d.nOpCount + 1 < MAX_OPS
    requires |key| <= MAX_SCRIPT_ELEMENT_SIZE && d.stack == below + [sig] && |d.stack| + |d.alt| < MAX_STACK
    ensures Run(env, pc, Machine(d, []))
         == Some(Machine(d.(stack := below + [BoolBytes(Signs(env, sig, key, Push(key) + [0xac]))],
                            codeStart := pc + 1, nOpCount := d.nOpCount + 2), []))
  {
    hide Run, ExecOp, Deleted, Push, Signs;
    StandsSplit(env.script, pc, [0xab], Push(key) + [0xac]);
    StandsSplit(env.script, pc + 1, Push(key), [0xac]);
    PlainRun(env, pc, 0xab, d);
    SeparatorLaw(Here(env, pc, d));
    var d1 := d.(codeStart := pc + 1, nOpCount := d.nOpCount + 1);
    PushRun(env, pc + 1, key, d1);
    assert d1.stack + [key] == below + [sig, key];
    CheckSigEnds(env, pc + 1 + |Push(key)|, d1.(stack := below + [sig, key]), below, sig, key);
    assert env.script[pc + 1..] == Push(key) + [0xac];
  }

  /** The script that pays to a key. */
  function PayToKey(key: Bytes): Bytes { Push(key) + [0xac] }

  lemma KeyVerdict(env: Env, below: seq<Bytes>, sig: Bytes, key: Bytes)
    requires env.script == PayToKey(key) && |key| <= MAX_SCRIPT_ELEMENT_SIZE && |below| + 2 <= MAX_STACK
    ensures Verdict(env, below + [sig]) == Some(below + [BoolBytes(Signs(env, sig, key, env.script))])
  {
    hide Run, Verdict, Push, Signs;
    PushLength(key);
    VerdictIsRun(env, below + [sig]);
    var d := Start(below + [sig]).d;
    assert StandsAt(env.script, 0, Push(key) + [0xac]);
    StandsSplit(env.script, 0, Push(key), [0xac]);
    PushRun(env, 0, key, d);
    assert d.stack + [key] == below + [sig, key];
    CheckSigEnds(env, |Push(key)|, d.(stack := below + [sig, key]), below, sig, key);
    assert env.script[0..] == env.script;
  }

  lemma PushLength(v: Bytes)
    requires |v| <= MAX_SCRIPT_ELEMENT_SIZE
    ensures |Push(v)| <= 523
  {
  }

  lemma KeyVerifyVerdict(env: Env, below: seq<Bytes>, sig: Bytes, key: Bytes)
    requires env.script == Push(key) + [0xad] && |key| <= MAX_SCRIPT_ELEMENT_SIZE && |below| + 2 <= MAX_STACK
    ensures Verdict(env, below + [sig]) == if Signs(env, sig, key, env.script) then Some(below) else None
  {
    hide Run, Verdict, Push, ExecOp, Deleted;
    PushLength(key);
    VerdictIsRun(env, below + [sig]);
    var d := Start(below + [sig]).d;
    assert StandsAt(env.script, 0, Push(key) + [0xad]);
    StandsSplit(env.script, 0, Push(key), [0xad]);
    PushRun(env, 0, key, d);
    assert d.stack + [key] == below + [sig, key];
    var d1, pc := d.(stack := below + [sig, key]), |Push(key)|;
    assert env.script[0..] == env.script;
    CheckSigLaws(Here(env, pc, d1), below, sig, key);
    if Signs(env, sig, key, env.script) {
      PlainMakes(env, pc, 0xad, d1, below);
      RunEnd(env, Machine(d1.(stack := below, nOpCount := d1.nOpCount + 1), []));
    } else {
      PlainRefuses(env, pc, 0xad, d1);
    }
  }

  // ---- To the hash of a key ----

  /** DUP HASH160 <h> EQUALVERIFY CHECKSIG */
  function PayToKeyHash(h: Bytes): Bytes { [0x76] + ([0xa9] + (Push(h) + ([0x88] + [0xac]))) }

  lemma KeyHashRun(env: Env, below: seq<Bytes>, sig: Bytes, key: Bytes, h: Bytes)
    requires env.script == PayToKeyHash(h) && |h| <= MAX_SCRIPT_ELEMENT_SIZE && |below| + 4 <= MAX_STACK
    ensures StandsAt(env.script, 2 + |Push(h)|, [0x88] + [0xac]) && |env.script| == 4 + |Push(h)|
    ensures Run(env, 0, Start(below + [sig, key]))
         == Run(env, 2 + |Push(h)|, Machine(Data(below + [sig, key, env.hash(0xa9, key), h], [], 0, 2), []))
  {
    hide Run, ExecOp, Push;
    var s := below + [sig, key];
    var d := Start(s).d;
    var keys, test := Push(h), [0x88] + [0xac];
    assert StandsAt(env.script, 0, [0x76] + ([0xa9] + (keys + test)));
    StandsSplit(env.script, 0, [0x76], [0xa9] + (keys + test));
    StandsSplit(env.script, 1, [0xa9], keys + test);
    StandsSplit(env.script, 2, keys, test);
    var below1 := below + [sig];
    assert s == below1 + [key];
    DupLaws(Here(env, 0, d), below1, key, key, key);
    PlainMakes(env, 0, 0x76, d, below1 + [key, key]);
    var d1 := d.(stack := below1 + [key, key], nOpCount := 1);
    assert below1 + [key, key] == s + [key];
    TestLaws(Here(env, 1, d1), s, key, key);
    PlainMakes(env, 1, 0xa9, d1, s + [env.hash(0xa9, key)]);
    var d2 := d1.(stack := s + [env.hash(0xa9, key)], nOpCount := 2);
    PushRun(env, 2, h, d2);
    assert d2.stack + [h] == below + [sig, key, env.hash(0xa9, key), h];
  }

  lemma KeyHashVerdict(env: Env, below: seq<Bytes>, sig: Bytes, key: Bytes, h: Bytes)
    requires env.script == PayToKeyHash(h) && |h| <= MAX_SCRIPT_ELEMENT_SIZE && |below| + 4 <= MAX_STACK
    ensures Verdict(env, below + [sig, key])
         == if env.hash(0xa9, key) == h then Some(below + [BoolBytes(Signs(env, sig, key, env.script))]) else None
  {
    hide Run, ExecOp, Push, Verdict, PayToKeyHash, Signs;
    PushLength(h);
    var s, pc := below + [sig, key], 2 + |Push(h)|;
    VerdictIsRun(env, s);
    KeyHashRun(env, below, sig, key, h);
    StandsSplit(env.script, pc, [0x88], [0xac]);
    var d := Data(below + [sig, key, env.hash(0xa9, key), h], [], 0, 2);
    assert d.stack == s + [env.hash(0xa9, key), h];
    TestLaws(Here(env, pc, d), s, env.hash(0xa9, key), h);
    if env.hash(0xa9, key) == h {
      PlainMakes(env, pc, 0x88, d, s);
      CheckSigEnds(env, pc + 1, d.(stack := s, nOpCount := 3), below, sig, key);
      assert env.script[0..] == env.script;
    } else {
      PlainRefuses(env, pc, 0x88, d);
    }
  }

  // ---- Signature scripts ----

  /** A script only pushes when all of it can be read and every instruction begins with an opcode up to OP_16. */
  lemma PushOnlyMeans(s: Bytes)
    ensures IsPushOnly(s) <==> Tail(s) == [] && forall b :: b in Instructions(s) ==> 1 <= |b| && b[0] as int <= 0x60
  {
    hide GetOp, Instructions, Tail;
    assert s[0..] == s;
    ReadAllIs(s, 0);
    var ops, parts := ReadAll(s, 0).0, Instructions(s);
    if IsPushOnly(s) {
      forall b | b in parts ensures 1 <= |b| && b[0] as int <= 0x60 {
        var k :| 0 <= k < |parts| && parts[k] == b;
        assert ops[k].opcode <= OP_16;
      }
    } else if Tail(s) == [] {
      var k :| 0 <= k < |ops| && ops[k].opcode > OP_16;
      assert parts[k] in parts;
    }
  }

  /** Reading position by position finds the same instructions. */
  lemma {:induction false} ReadAllIs(s: Bytes, pc: nat)
    requires pc <= |s|
    ensures var (ops, readable) := ReadAll(s, pc);
      && (readable <==> Tail(s[pc..]) == [])
      && |ops| == |Instructions(s[pc..])|
      && forall k :: 0 <= k < |ops| ==> Instructions(s[pc..])[k] != [] && ops[k].opcode == Instructions(s[pc..])[k][0] as int
    decreases |s| - pc
  {
    hide GetOp;
    var op := ReadAt(s, pc);
    ReadsSomething(s[pc..]);
    if op.Instruction? {
      ReadAllIs(s, pc + op.size);
      UnfoldInstructions(s[pc..]);
      assert s[pc..][op.size..] == s[pc + op.size..];
    }
  }

  lemma ReadsSomething(s: Bytes)
    ensures GetOp(s).Instruction? ==> s != [] && GetOp(s).opcode == s[0] as int
    ensures GetOp(s).Bad? ==> Instructions(s) == [] && Tail(s) == s
  {
  }

  lemma PushAllOnly(values: seq<Bytes>)
    requires Small(values)
    ensures IsPushOnly(PushAll(values))
  {
    hide GetOp, Instructions, Tail, Push, PushAll, IsPushOnly, IsInstruction, Concat;
    var parts := Pushes(values);
    forall i | 0 <= i < |values| ensures IsInstruction(parts[i]) && parts[i] != [] && parts[i][0] as int <= 0x60 {
      PushIsInstruction(values[i]);
      PushFirst(values[i]);
    }
    ConcatPushes(values, []);
    assert parts + [] == parts;
    assert PushAll(values) + [] == PushAll(values) && Concat(parts) + [] == Concat(parts);
    ConcatNothing();
    NothingToRead();
    PartsScript(parts, []);
    PushOnlyMeans(PushAll(values));
    forall b | b in parts ensures 1 <= |b| && b[0] as int <= 0x60 {
      var i :| 0 <= i < |parts| && parts[i] == b;
    }
  }

  lemma ConcatNothing()
    ensures Concat([]) == []
  {
  }

  lemma PushFirst(v: Bytes)
    ensures Push(v)[0] as int <= 0x4e
  {
  }

  /** Running a script only needs the script itself and what is checked in it. */
  lemma AnswersTop(env: Env, values: seq<Bytes>)
    requires Small(values) && |values| <= MAX_STACK && |PushAll(values)| <= MAX_SCRIPT_SIZE
    ensures Verdict(env.(script := PushAll(values)), []) == Some(values)
  {
    PushesVerdict(env.(script := PushAll(values)), values);
  }

  lemma TopOfList(below: seq<Bytes>, b: bool)
    ensures TrueOnTop(Some(below + [BoolBytes(b)])) <==> b
  {
    TopOfBool(b);
    assert Top(below + [BoolBytes(b)], 1) == BoolBytes(b) == Top([BoolBytes(b)], 1);
  }

  lemma NoScriptHash(s: Bytes)
    requires s != [] && s[|s| - 1] != OP_EQUAL
    ensures !IsPayToScriptHash(s)
  {
  }

  // ---- When an answer is accepted ----

  /** An output to a key is spent by a signature that is good for it, and by nothing else that is pushed; anything may be
      pushed below. */
  lemma KeyVerifies(env: Env, below: seq<Bytes>, sig: Bytes, key: Bytes, p2sh: bool)
    requires Small(below + [sig]) && |key| <= 520 && |below| <= 998 && |PushAll(below + [sig])| <= 10_000
    ensures Verifies(env, PushAll(below + [sig]), Push(key) + [0xac], p2sh)
            <==> Signs(env, sig, key, Push(key) + [0xac])
  {
    hide Run, Verdict, Push, PushAll, Signs, BoolBytes, TrueOnTop;
    var script := Push(key) + [0xac];
    AnswersTop(env, below + [sig]);
    KeyVerdict(env.(script := script), below, sig, key);
    TopOfList(below, Signs(env.(script := script), sig, key, script));
    SignsSame(env, script, sig, key);
    NoScriptHash(script);
  }

  /** A signature that is not the key itself does not stand in the script, so that is signed as a whole. */
  lemma KeySigned(env: Env, sig: Bytes, key: Bytes)
    requires sig != key && |sig| <= 520 && |key| <= 520
    ensures Signs(env, sig, key, Push(key) + [0xac]) <==> env.SigOk(sig, key, Push(key) + [0xac])
  {
    hide Push, Instructions, Deleted, Concat, GetOp, IsInstruction;
    var parts := [Push(key), [0xac]];
    PushIsInstruction(key);
    PushIsInstruction(sig);
    SingleByte(0xac);
    assert parts[1..] == [[0xac]];
    assert Concat(parts) + [] == Push(key) + [0xac] by { TwoParts(Push(key), [0xac]); }
    NothingToRead();
    PartsScript(parts, []);
    NotOpcode(sig, 0xac);
    DeletedReads(Push(key) + [0xac], Push(sig));
  }

  lemma TwoParts(a: Bytes, b: Bytes)
    ensures Concat([a, b]) + [] == a + b
  {
    PartsFirst(a, [b], []);
    PartsFirst(b, [], []);
    assert [a, b] == [a] + [b] && [b] == [b] + [];
    assert Concat([]) + [] == [] && b + [] == b;
  }

  /** A push is no opcode behind the pushes. */
  lemma NotOpcode(v: Bytes, op: Byte)
    requires |v| <= 520 && op as int > 0x4e
    ensures Push(v) != [op]
  {
    PushFirst(v);
  }

  lemma KeyHashParts(h: Bytes)
    ensures Concat([[0x76], [0xa9], Push(h), [0x88], [0xac]]) + [] == PayToKeyHash(h)
  {
    hide Push, Concat;
    assert [[0x76], [0xa9], Push(h), [0x88], [0xac]] == [[0x76]] + ([[0xa9]] + ([Push(h)] + [[0x88], [0xac]]));
    PartsFirst([0x76], [[0xa9]] + ([Push(h)] + [[0x88], [0xac]]), []);
    PartsFirst([0xa9], [Push(h)] + [[0x88], [0xac]], []);
    PartsFirst(Push(h), [[0x88], [0xac]], []);
    TwoParts([0x88], [0xac]);
  }

  /** The same for a key's hash. */
  lemma KeyHashSigned(env: Env, sig: Bytes, key: Bytes, h: Bytes)
    requires sig != h && |sig| <= 520 && |h| <= 520
    ensures Signs(env, sig, key, PayToKeyHash(h)) <==> env.SigOk(sig, key, PayToKeyHash(h))
  {
    hide Push, Instructions, Deleted, Concat, GetOp, IsInstruction, PayToKeyHash;
    var parts := [[0x76], [0xa9], Push(h), [0x88], [0xac]];
    PushIsInstruction(h);
    PushIsInstruction(sig);
    SingleByte(0x76);
    SingleByte(0xa9);
    SingleByte(0x88);
    SingleByte(0xac);
    KeyHashParts(h);
    NothingToRead();
    PartsScript(parts, []);
    NotOpcode(sig, 0x76);
    NotOpcode(sig, 0xa9);
    NotOpcode(sig, 0x88);
    NotOpcode(sig, 0xac);
    DeletedReads(PayToKeyHash(h), Push(sig));
  }

  lemma SignsSame(env: Env, script: Bytes, sig: Bytes, key: Bytes)
    ensures Signs(env.(script := script), sig, key, script) <==> Signs(env, sig, key, script)
  {
    hide Deleted, Push;
  }

  /** An output to the hash of a key is spent by a key with that hash and a signature that is good for it. */
  lemma KeyHashVerifies(env: Env, below: seq<Bytes>, sig: Bytes, key: Bytes, h: Bytes, p2sh: bool)
    requires Small(below + [sig, key]) && |h| <= 520 && |below| <= 996 && |PushAll(below + [sig, key])| <= 10_000
    ensures Verifies(env, PushAll(below + [sig, key]), PayToKeyHash(h), p2sh)
            <==> env.hash(0xa9, key) == h && Signs(env, sig, key, PayToKeyHash(h))
  {
    hide Run, Verdict, Push, PushAll, Signs, BoolBytes, TrueOnTop;
    var script := PayToKeyHash(h);
    AnswersTop(env, below + [sig, key]);
    KeyHashVerdict(env.(script := script), below, sig, key, h);
    TopOfList(below, Signs(env.(script := script), sig, key, script));
    SignsSame(env, script, sig, key);
    NoScriptHash(script);
    assert !TrueOnTop(None) by { NoneIsFalse(); }
  }

  lemma NoneIsFalse()
    ensures !TrueOnTop(None)
  {
  }

  // ---- To the hash of a script ----

  /** HASH160 <h> EQUAL */
  function PayToScriptHash(h: Bytes): Bytes { [0xa9] + (Push(h) + [0x87]) }

  lemma TwentyBytes(h: Bytes)
    requires |h| == 20
    ensures PayToScriptHash(h) == [0xa9, 0x14] + h + [0x87]
  {
    assert Push(h) == [0x14] + h;
  }

  /** The scripts that are taken for payments to a script hash are exactly these, with 20 bytes of hash. */
  lemma ScriptHashes(s: Bytes)
    ensures IsPayToScriptHash(s) <==> |s| == 23 && s == PayToScriptHash(s[2..22])
  {
    hide PayToScriptHash;
    if |s| == 23 {
      TwentyBytes(s[2..22]);
      assert s == [s[0], s[1]] + s[2..22] + [s[22]];
    }
  }

  lemma ScriptHashVerdict(env: Env, below: seq<Bytes>, r: Bytes, h: Bytes)
    requires env.script == PayToScriptHash(h) && |h| <= MAX_SCRIPT_ELEMENT_SIZE && |below| + 2 <= MAX_STACK
    ensures Verdict(env, below + [r]) == Some(below + [BoolBytes(env.hash(0xa9, r) == h)])
  {
    hide Run, ExecOp, Push, Verdict, PayToScriptHash;
    PushLength(h);
    var s, d := below + [r], Start(below + [r]).d;
    VerdictIsRun(env, s);
    ScriptHashStands(env, h);
    TestLaws(Here(env, 0, d), below, r, r);
    PlainMakes(env, 0, 0xa9, d, below + [env.hash(0xa9, r)]);
    var d1 := d.(stack := below + [env.hash(0xa9, r)], nOpCount := 1);
    PushRun(env, 1, h, d1);
    assert d1.stack + [h] == below + [env.hash(0xa9, r), h];
    var d2, pc := d1.(stack := below + [env.hash(0xa9, r), h]), 1 + |Push(h)|;
    TestLaws(Here(env, pc, d2), below, env.hash(0xa9, r), h);
    PlainMakes(env, pc, 0x87, d2, below + [BoolBytes(env.hash(0xa9, r) == h)]);
    RunEnd(env, Machine(d2.(stack := below + [BoolBytes(env.hash(0xa9, r) == h)], nOpCount := 2), []));
  }

  lemma ScriptHashStands(env: Env, h: Bytes)
    requires env.script == PayToScriptHash(h)
    ensures StandsAt(env.script, 0, [0xa9]) && StandsAt(env.script, 1, Push(h))
    ensures StandsAt(env.script, 1 + |Push(h)|, [0x87]) && |env.script| == 2 + |Push(h)|
  {
    hide Push;
    assert StandsAt(env.script, 0, [0xa9] + (Push(h) + [0x87]));
    StandsSplit(env.script, 0, [0xa9], Push(h) + [0x87]);
    StandsSplit(env.script, 1, Push(h), [0x87]);
  }

  /** An output to the hash of a script is spent by a script with that hash which, run on the values pushed below it,
      ends true; before those rules applied, by any script with that hash. */
  lemma ScriptHashVerifies(env: Env, values: seq<Bytes>, r: Bytes, h: Bytes, p2sh: bool)
    requires Small(values + [r]) && |h| == 20 && |values| <= 998 && |PushAll(values + [r])| <= 10_000
    ensures Verifies(env, PushAll(values + [r]), [0xa9, 0x14] + h + [0x87], p2sh)
            <==> env.hash(0xa9, r) == h && (p2sh ==> TrueOnTop(Verdict(env.(script := r), values)))
  {
    hide Run, Verdict, Push, PushAll, BoolBytes, TrueOnTop, IsPushOnly;
    var script := [0xa9, 0x14] + h + [0x87];
    assert script[2..22] == h;
    ScriptHashes(script);
    AnswersTop(env, values + [r]);
    ScriptHashVerdict(env.(script := PayToScriptHash(h)), values, r, h);
    TopOfList(values, env.hash(0xa9, r) == h);
    PushAllOnly(values + [r]);
    assert Top(values + [r], 1) == r && Pop(values + [r], 1) == values;
    assert env.(script := script).(script := r) == env.(script := r);
  }

  /** Under those rules a signature script that does more than push is refused, whatever it leaves. */
  lemma OnlyPushes(env: Env, scriptSig: Bytes, h: Bytes)
    requires |h| == 20 && Verifies(env, scriptSig, [0xa9, 0x14] + h + [0x87], true)
    ensures forall b :: b in Instructions(scriptSig) ==> 1 <= |b| && b[0] as int <= 0x60
  {
    hide Verdict, Push, TrueOnTop, IsPushOnly, Instructions, Tail;
    PushOnlyMeans(scriptSig);
  }

  /** Behind the hash of a multisignature script: accepted exactly when the signatures can be assigned to the keys in
      order, each of them good for that script. */
  lemma MultisigHashVerifies(env: Env, used: seq<Bytes>, keys: seq<Bytes>, h: Bytes)
    requires |used| <= |keys| <= 16 && Small(keys) && Small(used) && forall s :: s in used ==> s != [] && s !in keys
    requires |MultisigScript(|used|, keys)| <= 520 && |h| == 20
    ensures var r := MultisigScript(|used|, keys);
      Verifies(env, PushAll([[]] + used + [r]), [0xa9, 0x14] + h + [0x87], true)
      <==> env.hash(0xa9, r) == h && Assignable((sig, key) => env.SigOk(sig, key, r), used, keys)
  {
    hide Run, Verdict, Push, PushAll, BoolBytes, TrueOnTop, Verifies, MultisigScript, Assignable;
    var r, values := MultisigScript(|used|, keys), [[]] + used;
    PushAllLength(values + [r]);
    ScriptHashVerifies(env, values, r, h, true);
    var inner := env.(script := r);
    MultisigVerdict(inner, used, keys);
    AssignableSame((sig, key) => env.SigOk(sig, key, r), (sig, key) => inner.SigOk(sig, key, inner.script), used, keys);
    TopOfBool(Assignable((sig, key) => inner.SigOk(sig, key, inner.script), used, keys));
  }
}
