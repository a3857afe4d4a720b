/**
 Verifying an input: VerifyScript in src/script.cpp, which runs a signature script and then the
 script it answers on one stack; and the signature scripts of CombineMultisig, which pass.
 */
module ScriptVerify {
  import opened MultiSig
  import opened ScriptCode
  import opened ScriptEval
  import opened ScriptMachine
  import opened ScriptNum
  import opened Sequences
  import opened Wrappers

  const OP_HASH160: Byte := 0xa9
  const OP_EQUAL: Byte := 0x87
  const OP_CHECKMULTISIG: Byte := 0xae

  predicate IsPayToScriptHash(s: Bytes) {
    |s| == 23 && s[0] == OP_HASH160 && s[1] == 0x14 && s[22] == OP_EQUAL
  }

  /** Only instructions that push, and all of the script can be read. */
  predicate IsPushOnly(s: Bytes) {
    var (ops, readable) := ReadAll(s, 0);
    readable && forall i :: 0 <= i < |ops| ==> ops[i].opcode <= OP_16
  }

  predicate TrueOnTop(r: Option<seq<Bytes>>) {
    r.Some? && r.value != [] && CastToBool(Top(r.value, 1))
  }

  /** The verdict on a signature script and the script that it answers.  When that one asks for a script with a given
      hash, the script on top of the signature stack has to accept what is below it. */
  ghost predicate Verifies(env: Env, scriptSig: Bytes, scriptPubKey: Bytes, p2sh: bool) {
    var answer := Verdict(env.(script := scriptSig), []);
    && answer.Some?
    && TrueOnTop(Verdict(env.(script := scriptPubKey), answer.value))
    && (p2sh && IsPayToScriptHash(scriptPubKey) ==>
          && IsPushOnly(scriptSig) && answer.value != []
          && TrueOnTop(Verdict(env.(script := Top(answer.value, 1)), Pop(answer.value, 1))))
  }

  // ---- The methods ----

  method PushesOnly(script: Bytes) returns (ok: bool)
    ensures ok <==> IsPushOnly(script)
  {
    hide ReadAt;
    var pc := 0;
    ok := true;
    while pc < |script|
      invariant 0 <= pc <= |script|
      invariant IsPushOnly(script) <==>
        ReadAll(script, pc).1 && forall i :: 0 <= i < |ReadAll(script, pc).0| ==> ReadAll(script, pc).0[i].opcode <= OP_16
      decreases |script| - pc
    {
      var op := ReadAt(script, pc);
      if op.Bad? { return false; }
      ghost var rest := ReadAll(script, pc + op.size);
      PushHead(Instr(op.opcode, op.data, pc + op.size), rest.0);
      if op.opcode > OP_16 { return false; }
      pc := pc + op.size;
    }
  }

  lemma PushHead(i: Instr, rest: seq<Instr>)
    ensures (forall k :: 0 <= k < |[i] + rest| ==> ([i] + rest)[k].opcode <= OP_16)
            <==> i.opcode <= OP_16 && forall k :: 0 <= k < |rest| ==> rest[k].opcode <= OP_16
  {
    var all := [i] + rest;
    if forall k :: 0 <= k < |all| ==> all[k].opcode <= OP_16 {
      assert all[0] == i;
      forall k | 0 <= k < |rest| ensures rest[k].opcode <= OP_16 { assert all[k + 1] == rest[k]; }
    }
  }

  /** The assertion that there is a script to run never fails. */
  method VerifyScript(env: Env, scriptSig: Bytes, scriptPubKey: Bytes, p2sh: bool) returns (ok: bool)
    requires env.Valid()
    ensures ok <==> Verifies(env, scriptSig, scriptPubKey, p2sh)
  {
    hide Verdict, IsPushOnly, CastToBool;
    var run, stack := EvalScript(env.(script := scriptSig), []);
    if !run { return false; }
    var stackCopy := stack;
    run, stack := EvalScript(env.(script := scriptPubKey), stack);
    if !run || stack == [] { return false; }
    var top := EvalBool(Top(stack, 1));
    if !top { return false; }
    if p2sh && IsPayToScriptHash(scriptPubKey) {
      var pushes := PushesOnly(scriptSig);
      if !pushes { return false; }
      if stackCopy == [] { NothingToHash(env.(script := scriptPubKey)); }
      assert stackCopy != [];
      var pubKey2 := Top(stackCopy, 1);
      SmallParts(stackCopy, |stackCopy| - 1, |stackCopy|);
      run, stack := EvalScript(env.(script := pubKey2), Pop(stackCopy, 1));
      if !run || stack == [] { return false; }
      top := EvalBool(Top(stack, 1));
      return top;
    }
    return true;
  }

  /** A script that hashes the top of the stack first fails on an empty stack. */
  lemma NothingToHash(env: Env)
    requires IsPayToScriptHash(env.script)
    ensures Verdict(env, []).None?
  {
    RunFrom(env, 0, Start([]));
    VerdictIsRun(env, []);
  }

  // ---- Running from a position ----

  /** Reads and runs the rest of the script. */
  ghost function Run(env: Env, pc: nat, m: Machine): Option<Machine>
    requires pc <= |env.script| && m.d.codeStart <= |env.script|
  {
    var (ops, readable) := ReadAll(env.script, pc);
    if !readable then None else Flat(env, ops, m)
  }

  lemma VerdictIsRun(env: Env, stack: seq<Bytes>)
    ensures Verdict(env, stack) ==
      if |env.script| > MAX_SCRIPT_SIZE then None
      else
        var r := Run(env, 0, Start(stack));
        if r.None? || r.value.vfExec != [] then None else Some(r.value.d.stack)
  {
    hide ReadAll, Flat;
  }

  lemma RunFrom(env: Env, pc: nat, m: Machine)
    requires pc < |env.script| && m.d.codeStart <= |env.script|
    ensures Run(env, pc, m) ==
      var op := ReadAt(env.script, pc);
      if op.Bad? then None
      else
        var r := FlatStep(env, Instr(op.opcode, op.data, pc + op.size), m);
        if r.None? then None else Run(env, pc + op.size, r.value)
  {
    hide ReadAll, Flat, FlatStep, ReadAt;
    ReadStep(env, pc, m);
  }

  lemma RunEnd(env: Env, m: Machine)
    requires m.d.codeStart <= |env.script|
    ensures Run(env, |env.script|, m) == Some(m)
  {
    hide ReadAll, Flat;
    ReadEnd(env, |env.script|, m);
  }

  // ---- Pushes ----

  /** The data after `values` have been pushed. */
  function Pushed(m: Machine, values: seq<Bytes>): Machine {
    m.(d := m.d.(stack := m.d.stack + values))
  }

  /** `code` stands in the script from `pc` on. */
  predicate StandsAt(script: Bytes, pc: nat, code: Bytes) {
    pc + |code| <= |script| && script[pc..pc + |code|] == code
  }

  lemma StandsSplit(script: Bytes, pc: nat, a: Bytes, b: Bytes)
    requires StandsAt(script, pc, a + b)
    ensures StandsAt(script, pc, a) && StandsAt(script, pc + |a|, b)
  {
    var code := script[pc..pc + |a + b|];
    assert a == code[..|a|] == script[pc..pc + |a|];
    assert b == code[|a|..] == script[pc + |a|..pc + |a| + |b|];
  }

  lemma ReadStanding(script: Bytes, pc: nat, code: Bytes)
    requires StandsAt(script, pc, code) && GetOp(code).Instruction?
    ensures ReadAt(script, pc) == GetOp(code)
  {
    hide GetOp;
    assert script[pc..] == code + script[pc + |code|..];
    GetOpPrefix(code, script[pc + |code|..]);
  }

  lemma ReadsPush(v: Bytes)
    requires |v| <= MAX_SCRIPT_ELEMENT_SIZE
    ensures var op := GetOp(Push(v));
      op.Instruction? && 0 <= op.opcode <= OP_PUSHDATA4 && op.data == v && op.size == |Push(v)|
  {
    PushIsInstruction(v);
  }

  lemma PushStep(env: Env, i: Instr, m: Machine)
    requires m.d.codeStart <= |env.script| && i.next <= |env.script| && m.vfExec == []
    requires 0 <= i.opcode <= OP_PUSHDATA4 && |i.data| <= MAX_SCRIPT_ELEMENT_SIZE
    requires |m.d.stack| + |m.d.alt| < MAX_STACK
    ensures FlatStep(env, i, m) == Some(Pushed(m, [i.data]))
  {
  }

  /** Running into a list of pushes is running on behind it with the values on the stack. */
  lemma {:induction false} PushesRun(env: Env, pc: nat, values: seq<Bytes>, m: Machine)
    requires StandsAt(env.script, pc, PushAll(values)) && m.d.codeStart <= |env.script| && m.vfExec == []
    requires Small(values) && |m.d.stack| + |m.d.alt| + |values| <= MAX_STACK
    ensures Run(env, pc, m) == Run(env, pc + |PushAll(values)|, Pushed(m, values))
    decreases |values|
  {
    hide Run, FlatStep, GetOp, Push, StandsAt;
    if values == [] {
      assert m.d.stack + values == m.d.stack;
    } else {
      var v, rest := values[0], values[1..];
      StandsSplit(env.script, pc, Push(v), PushAll(rest));
      ReadsPush(v);
      StandsWithin(env.script, pc, Push(v));
      ReadStanding(env.script, pc, Push(v));
      var op := ReadAt(env.script, pc);
      RunFrom(env, pc, m);
      PushStep(env, Instr(op.opcode, op.data, pc + op.size), m);
      PushesRun(env, pc + |Push(v)|, rest, Pushed(m, [v]));
      assert m.d.stack + [v] + rest == m.d.stack + values;
    }
  }

  lemma StandsWithin(script: Bytes, pc: nat, code: Bytes)
    requires StandsAt(script, pc, code) && code != []
    ensures pc < |script|
  {
  }

  /** A script of pushes yields exactly its values. */
  lemma PushesVerdict(env: Env, values: seq<Bytes>)
    requires env.script == PushAll(values) && |env.script| <= MAX_SCRIPT_SIZE
    requires Small(values) && |values| <= MAX_STACK
    ensures Verdict(env, []) == Some(values)
  {
    hide Run, Verdict, PushAll, Small, ReadAll, GetOp;
    var m := Start([]);
    VerdictIsRun(env, []);
    PushesRun(env, 0, values, m);
    RunEnd(env, Pushed(m, values));
    assert m.d.stack + values == values;
  }

  // ---- Multisignature scripts ----

  /** The opcode that pushes a small number. */
  function OpN(n: nat): Byte
    requires n <= 16
  {
    if n == 0 then 0 else (0x50 + n) as Byte
  }

  /** The script that asks for `m` signatures of the given keys. */
  function MultisigScript(m: nat, keys: seq<Bytes>): Bytes
    requires m <= 16 && |keys| <= 16
  {
    [OpN(m)] + PushAll(keys) + [OpN(|keys|)] + [OP_CHECKMULTISIG]
  }

  lemma SmallNumber(n: nat)
    requires n <= 20
    ensures CastToNum(EncodeNum(n)) == Some(n)
  {
    hide EncodeNum, DecodeNum;
    assert Pow256(1) == 256;
    EncodeNumLength(n, 1);
    DecodeEncodeNum(n);
  }

  /** OP_CHECKMULTISIG leaves true exactly when the signatures, as many as are asked for, can be assigned to the keys in
      order. */
  lemma ExecDecides(env: Env, d: Data, used: seq<Bytes>, keys: seq<Bytes>)
    requires d.codeStart <= |env.script|
    requires forall s :: s in used ==> Push(s) !in Instructions(env.script[d.codeStart..])
    requires d.stack == MultisigStack(used, EncodeNum(|used|), keys, EncodeNum(|keys|))
    requires |used| <= |keys| <= 20 && d.nOpCount + |keys| <= 201
    ensures var accepted := Assignable((sig, key) => env.SigOk(sig, key, env.script[d.codeStart..]), used, keys);
      ExecMultisig(env, false, d) == Some(d.(stack := [BoolBytes(accepted)], nOpCount := d.nOpCount + |keys|))
  {
    hide EncodeNum, CastToNum, Instructions, DeleteSigs, Assignable, ExecMultisig, Push, BoolBytes;
    var script := env.script[d.codeStart..];
    var check := (sig, key, code) => env.SigOk(sig, key, code);
    AssignableSame((sig, key) => env.SigOk(sig, key, script), (sig, key) => check(sig, key, script), used, keys);
    AssignableOnStack(check, script, used, EncodeNum(|used|), keys, EncodeNum(|keys|));
    SmallNumber(|used|);
    SmallNumber(|keys|);
    OperandsOnStack(d, used, keys);
    var q := ReadMultisig(d).value;
    var code := DeleteSigs(script, q.sigs);
    AssignableSame((sig, key) => check(sig, key, code), (sig, key) => env.SigOk(sig, key, code), q.sigs, q.keys);
    var accepted := Assignable((sig, key) => env.SigOk(sig, key, script), used, keys);
    MultisigResult(env, false, d, code, accepted);
    assert Pop(d.stack, q.used) + [BoolBytes(accepted)] == [BoolBytes(accepted)];
  }

  lemma OperandsOnStack(d: Data, used: seq<Bytes>, keys: seq<Bytes>)
    requires d.stack == MultisigStack(used, EncodeNum(|used|), keys, EncodeNum(|keys|))
    requires |used| <= |keys| <= 20 && d.nOpCount + |keys| <= 201
    requires CastToNum(EncodeNum(|used|)) == Some(|used|) && CastToNum(EncodeNum(|keys|)) == Some(|keys|)
    ensures ReadMultisig(d)
         == Some(Multisig(FromTop(d.stack, |keys| + 3, |used|), FromTop(d.stack, 2, |keys|), |d.stack|))
  {
    hide EncodeNum, CastToNum, FromTop;
    var m, n := EncodeNum(|used|), EncodeNum(|keys|);
    assert Top(d.stack, 1) == n;
    assert Top(d.stack, 2 + |keys|) == m;
  }

  // ---- The instructions of a multisignature script ----

  function Pushes(values: seq<Bytes>): (r: seq<Bytes>)
    ensures |r| == |values| && forall i :: 0 <= i < |values| ==> r[i] == Push(values[i])
  {
    seq(|values|, i requires 0 <= i < |values| => Push(values[i]))
  }

  lemma {:induction false} ConcatPushes(values: seq<Bytes>, rest: seq<Bytes>)
    ensures Concat(Pushes(values) + rest) == PushAll(values) + Concat(rest)
    decreases |values|
  {
    hide Push;
    var parts := Pushes(values) + rest;
    if values == [] {
      assert parts == rest;
    } else {
      assert parts[0] == Push(values[0]) && parts[1..] == Pushes(values[1..]) + rest;
      ConcatPushes(values[1..], rest);
    }
  }

  /** The instructions of a multisignature script. */
  function MultisigParts(m: nat, keys: seq<Bytes>): seq<Bytes>
    requires m <= 16 && |keys| <= 16
  {
    [[OpN(m)]] + (Pushes(keys) + [[OpN(|keys|)], [OP_CHECKMULTISIG]])
  }

  lemma MultisigConcat(m: nat, keys: seq<Bytes>)
    requires m <= 16 && |keys| <= 16
    ensures Concat(MultisigParts(m, keys)) == MultisigScript(m, keys)
  {
    hide Push, GetOp, OpN, PushAll;
    var n, c := [OpN(|keys|)], [OP_CHECKMULTISIG];
    var parts := MultisigParts(m, keys);
    assert [n, c][1..] == [c] && [c][1..] == [];
    assert Concat([n, c]) == n + c by { assert Concat([c]) == c; }
    ConcatPushes(keys, [n, c]);
    assert parts[0] == [OpN(m)] && parts[1..] == Pushes(keys) + [n, c];
  }

  lemma MultisigInstructions(m: nat, keys: seq<Bytes>)
    requires m <= 16 && |keys| <= 16 && Small(keys)
    ensures Instructions(MultisigScript(m, keys)) == MultisigParts(m, keys)
  {
    hide Push, Instructions, GetOp, IsInstruction, Concat, PushAll;
    var parts := MultisigParts(m, keys);
    SingleByte(OpN(m));
    SingleByte(OpN(|keys|));
    SingleByte(OP_CHECKMULTISIG);
    forall i | 0 <= i < |keys| ensures IsInstruction(Push(keys[i])) { PushIsInstruction(keys[i]); }
    MultisigConcat(m, keys);
    NothingToRead();
    PartsScript(parts, []);
    assert Concat(parts) + [] == MultisigScript(m, keys);
  }

  lemma NothingToRead()
    ensures GetOp([]).Bad?
  {
  }

  lemma SingleByte(b: Byte)
    requires b == 0 || b as int > OP_PUSHDATA4
    ensures GetOp([b]) == Instruction(b as int, [], 1) && IsInstruction([b])
  {
  }

  lemma PartsAre(m: nat, keys: seq<Bytes>)
    requires m <= 16 && |keys| <= 16
    ensures forall i :: 0 <= i < |MultisigParts(m, keys)| ==> var b := MultisigParts(m, keys)[i];
      (exists k :: 0 <= k < |keys| && b == Push(keys[k])) || (|b| == 1 && (b[0] == 0 || b[0] as int > OP_PUSHDATA4))
  {
    hide Push;
  }

  /** A signature that is none of the keys is not an instruction of the script. */
  lemma SignatureAbsent(m: nat, keys: seq<Bytes>, s: Bytes)
    requires m <= 16 && |keys| <= 16 && Small(keys) && |s| <= MAX_SCRIPT_ELEMENT_SIZE && s != [] && s !in keys
    ensures Push(s) !in Instructions(MultisigScript(m, keys))
  {
    hide Instructions, GetOp, Push, MultisigScript, MultisigParts;
    MultisigInstructions(m, keys);
    var parts := MultisigParts(m, keys);
    PartsAre(m, keys);
    PushIsInstruction(s);
    PushHeader(s);
    assert |Push(s)| > 1 by { assert |Header(s)| >= 1; }
    forall i | 0 <= i < |parts| ensures parts[i] != Push(s) {
      if exists k :: 0 <= k < |keys| && parts[i] == Push(keys[k]) {
        var k :| 0 <= k < |keys| && parts[i] == Push(keys[k]);
        PushIsInstruction(keys[k]);
      }
    }
  }

  lemma {:induction false} PushAllLength(values: seq<Bytes>)
    requires Small(values)
    ensures |PushAll(values)| <= 523 * |values|
  {
    if values != [] { PushAllLength(values[1..]); }
  }

  // ---- A combined script is accepted ----

  /** An opcode that pushes a small number. */
  lemma SmallNumberRun(env: Env, pc: nat, n: nat, m: Machine)
    requires n <= 16 && StandsAt(env.script, pc, [OpN(n)]) && m.d.codeStart <= |env.script| && m.vfExec == []
    requires |m.d.stack| + |m.d.alt| < MAX_STACK
    ensures Run(env, pc, m) == Run(env, pc + 1, Pushed(m, [EncodeNum(n)]))
  {
    hide Run, FlatStep, GetOp, Digits, StandsAt;
    SingleByte(OpN(n));
    StandsWithin(env.script, pc, [OpN(n)]);
    ReadStanding(env.script, pc, [OpN(n)]);
    RunFrom(env, pc, m);
    SmallNumberStep(env, Instr(OpN(n) as int, [], pc + 1), n, m);
  }

  lemma SmallNumberStep(env: Env, i: Instr, n: nat, m: Machine)
    requires m.d.codeStart <= |env.script| && i.next <= |env.script| && m.vfExec == []
    requires n <= 16 && i.opcode == OpN(n) as int && i.data == [] && |m.d.stack| + |m.d.alt| < MAX_STACK
    ensures FlatStep(env, i, m) == Some(Pushed(m, [EncodeNum(n)]))
  {
    hide Digits;
  }

  lemma MultisigStep(env: Env, i: Instr, m: Machine)
    requires m.d.codeStart <= |env.script| && i.next <= |env.script| && m.vfExec == []
    requires i.opcode == OP_CHECKMULTISIG as int && i.data == [] && m.d.nOpCount < MAX_OPS
    requires var r := ExecMultisig(env, false, m.d.(nOpCount := m.d.nOpCount + 1)); r.Some? && SizesOk(r.value)
    ensures FlatStep(env, i, m)
         == Some(m.(d := ExecMultisig(env, false, m.d.(nOpCount := m.d.nOpCount + 1)).value))
  {
    hide ExecMultisig, ExecMove, ExecCompute, ExecCheckSig;
  }

  /** The machine before OP_CHECKMULTISIG: the values of the signature script, m, the keys, and n. */
  function BeforeCheck(used: seq<Bytes>, keys: seq<Bytes>): Machine {
    Start(MultisigStack(used, EncodeNum(|used|), keys, EncodeNum(|keys|)))
  }

  lemma RunToCheck(env: Env, used: seq<Bytes>, keys: seq<Bytes>)
    requires |used| <= 16 && |keys| <= 16 && Small(keys) && env.script == MultisigScript(|used|, keys)
    ensures Run(env, 0, Start([[]] + used)) == Run(env, |env.script| - 1, BeforeCheck(used, keys))
  {
    hide Run, EncodeNum, GetOp, Small, OpN, Push;
    var m, n, pushed := [OpN(|used|)], [OpN(|keys|)], PushAll(keys);
    var c := [OP_CHECKMULTISIG];
    assert env.script == m + (pushed + (n + c));
    assert StandsAt(env.script, 0, m + (pushed + (n + c)));
    StandsSplit(env.script, 0, m, pushed + (n + c));
    StandsSplit(env.script, 1, pushed, n + c);
    StandsSplit(env.script, 1 + |pushed|, n, c);
    var m0 := Start([[]] + used);
    SmallNumberRun(env, 0, |used|, m0);
    var m1 := Pushed(m0, [EncodeNum(|used|)]);
    PushesRun(env, 1, keys, m1);
    var m2 := Pushed(m1, keys);
    SmallNumberRun(env, 1 + |pushed|, |keys|, m2);
    assert Pushed(m2, [EncodeNum(|keys|)]) == BeforeCheck(used, keys);
  }

  lemma RunCheck(env: Env, used: seq<Bytes>, keys: seq<Bytes>)
    requires |used| <= |keys| <= 16 && env.script == MultisigScript(|used|, keys)
    requires forall s :: s in used ==> Push(s) !in Instructions(env.script)
    ensures var r := Run(env, |env.script| - 1, BeforeCheck(used, keys));
      && r.Some? && r.value.vfExec == []
      && r.value.d.stack == [BoolBytes(Assignable((sig, key) => env.SigOk(sig, key, env.script), used, keys))]
  {
    hide Run, FlatStep, EncodeNum, GetOp, ExecMultisig, Assignable, Instructions, OpN, Push, PushAll, BoolBytes;
    var pc, m := |env.script| - 1, BeforeCheck(used, keys);
    var c := [OP_CHECKMULTISIG];
    assert StandsAt(env.script, pc, c);
    SingleByte(OP_CHECKMULTISIG);
    ReadStanding(env.script, pc, c);
    RunFrom(env, pc, m);
    assert env.script[0..] == env.script;
    AssignableSame((sig, key) => env.SigOk(sig, key, env.script), (sig, key) => env.SigOk(sig, key, env.script[0..]), used, keys);
    ExecDecides(env, m.d.(nOpCount := 1), used, keys);
    MultisigStep(env, Instr(OP_CHECKMULTISIG as int, [], pc + 1), m);
    RunEnd(env, m.(d := ExecMultisig(env, false, m.d.(nOpCount := 1)).value));
  }

  /** The script with m of n keys, run on the values of a signature script, decides by whether the signatures can be
      assigned to the keys in order, each of them canonical and verifying. */
  lemma MultisigVerdict(env: Env, used: seq<Bytes>, keys: seq<Bytes>)
    requires |used| <= |keys| <= 16 && Small(keys) && Small(used) && forall s :: s in used ==> s != [] && s !in keys
    requires env.script == MultisigScript(|used|, keys)
    ensures Verdict(env, [[]] + used)
         == Some([BoolBytes(Assignable((sig, key) => env.SigOk(sig, key, env.script), used, keys))])
  {
    hide Run, Verdict, PushAll, Assignable, Instructions, OpN, Push, BeforeCheck, BoolBytes;
    PushAllLength(keys);
    forall s | s in used ensures Push(s) !in Instructions(env.script) { SignatureAbsent(|used|, keys, s); }
    VerdictIsRun(env, [[]] + used);
    RunToCheck(env, used, keys);
    RunCheck(env, used, keys);
  }

  lemma TopOfBool(b: bool)
    ensures TrueOnTop(Some([BoolBytes(b)])) <==> b
  {
    assert CastToBool([1]) by { assert [1 as Byte][0] != 0; }
  }

  /** What CombineMultisig returns when it has found all required signatures, whatever the size of signatures and keys
      up to the limit of an element: verification accepts it exactly when its signatures can be assigned to the keys
      under the flags of the evaluation, which may also ask for canonical encodings. */
  lemma CombinedVerdict(env: Env, m: nat, keys: seq<Bytes>, used: seq<Bytes>, result: Bytes, p2sh: bool)
    requires m <= 16 && |keys| <= 16 && Small(keys) && Small(used) && forall s :: s in used ==> s != [] && s !in keys
    requires |used| == m <= |keys| && result == PushAll([[]] + used + Repeat<Bytes>([], m - |used|))
    ensures Verifies(env, result, MultisigScript(m, keys), p2sh)
            <==> Assignable((sig, key) => env.SigOk(sig, key, MultisigScript(m, keys)), used, keys)
  {
    hide Run, Verdict, PushAll, Assignable, OpN, Push, BoolBytes, TrueOnTop;
    var values, script := [[]] + used, MultisigScript(m, keys);
    assert values + Repeat<Bytes>([], 0) == values;
    PushAllLength(values);
    PushesVerdict(env.(script := result), values);
    var inner := env.(script := script);
    AssignableSame((sig, key) => env.SigOk(sig, key, script), (sig, key) => inner.SigOk(sig, key, inner.script), used, keys);
    MultisigVerdict(inner, used, keys);
    TopOfBool(Assignable((sig, key) => inner.SigOk(sig, key, inner.script), used, keys));
    assert script[|script| - 1] == OP_CHECKMULTISIG;
  }

  /** The signatures and the keys that they are assigned to are canonical. */
  ghost predicate AllCanonical(env: Env, used: seq<Bytes>, keys: seq<Bytes>, at: seq<int>) {
    forall i :: 0 <= i < |used| && i < |at| && 0 <= at[i] < |keys| ==> env.canonicalSig(used[i]) && env.canonicalKey(keys[at[i]])
  }

  lemma CanonicalAssigns(env: Env, code: Bytes, used: seq<Bytes>, keys: seq<Bytes>, at: seq<int>)
    requires Assigns((sig, key) => env.checkSig(sig, key, code), used, keys, at)
    ensures AllCanonical(env, used, keys, at) ==> Assignable((sig, key) => env.SigOk(sig, key, code), used, keys)
    ensures Assignable((sig, key) => env.SigOk(sig, key, code), used, keys) ==> forall s :: s in used ==> env.canonicalSig(s)
    ensures OneKeyEach((sig, key) => env.checkSig(sig, key, code), used, keys) ==>
      (Assignable((sig, key) => env.SigOk(sig, key, code), used, keys) <==> AllCanonical(env, used, keys, at))
  {
    var check, ok := (sig, key) => env.checkSig(sig, key, code), (sig, key) => env.SigOk(sig, key, code);
    if AllCanonical(env, used, keys, at) { assert Assigns(ok, used, keys, at); }
    if Assignable(ok, used, keys) {
      var bt :| Assigns(ok, used, keys, bt);
      forall s | s in used ensures env.canonicalSig(s) {
        var i :| 0 <= i < |used| && used[i] == s;
        assert ok(used[i], keys[bt[i]]);
      }
      if OneKeyEach(check, used, keys) {
        forall i | 0 <= i < |used| ensures env.canonicalSig(used[i]) && env.canonicalKey(keys[at[i]]) {
          assert ok(used[i], keys[bt[i]]) && check(used[i], keys[at[i]]) && check(used[i], keys[bt[i]]);
        }
      }
    }
  }

  /** CombineMultisig looks for signatures that verify, without regard to their encoding.  When it has found all, its
      result is accepted if they and the keys they were matched to are canonical, refused if some signature is not,
      and, where no signature verifies under two keys, accepted if and only if all are canonical. */
  lemma CombinedVerifies(env: Env, m: nat, keys: seq<Bytes>, used: seq<Bytes>, at: seq<int>, result: Bytes, p2sh: bool)
    requires m <= 16 && |keys| <= 16 && Small(keys) && Small(used) && forall s :: s in used ==> s != [] && s !in keys
    requires |used| == m && result == PushAll([[]] + used + Repeat<Bytes>([], m - |used|))
    requires Assigns((sig, key) => env.checkSig(sig, key, MultisigScript(m, keys)), used, keys, at)
    ensures AllCanonical(env, used, keys, at) ==> Verifies(env, result, MultisigScript(m, keys), p2sh)
    ensures Verifies(env, result, MultisigScript(m, keys), p2sh) ==> forall s :: s in used ==> env.canonicalSig(s)
    ensures OneKeyEach((sig, key) => env.checkSig(sig, key, MultisigScript(m, keys)), used, keys) ==>
      (Verifies(env, result, MultisigScript(m, keys), p2sh) <==> AllCanonical(env, used, keys, at))
  {
    hide Assigns, MultisigScript, Verifies, PushAll;
    var code := MultisigScript(m, keys);
    var check := (sig, key) => env.checkSig(sig, key, code);
    assert Assignable(check, used, keys);
    AssignableFits(check, used, keys);
    CanonicalAssigns(env, code, used, keys, at);
    CombinedVerdict(env, m, keys, used, result, p2sh);
  }

  /** An input on which they differ: the one signature verifies, but is not canonical. */
  lemma NotCanonical(hash: (int, Bytes) -> Bytes, p2sh: bool)
    ensures var env := Env([], (sig, key, code) => true, sig => false, key => true, hash);
      var keys, used := [[2]], [[1]];
      && Assigns((sig, key) => env.checkSig(sig, key, MultisigScript(1, keys)), used, keys, [0])
      && !Verifies(env, PushAll([[]] + used + Repeat<Bytes>([], 0)), MultisigScript(1, keys), p2sh)
  {
    hide MultisigScript, Verifies, PushAll;
    var env := Env([], (sig, key, code) => true, sig => false, key => true, hash);
    var keys: seq<Bytes>, used: seq<Bytes> := [[2]], [[1]];
    assert used[0] in used;
    CombinedVerifies(env, 1, keys, used, [0], PushAll([[]] + used + Repeat<Bytes>([], 0)), p2sh);
  }
}
