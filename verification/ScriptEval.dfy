/**
 The evaluation loop itself: EvalScript in src/script.cpp, run on its own variables and
 proved to give the verdict that ScriptMachine defines.
 */
module ScriptEval {
  import opened Wrappers
  import opened ScriptCode
  import opened ScriptNum
  import opened MultiSig
  import opened ScriptMachine

  /** Drops every signature from the script code, one after the other. */
  method DropSigs(code: Bytes, sigs: seq<Bytes>) returns (scriptCode: Bytes)
    requires Small(sigs)
    ensures scriptCode == DeleteSigs(code, sigs)
  {
    hide DeleteSigs, Deleted, Push, IsInstruction;
    var script := new CScript(code);
    var k := 0;
    assert sigs[0..] == sigs;
    while k < |sigs|
      invariant 0 <= k <= |sigs| && DeleteSigs(script.code, sigs[k..]) == DeleteSigs(code, sigs)
    {
      PushIsInstruction(sigs[k]);
      DeleteFirst(script.code, sigs[k..]);
      assert sigs[k..][1..] == sigs[k + 1..];
      var _ := script.FindAndDelete(Push(sigs[k]));
      k := k + 1;
    }
    DeleteNone(script.code, sigs[k..]);
    scriptCode := script.code;
  }

  lemma DeleteFirst(code: Bytes, sigs: seq<Bytes>)
    requires sigs != []
    ensures DeleteSigs(code, sigs) == DeleteSigs(Deleted(code, Push(sigs[0])), sigs[1..])
  {
  }

  lemma DeleteNone(code: Bytes, sigs: seq<Bytes>)
    requires sigs == []
    ensures DeleteSigs(code, sigs) == code
  {
  }

  method CheckMultisig(env: Env, verify: bool, d: Data) returns (r: Option<Data>)
    requires d.codeStart <= |env.script| && Small(d.stack)
    ensures r == ExecMultisig(env, verify, d)
  {
    hide CastToNum, DeleteSigs, Assignable;
    var q := ReadMultisig(d);
    if q.None? { return None; }
    var nKeys, nSigs := |q.value.keys|, |q.value.sigs|;
    var code := DropSigs(env.script[d.codeStart..], q.value.sigs);
    var ok := (sig, key) => env.SigOk(sig, key, code);
    var fSuccess := CheckLoop(ok, d.stack, 3 + nKeys, nSigs, 2, nKeys);
    AssignableSame(ok, (sig, key) => env.SigOk(sig, key, code), q.value.sigs, q.value.keys);
    MultisigResult(env, verify, d, code, fSuccess);
    var rest := Verified(verify, Pop(d.stack, q.value.used), fSuccess);
    if rest.None? { return None; }
    return Some(d.(stack := rest.value, nOpCount := d.nOpCount + nKeys));
  }

  lemma MultisigResult(env: Env, verify: bool, d: Data, code: Bytes, fSuccess: bool)
    requires d.codeStart <= |env.script| && ReadMultisig(d).Some?
    requires var q := ReadMultisig(d).value;
      && code == DeleteSigs(env.script[d.codeStart..], q.sigs)
      && fSuccess == Assignable((sig, key) => env.SigOk(sig, key, code), q.sigs, q.keys)
    ensures ExecMultisig(env, verify, d) ==
      var q := ReadMultisig(d).value;
      var rest := Verified(verify, Pop(d.stack, q.used), fSuccess);
      if rest.None? then None else Some(d.(stack := rest.value, nOpCount := d.nOpCount + |q.keys|))
  {
    hide ReadMultisig, DeleteSigs, Assignable;
    var q := ReadMultisig(d).value;
    var inner := DeleteSigs(env.script[d.codeStart..], q.sigs);
    AssignableSame((sig, key) => env.SigOk(sig, key, code), (sig, key) => env.SigOk(sig, key, inner), q.sigs, q.keys);
  }

  /** One instruction that is executed. */
  method Execute(env: Env, i: Instr, d: Data) returns (r: Option<Data>)
    requires d.codeStart <= |env.script| && i.next <= |env.script| && Small(d.stack)
    ensures r == ExecOp(env, i, d)
  {
    hide ExecMove, ExecCompute, EncodeNum, CastToBool, ExecMultisig;
    var op, s := i.opcode, d.stack;
    if op <= OP_PUSHDATA4 { return Some(d.(stack := s + [i.data])); }
    if IsSmallNumber(op) { return Some(d.(stack := s + [EncodeNum(op - 0x50)])); }
    if IsNop(op) { return Some(d); }
    if op == 0x69 {
      if |s| < 1 { return None; }
      var fValue := EvalBool(Top(s, 1));
      if !fValue { return None; }
      return Some(d.(stack := Pop(s, 1)));
    }
    if op == 0x6b { return if |s| < 1 then None else Some(d.(stack := Pop(s, 1), alt := d.alt + [Top(s, 1)])); }
    if op == 0x6c { return if |d.alt| < 1 then None else Some(d.(stack := s + [Top(d.alt, 1)], alt := Pop(d.alt, 1))); }
    if 0xa6 <= op <= 0xaa { return if |s| < 1 then None else Some(d.(stack := Pop(s, 1) + [env.hash(op, Top(s, 1))])); }
    if op == 0xab { return Some(d.(codeStart := i.next)); }
    if op == 0xac || op == 0xad { return ExecCheckSig(env, op == 0xad, d); }
    if op == 0xae || op == 0xaf { r := CheckMultisig(env, op == 0xaf, d); return; }
    var moved := ExecMove(op, s);
    if moved.Some? { return Some(d.(stack := moved.value)); }
    var computed := ExecCompute(op, s);
    return if computed.Some? then Some(d.(stack := computed.value)) else None;
  }

  lemma AllTrueCount(v: seq<bool>)
    ensures AllTrue(v) <==> false !in v
  {
    if !AllTrue(v) {
      var i :| 0 <= i < |v| && !v[i];
      assert v[i] in v;
    }
  }

  /** The part of the loop body between the checks: conditionals, and what is executed. */
  method ActOn(env: Env, i: Instr, d: Data, vfExec: seq<bool>) returns (r: Option<Machine>)
    requires d.codeStart <= |env.script| && i.next <= |env.script| && Small(d.stack)
    ensures r == Act(env, i, Machine(d, vfExec))
  {
    hide ExecOp, CastToBool, AllTrue;
    AllTrueCount(vfExec);
    var fExec := false !in vfExec;
    if i.opcode == OP_IF || i.opcode == OP_NOTIF {
      var fValue := false;
      var stack := d.stack;
      if fExec {
        if |stack| < 1 { return None; }
        fValue := EvalBool(Top(stack, 1));
        if i.opcode == OP_NOTIF { fValue := !fValue; }
        stack := Pop(stack, 1);
      }
      return Some(Machine(d.(stack := stack), vfExec + [fValue]));
    }
    if i.opcode == OP_ELSE {
      if vfExec == [] { return None; }
      return Some(Machine(d, vfExec[|vfExec| - 1 := !vfExec[|vfExec| - 1]]));
    }
    if i.opcode == OP_ENDIF {
      if vfExec == [] { return None; }
      return Some(Machine(d, vfExec[..|vfExec| - 1]));
    }
    if i.opcode == OP_VERIF || i.opcode == OP_VERNOTIF { return None; }
    if !fExec { return Some(Machine(d, vfExec)); }
    var e := Execute(env, i, d);
    return if e.None? then None else Some(Machine(e.value, vfExec));
  }

  /** Evaluates a script.  At every loop head the stacks hold at most 1000 elements of at most 520 bytes, and at most
      201 operations were counted. */
  method EvalScript(env: Env, stack0: seq<Bytes>) returns (ok: bool, stack: seq<Bytes>)
    requires env.Valid() && Small(stack0) && |stack0| <= MAX_STACK
    ensures ok <==> Verdict(env, stack0).Some?
    ensures ok ==> stack == Verdict(env, stack0).value && Small(stack) && |stack| <= MAX_STACK
  {
    hide Act, Precheck, ReadAt, GetOp, Flat, FlatStep, Small, ReadAll;
    stack := stack0;
    if |env.script| > MAX_SCRIPT_SIZE { return false, stack; }
    var m := Start(stack0);
    var pc := 0;
    ghost var all := ReadAll(env.script, 0);
    StartLimits(stack0);
    while pc < |env.script|
      invariant 0 <= pc <= |env.script| && m.d.codeStart <= |env.script|
      invariant WithinLimits(m.d)
      invariant all.1 == ReadAll(env.script, pc).1
      invariant all.1 ==> Flat(env, all.0, Start(stack0)) == Flat(env, ReadAll(env.script, pc).0, m)
      decreases |env.script| - pc
    {
      ReadStep(env, pc, m);
      var op := ReadAt(env.script, pc);
      if op.Bad? { return false, stack; }
      var i := Instr(op.opcode, op.data, pc + op.size);
      pc := pc + op.size;
      var d := Precheck(i, m.d);
      PrecheckSmall(i, m.d);
      if d.None? { return false, stack; }
      var r := ActOn(env, i, d.value, m.vfExec);
      StepIs(env, i, m);
      if r.None? || |r.value.d.stack| + |r.value.d.alt| > MAX_STACK { return false, stack; }
      ReadOpcode(env.script, pc - op.size);
      StepWithinLimits(env, i, m);
      m := r.value;
    }
    ReadEnd(env, pc, m);
    stack := m.d.stack;
    ok := m.vfExec == [];
    LimitsOfStack(m.d);
  }

  lemma StartLimits(stack0: seq<Bytes>)
    requires Small(stack0) && |stack0| <= MAX_STACK
    ensures WithinLimits(Start(stack0).d)
  {
  }

  lemma LimitsOfStack(d: Data)
    requires WithinLimits(d)
    ensures Small(d.stack) && |d.stack| <= MAX_STACK
  {
  }

  lemma PrecheckSmall(i: Instr, d: Data)
    requires WithinLimits(d)
    ensures Precheck(i, d).Some? ==> Small(Precheck(i, d).value.stack) && Precheck(i, d).value.codeStart == d.codeStart
  {
  }

  lemma ReadOpcode(script: Bytes, pc: nat)
    requires pc <= |script| && ReadAt(script, pc).Instruction?
    ensures 0 <= ReadAt(script, pc).opcode
  {
  }

  lemma StepIs(env: Env, i: Instr, m: Machine)
    requires m.d.codeStart <= |env.script| && i.next <= |env.script| && Precheck(i, m.d).Some?
    requires Precheck(i, m.d).value.codeStart == m.d.codeStart
    ensures FlatStep(env, i, m) ==
      var r := Act(env, i, m.(d := Precheck(i, m.d).value));
      if r.None? || !SizesOk(r.value.d) then None else r
  {
    hide Act;
  }

  /** Reading on from a position inside the script. */
  lemma ReadStep(env: Env, pc: nat, m: Machine)
    requires pc < |env.script| && m.d.codeStart <= |env.script|
    ensures var op := ReadAt(env.script, pc);
      var (ops, readable) := ReadAll(env.script, pc);
      if op.Bad? then !readable
      else
        var rest := ReadAll(env.script, pc + op.size);
        var i := Instr(op.opcode, op.data, pc + op.size);
        var r := FlatStep(env, i, m);
        && readable == rest.1
        && Flat(env, ops, m) == (if r.None? then None else Flat(env, rest.0, r.value))
        && (Precheck(i, m.d).None? ==> r.None?)
  {
    hide FlatStep, Act;
    var op := ReadAt(env.script, pc);
    if op.Instruction? {
      var rest := ReadAll(env.script, pc + op.size);
      var i := Instr(op.opcode, op.data, pc + op.size);
      assert ([i] + rest.0)[1..] == rest.0;
      PrecheckFails(env, i, m);
    }
  }

  lemma PrecheckFails(env: Env, i: Instr, m: Machine)
    requires m.d.codeStart <= |env.script| && i.next <= |env.script|
    ensures Precheck(i, m.d).None? ==> FlatStep(env, i, m).None?
  {
  }

  lemma ReadEnd(env: Env, pc: nat, m: Machine)
    requires pc == |env.script| && m.d.codeStart <= |env.script|
    ensures ReadAll(env.script, pc) == ([], true) && Flat(env, ReadAll(env.script, pc).0, m) == Some(m)
  {
  }
}
