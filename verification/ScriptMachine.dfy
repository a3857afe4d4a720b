/**
 The stack machine: EvalScript in src/script.cpp.

 `ExecOp` is what one executed instruction does to the data; `FlatStep` adds the flag
 vector with which the program handles conditionals, and the limits.  Hash functions and
 signature checks belong to the environment.
 */
module ScriptMachine {
  import opened Wrappers
  import opened ScriptCode
  import opened ScriptNum
  import opened MultiSig

  const MAX_SCRIPT_ELEMENT_SIZE: nat := 520
  const MAX_SCRIPT_SIZE: nat := 10000
  const MAX_STACK: nat := 1000
  const MAX_OPS: int := 201
  const MAX_KEYS: int := 20

  const OP_16: int := 0x60
  const OP_IF: int := 0x63
  const OP_NOTIF: int := 0x64
  const OP_VERIF: int := 0x65
  const OP_VERNOTIF: int := 0x66
  const OP_ELSE: int := 0x67
  const OP_ENDIF: int := 0x68

  /** What a script is evaluated against.  `checkSig` takes a signature, a key and the script that was signed.
      What counts as canonical depends on the flags of the evaluation. */
  datatype Env = Env(script: Bytes, checkSig: (Bytes, Bytes, Bytes) -> bool, canonicalSig: Bytes -> bool,
                     canonicalKey: Bytes -> bool, hash: (int, Bytes) -> Bytes)
  {
    /** Digests have 20 or 32 bytes. */
    ghost predicate Valid() {
      forall op, v :: |hash(op, v)| <= 32
    }

    /** Whether a signature counts, for the given script code. */
    predicate SigOk(sig: Bytes, key: Bytes, code: Bytes) {
      canonicalSig(sig) && canonicalKey(key) && checkSig(sig, key, code)
    }
  }

  /** An instruction as read from the script, and the position after it. */
  datatype Instr = Instr(opcode: int, data: Bytes, next: nat)

  datatype Data = Data(stack: seq<Bytes>, alt: seq<Bytes>, codeStart: nat, nOpCount: int)

  /** The data and the flag vector of the conditionals that are open. */
  datatype Machine = Machine(d: Data, vfExec: seq<bool>)

  // ---- One executed instruction ----

  function BoolBytes(b: bool): Bytes { if b then [1] else [] }

  function Pop(s: seq<Bytes>, n: nat): seq<Bytes>
    requires n <= |s|
  {
    s[..|s| - n]
  }

  /** The i-th element from the top, counting from one. */
  function Top(s: seq<Bytes>, i: nat): Bytes
    requires 1 <= i <= |s|
  {
    s[|s| - i]
  }

  /** Opcodes that push a small number. */
  predicate IsSmallNumber(op: int) { op == 0x4f || 0x51 <= op <= OP_16 }

  predicate IsNop(op: int) { op == 0x61 || 0xb0 <= op <= 0xb9 }

  predicate IsDisabled(op: int) {
    || op == 0x7e || op == 0x7f || op == 0x80 || op == 0x81
    || op == 0x83 || op == 0x84 || op == 0x85 || op == 0x86
    || op == 0x8d || op == 0x8e || op == 0x95 || op == 0x96 || op == 0x97 || op == 0x98 || op == 0x99
  }

  /** Instructions that only move stack elements. */
  function ExecMove(op: int, s: seq<Bytes>): Option<seq<Bytes>> {
    var n := |s|;
    if op == 0x6d then if n < 2 then None else Some(Pop(s, 2))                                    // 2DROP
    else if op == 0x6e then if n < 2 then None else Some(s + s[n - 2..])                            // 2DUP
    else if op == 0x6f then if n < 3 then None else Some(s + s[n - 3..])                            // 3DUP
    else if op == 0x70 then if n < 4 then None else Some(s + s[n - 4..n - 2])                       // 2OVER
    else if op == 0x71 then if n < 6 then None else Some(s[..n - 6] + s[n - 4..] + s[n - 6..n - 4]) // 2ROT
    else if op == 0x72 then if n < 4 then None else Some(s[..n - 4] + s[n - 2..] + s[n - 4..n - 2]) // 2SWAP
    else if op == 0x73 then                                                                       // IFDUP
      if n < 1 then None else Some(if CastToBool(Top(s, 1)) then s + [Top(s, 1)] else s)
    else if op == 0x75 then if n < 1 then None else Some(Pop(s, 1))                                // DROP
    else if op == 0x76 then if n < 1 then None else Some(s + [Top(s, 1)])                          // DUP
    else if op == 0x77 then if n < 2 then None else Some(s[..n - 2] + s[n - 1..])                    // NIP
    else if op == 0x78 then if n < 2 then None else Some(s + [Top(s, 2)])                          // OVER
    else if op == 0x79 || op == 0x7a then ExecPick(op == 0x7a, s)                                  // PICK, ROLL
    else if op == 0x7b then if n < 3 then None else Some(s[..n - 3] + s[n - 2..] + [s[n - 3]])       // ROT
    else if op == 0x7c then if n < 2 then None else Some(s[..n - 2] + [s[n - 1]] + [s[n - 2]])       // SWAP
    else if op == 0x7d then if n < 2 then None else Some(s[..n - 2] + [s[n - 1]] + s[n - 2..])       // TUCK
    else None
  }

  function ExecPick(roll: bool, s: seq<Bytes>): Option<seq<Bytes>> {
    if |s| < 2 then None
    else
      var num := CastToNum(Top(s, 1));
      if num.None? then None
      else
        var rest := Pop(s, 1);
        var n := num.value;
        if n < 0 || n >= |rest| then None
        else
          var v := rest[|rest| - n - 1];
          Some((if roll then rest[..|rest| - n - 1] + rest[|rest| - n..] else rest) + [v])
  }

  /** Instructions on one number. */
  function Unary(op: int, n: int): Option<int> {
    if op == 0x8b then Some(n + 1)
    else if op == 0x8c then Some(n - 1)
    else if op == 0x8f then Some(-n)
    else if op == 0x90 then Some(Abs(n))
    else if op == 0x91 then Some(if n == 0 then 1 else 0)
    else if op == 0x92 then Some(if n != 0 then 1 else 0)
    else None
  }

  function BoolNum(b: bool): int { if b then 1 else 0 }

  /** Instructions on two numbers. */
  function Binary(op: int, a: int, b: int): Option<int> {
    if op == 0x93 then Some(a + b)
    else if op == 0x94 then Some(a - b)
    else if op == 0x9a then Some(BoolNum(a != 0 && b != 0))
    else if op == 0x9b then Some(BoolNum(a != 0 || b != 0))
    else if op == 0x9c || op == 0x9d then Some(BoolNum(a == b))
    else if op == 0x9e then Some(BoolNum(a != b))
    else if op == 0x9f then Some(BoolNum(a < b))
    else if op == 0xa0 then Some(BoolNum(a > b))
    else if op == 0xa1 then Some(BoolNum(a <= b))
    else if op == 0xa2 then Some(BoolNum(a >= b))
    else if op == 0xa3 then Some(if a < b then a else b)
    else if op == 0xa4 then Some(if a > b then a else b)
    else None
  }

  /** A verifying instruction drops a true result and fails on a false one. */
  function Verified(verify: bool, s: seq<Bytes>, result: bool): Option<seq<Bytes>> {
    if !verify then Some(s + [BoolBytes(result)]) else if result then Some(s) else None
  }

  /** Instructions that compute. */
  function ExecCompute(op: int, s: seq<Bytes>): Option<seq<Bytes>> {
    if op == 0x74 then Some(s + [EncodeNum(|s|)])                                                  // DEPTH
    else if op == 0x82 then if |s| < 1 then None else Some(s + [EncodeNum(|Top(s, 1)|)])           // SIZE
    else if op == 0x87 || op == 0x88 then                                                          // EQUAL
      if |s| < 2 then None else Verified(op == 0x88, Pop(s, 2), Top(s, 2) == Top(s, 1))
    else if Unary(op, 0).Some? then
      if |s| < 1 then None
      else
        var a := CastToNum(Top(s, 1));
        if a.None? then None else Some(Pop(s, 1) + [EncodeNum(Unary(op, a.value).value)])
    else if Binary(op, 0, 0).Some? then
      if |s| < 2 then None
      else
        var a, b := CastToNum(Top(s, 2)), CastToNum(Top(s, 1));
        if a.None? || b.None? then None
        else
          var c := Binary(op, a.value, b.value).value;
          if op == 0x9d then if c != 0 then Some(Pop(s, 2)) else None                              // NUMEQUALVERIFY
          else Some(Pop(s, 2) + [EncodeNum(c)])
    else if op == 0xa5 then                                                                        // WITHIN
      if |s| < 3 then None
      else
        var x, lo, hi := CastToNum(Top(s, 3)), CastToNum(Top(s, 2)), CastToNum(Top(s, 1));
        if x.None? || lo.None? || hi.None? then None
        else Some(Pop(s, 3) + [BoolBytes(lo.value <= x.value < hi.value)])
    else None
  }

  function ExecCheckSig(env: Env, verify: bool, d: Data): Option<Data>
    requires d.codeStart <= |env.script|
  {
    var s := d.stack;
    if |s| < 2 then None
    else
      var sig, key := Top(s, 2), Top(s, 1);
      var r := Verified(verify, Pop(s, 2), env.SigOk(sig, key, Deleted(env.script[d.codeStart..], Push(sig))));
      if r.None? then None else Some(d.(stack := r.value))
  }

  /** The operands of a multisignature check. */
  datatype Multisig = Multisig(sigs: seq<Bytes>, keys: seq<Bytes>, used: nat)

  function ReadMultisig(d: Data): (r: Option<Multisig>)
    ensures r.Some? ==> r.value.used <= |d.stack| && |r.value.sigs| <= |r.value.keys| <= 20 && d.nOpCount + |r.value.keys| <= 201
  {
    var s := d.stack;
    if |s| < 1 then None
    else
      var n := CastToNum(Top(s, 1));
      if n.None? || n.value < 0 || n.value > MAX_KEYS || d.nOpCount + n.value > MAX_OPS then None
      else
        var nKeys: nat := n.value;
        if |s| < 2 + nKeys then None
        else
          var m := CastToNum(Top(s, 2 + nKeys));
          if m.None? || m.value < 0 || m.value > nKeys then None
          else
            var nSigs: nat := m.value;
            var i := 3 + nKeys + nSigs;
            if |s| < i then None
            else Some(Multisig(FromTop(s, 3 + nKeys, nSigs), FromTop(s, 2, nKeys), i))
  }

  ghost function ExecMultisig(env: Env, verify: bool, d: Data): Option<Data>
    requires d.codeStart <= |env.script|
  {
    var q := ReadMultisig(d);
    if q.None? then None
    else
      var code := DeleteSigs(env.script[d.codeStart..], q.value.sigs);
      var r := Verified(verify, Pop(d.stack, q.value.used),
                        Assignable((sig, key) => env.SigOk(sig, key, code), q.value.sigs, q.value.keys));
      if r.None? then None else Some(d.(stack := r.value, nOpCount := d.nOpCount + |q.value.keys|))
  }

  /** What an instruction does when it is executed; None when it makes the script fail. */
  ghost function ExecOp(env: Env, i: Instr, d: Data): (r: Option<Data>)
    requires d.codeStart <= |env.script| && i.next <= |env.script|
    ensures r.Some? ==> r.value.codeStart <= |env.script|
  {
    var op, s := i.opcode, d.stack;
    if op <= OP_PUSHDATA4 then Some(d.(stack := s + [i.data]))
    else if IsSmallNumber(op) then Some(d.(stack := s + [EncodeNum(op - 0x50)]))
    else if IsNop(op) then Some(d)
    else if op == 0x69 then if |s| >= 1 && CastToBool(Top(s, 1)) then Some(d.(stack := Pop(s, 1))) else None          // VERIFY
    else if op == 0x6b then if |s| < 1 then None else Some(d.(stack := Pop(s, 1), alt := d.alt + [Top(s, 1)]))        // TOALTSTACK
    else if op == 0x6c then if |d.alt| < 1 then None else Some(d.(stack := s + [Top(d.alt, 1)], alt := Pop(d.alt, 1))) // FROMALTSTACK
    else if 0xa6 <= op <= 0xaa then if |s| < 1 then None else Some(d.(stack := Pop(s, 1) + [env.hash(op, Top(s, 1))]))
    else if op == 0xab then Some(d.(codeStart := i.next))                                                            // CODESEPARATOR
    else if op == 0xac || op == 0xad then ExecCheckSig(env, op == 0xad, d)
    else if op == 0xae || op == 0xaf then ExecMultisig(env, op == 0xaf, d)
    else
      var moved := ExecMove(op, s);
      if moved.Some? then Some(d.(stack := moved.value))
      else
        var computed := ExecCompute(op, s);
        if computed.Some? then Some(d.(stack := computed.value)) else None
  }

  // ---- The flat machine ----

  predicate AllTrue(v: seq<bool>) { forall i :: 0 <= i < |v| ==> v[i] }

  /** What is checked of every instruction, executed or not. */
  function Precheck(i: Instr, d: Data): Option<Data> {
    if |i.data| > MAX_SCRIPT_ELEMENT_SIZE then None
    else if i.opcode > OP_16 && d.nOpCount + 1 > MAX_OPS then None
    else if IsDisabled(i.opcode) then None
    else Some(if i.opcode > OP_16 then d.(nOpCount := d.nOpCount + 1) else d)
  }

  predicate SizesOk(d: Data) { |d.stack| + |d.alt| <= MAX_STACK }

  /** What an instruction does between the checks before and after it. */
  ghost function Act(env: Env, i: Instr, m: Machine): (r: Option<Machine>)
    requires m.d.codeStart <= |env.script| && i.next <= |env.script|
    ensures r.Some? ==> r.value.d.codeStart <= |env.script|
  {
    var exec := AllTrue(m.vfExec);
    if i.opcode == OP_IF || i.opcode == OP_NOTIF then
      if !exec then Some(m.(vfExec := m.vfExec + [false]))
      else if m.d.stack == [] then None
      else
        var value := CastToBool(Top(m.d.stack, 1));
        Some(Machine(m.d.(stack := Pop(m.d.stack, 1)), m.vfExec + [if i.opcode == OP_NOTIF then !value else value]))
    else if i.opcode == OP_ELSE then
      if m.vfExec == [] then None
      else Some(m.(vfExec := m.vfExec[|m.vfExec| - 1 := !m.vfExec[|m.vfExec| - 1]]))
    else if i.opcode == OP_ENDIF then
      if m.vfExec == [] then None else Some(m.(vfExec := m.vfExec[..|m.vfExec| - 1]))
    else if i.opcode == OP_VERIF || i.opcode == OP_VERNOTIF then None
    else if exec then
      var r := ExecOp(env, i, m.d);
      if r.None? then None else Some(m.(d := r.value))
    else Some(m)
  }

  ghost function FlatStep(env: Env, i: Instr, m: Machine): (r: Option<Machine>)
    requires m.d.codeStart <= |env.script| && i.next <= |env.script|
    ensures r.Some? ==> r.value.d.codeStart <= |env.script|
  {
    var d := Precheck(i, m.d);
    if d.None? then None
    else
      var r := Act(env, i, m.(d := d.value));
      if r.None? || !SizesOk(r.value.d) then None else r
  }

  ghost predicate InScript(env: Env, ops: seq<Instr>) {
    forall k :: 0 <= k < |ops| ==> ops[k].next <= |env.script|
  }

  /** Runs a list of instructions. */
  ghost function Flat(env: Env, ops: seq<Instr>, m: Machine): (r: Option<Machine>)
    requires m.d.codeStart <= |env.script| && InScript(env, ops)
    ensures r.Some? ==> r.value.d.codeStart <= |env.script|
  {
    if ops == [] then Some(m)
    else
      var r := FlatStep(env, ops[0], m);
      if r.None? then None else Flat(env, ops[1..], r.value)
  }

  lemma {:induction false} FlatJoin(env: Env, a: seq<Instr>, b: seq<Instr>, m: Machine)
    requires m.d.codeStart <= |env.script| && InScript(env, a) && InScript(env, b)
    ensures InScript(env, a + b)
    ensures Flat(env, a + b, m) == (var r := Flat(env, a, m); if r.None? then None else Flat(env, b, r.value))
    decreases |a|
  {
    hide FlatStep;
    if a == [] {
      assert a + b == b;
    } else {
      assert (a + b)[1..] == a[1..] + b;
      var r := FlatStep(env, a[0], m);
      if r.Some? { FlatJoin(env, a[1..], b, r.value); }
    }
  }

  // ---- Reading and running a script ----

  /** The instructions of a script from position `pc`, and whether all of it can be read. */
  function ReadAll(script: Bytes, pc: nat): (r: (seq<Instr>, bool))
    requires pc <= |script|
    ensures forall k :: 0 <= k < |r.0| ==> r.0[k].next <= |script|
    decreases |script| - pc
  {
    if pc == |script| then ([], true)
    else
      var op := ReadAt(script, pc);
      if op.Bad? then ([], false)
      else
        var rest := ReadAll(script, pc + op.size);
        ([Instr(op.opcode, op.data, pc + op.size)] + rest.0, rest.1)
  }

  function Start(stack: seq<Bytes>): Machine { Machine(Data(stack, [], 0, 0), []) }

  /** The verdict on a script: the final stack, or None where the program returns false. */
  ghost function Verdict(env: Env, stack: seq<Bytes>): Option<seq<Bytes>> {
    var (ops, readable) := ReadAll(env.script, 0);
    if |env.script| > MAX_SCRIPT_SIZE || !readable then None
    else
      var r := Flat(env, ops, Start(stack));
      if r.None? || r.value.vfExec != [] then None else Some(r.value.d.stack)
  }

  // ---- Limits ----

  ghost predicate Small(s: seq<Bytes>) { forall i :: 0 <= i < |s| ==> |s[i]| <= MAX_SCRIPT_ELEMENT_SIZE }

  /** The limits that hold at every loop head. */
  ghost predicate WithinLimits(d: Data) {
    && SizesOk(d) && Small(d.stack) && Small(d.alt) && 0 <= d.nOpCount <= MAX_OPS
  }

  lemma SmallParts(s: seq<Bytes>, i: nat, j: nat)
    requires Small(s) && i <= j <= |s|
    ensures Small(s[..i]) && Small(s[j..]) && Small(s[i..j])
  {
  }

  lemma SmallJoin(a: seq<Bytes>, b: seq<Bytes>)
    requires Small(a) && Small(b)
    ensures Small(a + b)
  {
  }

  lemma SmallOne(s: seq<Bytes>, i: nat)
    requires Small(s) && i < |s|
    ensures Small([s[i]])
  {
  }

  lemma MoveSmall(op: int, s: seq<Bytes>)
    requires Small(s) && ExecMove(op, s).Some?
    ensures Small(ExecMove(op, s).value)
  {
    hide CastToBool, CastToNum, ExecPick, Small;
    var n := |s|;
    if op == 0x79 || op == 0x7a {
      PickSmall(op == 0x7a, s);
    } else if op <= 0x6d {
      SmallParts(s, n - 2, n);
    } else if op <= 0x6f {
      var k := if op == 0x6e then 2 else 3;
      SmallParts(s, n - k, n - k);
      SmallJoin(s, s[n - k..]);
    } else if op == 0x70 {
      SmallParts(s, n - 4, n - 2);
      SmallJoin(s, s[n - 4..n - 2]);
    } else if op <= 0x72 {
      var k := if op == 0x71 then 6 else 4;
      var m := if op == 0x71 then 4 else 2;
      SmallParts(s, n - k, n - m);
      SmallJoin(s[..n - k], s[n - m..]);
      SmallJoin(s[..n - k] + s[n - m..], s[n - k..n - m]);
    } else if op <= 0x76 {
      SmallParts(s, n - 1, n - 1);
      SmallOne(s, n - 1);
      SmallJoin(s, [s[n - 1]]);
    } else if op == 0x78 {
      SmallOne(s, n - 2);
      SmallJoin(s, [s[n - 2]]);
    } else if op == 0x7b {
      SmallParts(s, n - 3, n - 2);
      SmallOne(s, n - 3);
      SmallJoin(s[..n - 3], s[n - 2..]);
      SmallJoin(s[..n - 3] + s[n - 2..], [s[n - 3]]);
    } else {
      SmallParts(s, n - 2, n - 1);
      SmallParts(s, n - 2, n - 2);
      SmallOne(s, n - 1);
      SmallOne(s, n - 2);
      SmallJoin(s[..n - 2], s[n - 1..]);
      SmallJoin(s[..n - 2], [s[n - 1]]);
      SmallJoin(s[..n - 2] + [s[n - 1]], [s[n - 2]]);
      SmallJoin(s[..n - 2] + [s[n - 1]], s[n - 2..]);
    }
  }

  lemma PickSmall(roll: bool, s: seq<Bytes>)
    requires Small(s) && ExecPick(roll, s).Some?
    ensures Small(ExecPick(roll, s).value)
  {
    hide CastToNum;
  }

  lemma FiveBytes(n: int)
    requires Abs(n) < 0x1_0000_0001
    ensures |EncodeNum(n)| <= 5
  {
    hide EncodeNum;
    assert Pow256(0) == 1 && Pow256(1) == 256 && Pow256(2) == 0x1_0000 && Pow256(3) == 0x100_0000 && Pow256(4) == 0x1_0000_0000;
    EncodeNumLength(n, 5);
  }

  lemma ComputeSmall(op: int, s: seq<Bytes>)
    requires Small(s) && |s| <= MAX_STACK && ExecCompute(op, s).Some?
    ensures Small(ExecCompute(op, s).value)
  {
    hide CastToNum, EncodeNum;
    forall n | Abs(n) < 0x1_0000_0001 ensures |EncodeNum(n)| <= 5 { FiveBytes(n); }
    forall v: Bytes | CastToNum(v).Some? ensures -0x8000_0000 < CastToNum(v).value < 0x8000_0000 { CastRange(v); }
  }

  lemma OpWithinLimits(env: Env, i: Instr, d: Data)
    requires env.Valid() && d.codeStart <= |env.script| && i.next <= |env.script| && 0 <= i.opcode
    requires WithinLimits(d) && |i.data| <= MAX_SCRIPT_ELEMENT_SIZE && ExecOp(env, i, d).Some?
    ensures var r := ExecOp(env, i, d).value; Small(r.stack) && Small(r.alt) && 0 <= r.nOpCount <= MAX_OPS
  {
    hide ExecMove, ExecCompute, EncodeNum, CastToBool;
    var op, s := i.opcode, d.stack;
    if IsSmallNumber(op) { FiveBytes(op - 0x50); }
    if ExecMove(op, s).Some? { MoveSmall(op, s); }
    if ExecCompute(op, s).Some? { ComputeSmall(op, s); }
  }

  lemma StepWithinLimits(env: Env, i: Instr, m: Machine)
    requires env.Valid() && m.d.codeStart <= |env.script| && i.next <= |env.script| && 0 <= i.opcode
    requires WithinLimits(m.d) && FlatStep(env, i, m).Some?
    ensures WithinLimits(FlatStep(env, i, m).value.d)
  {
    hide ExecOp, CastToBool;
    var d := Precheck(i, m.d).value;
    if ExecOp(env, i, d).Some? { OpWithinLimits(env, i, d); }
  }

  /** The limits hold at every loop head of every run that has not failed. */
  lemma {:induction false} RunWithinLimits(env: Env, ops: seq<Instr>, m: Machine)
    requires env.Valid() && m.d.codeStart <= |env.script| && InScript(env, ops) && WithinLimits(m.d)
    requires forall k :: 0 <= k < |ops| ==> 0 <= ops[k].opcode
    requires Flat(env, ops, m).Some?
    ensures forall k :: 0 <= k <= |ops| ==>
      InScript(env, ops[..k]) && Flat(env, ops[..k], m).Some? && WithinLimits(Flat(env, ops[..k], m).value.d)
    decreases |ops|
  {
    hide FlatStep, WithinLimits;
    forall k | 0 <= k <= |ops|
      ensures InScript(env, ops[..k]) && Flat(env, ops[..k], m).Some? && WithinLimits(Flat(env, ops[..k], m).value.d)
    {
      if k > 0 {
        assert ops[..k][1..] == ops[1..][..k - 1];
        StepWithinLimits(env, ops[0], m);
        var next := FlatStep(env, ops[0], m).value;
        RunWithinLimits(env, ops[1..], next);
        assert InScript(env, ops[1..][..k - 1]);
      }
    }
  }
}
