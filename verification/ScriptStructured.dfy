/**
 Conditionals as nested structure.

 The program runs conditionals with a vector of flags over a flat list of instructions.
 Here a list is parsed into nested blocks, and a recursive evaluator runs the blocks.
 The two agree on every script, balanced or not.
 */
module ScriptStructured {
  import opened Wrappers
  import opened ScriptCode
  import opened ScriptNum
  import opened ScriptMachine

  /** A block is a list of plain instructions and conditionals.  A conditional may have any number of ELSE
      branches; each one inverts the condition. */
  datatype Block =
    | Done
    | Plain(instr: Instr, next: Block)
    | Cond(opening: Instr, first: Block, more: Branches, next: Block)

  datatype Branches = Close(endif: Instr) | Else(instr: Instr, body: Block, more: Branches)

  function Flatten(b: Block): seq<Instr> {
    match b
    case Done => []
    case Plain(i, next) => [i] + Flatten(next)
    case Cond(opening, first, more, next) => [opening] + Flatten(first) + FlattenBranches(more) + Flatten(next)
  }

  function FlattenBranches(br: Branches): seq<Instr> {
    match br
    case Close(i) => [i]
    case Else(i, body, more) => [i] + Flatten(body) + FlattenBranches(more)
  }

  predicate IsOpening(i: Instr) { i.opcode == OP_IF || i.opcode == OP_NOTIF }

  predicate IsControl(i: Instr) { IsOpening(i) || i.opcode == OP_ELSE || i.opcode == OP_ENDIF }

  /** Control instructions stand where the structure says. */
  predicate WellFormed(b: Block) {
    match b
    case Done => true
    case Plain(i, next) => !IsControl(i) && WellFormed(next)
    case Cond(opening, first, more, next) => IsOpening(opening) && WellFormed(first) && WellFormedBranches(more) && WellFormed(next)
  }

  predicate WellFormedBranches(br: Branches) {
    match br
    case Close(i) => i.opcode == OP_ENDIF
    case Else(i, body, more) => i.opcode == OP_ELSE && WellFormed(body) && WellFormedBranches(more)
  }

  // ---- The recursive evaluator ----

  /** A control instruction only goes through the checks that every instruction goes through. */
  function Checked(i: Instr, d: Data): Option<Data> {
    var p := Precheck(i, d);
    if p.None? || !SizesOk(p.value) then None else p
  }

  /** Runs a block; when `exec` is false its instructions are only checked. */
  ghost function Eval(env: Env, b: Block, exec: bool, d: Data): (r: Option<Data>)
    requires d.codeStart <= |env.script| && InScript(env, Flatten(b))
    ensures r.Some? ==> r.value.codeStart <= |env.script|
    decreases b
  {
    match b
    case Done => Some(d)
    case Plain(i, next) =>
      PlainInScript(env, i, next);
      var p := EvalPlain(env, i, exec, d);
      if p.None? then None else Eval(env, next, exec, p.value)
    case Cond(opening, first, more, next) =>
      CondInScript(env, opening, first, more, next);
      var c := EvalCondition(opening, exec, d);
      if c.None? then None
      else
        var (value, d1) := c.value;
        var r1 := Eval(env, first, exec && value, d1);
        if r1.None? then None
        else
          var r2 := EvalBranches(env, more, exec, value, r1.value);
          if r2.None? then None else Eval(env, next, exec, r2.value)
  }

  /** The remaining branches of a conditional whose last branch had the given condition. */
  ghost function EvalBranches(env: Env, br: Branches, exec: bool, value: bool, d: Data): (r: Option<Data>)
    requires d.codeStart <= |env.script| && InScript(env, FlattenBranches(br))
    ensures r.Some? ==> r.value.codeStart <= |env.script|
    decreases br
  {
    match br
    case Close(i) => Checked(i, d)
    case Else(i, body, more) =>
      ElseInScript(env, i, body, more);
      var c := Checked(i, d);
      if c.None? then None
      else
        var r := Eval(env, body, exec && !value, c.value);
        if r.None? then None else EvalBranches(env, more, exec, !value, r.value)
  }

  ghost function EvalPlain(env: Env, i: Instr, exec: bool, d: Data): (r: Option<Data>)
    requires d.codeStart <= |env.script| && i.next <= |env.script|
    ensures r.Some? ==> r.value.codeStart <= |env.script|
  {
    var p := Precheck(i, d);
    if p.None? || i.opcode == OP_VERIF || i.opcode == OP_VERNOTIF then None
    else
      var r := if exec then ExecOp(env, i, p.value) else p;
      if r.None? || !SizesOk(r.value) then None else r
  }

  /** Takes the condition off the stack; a conditional that is skipped takes nothing. */
  function EvalCondition(opening: Instr, exec: bool, d: Data): (r: Option<(bool, Data)>)
    ensures r.Some? ==> r.value.1.codeStart == d.codeStart
  {
    var p := Precheck(opening, d);
    if p.None? then None
    else if !exec then if SizesOk(p.value) then Some((false, p.value)) else None
    else if p.value.stack == [] then None
    else
      var value := CastToBool(Top(p.value.stack, 1));
      var d1 := p.value.(stack := Pop(p.value.stack, 1));
      if SizesOk(d1) then Some((if opening.opcode == OP_NOTIF then !value else value, d1)) else None
  }

  lemma PlainInScript(env: Env, i: Instr, next: Block)
    requires InScript(env, Flatten(Plain(i, next)))
    ensures i.next <= |env.script| && InScript(env, Flatten(next))
  {
    PartInScript(env, [i] + Flatten(next), [i], Flatten(next));
    assert [i][0].next <= |env.script|;
  }

  lemma CondInScript(env: Env, opening: Instr, first: Block, more: Branches, next: Block)
    requires InScript(env, Flatten(Cond(opening, first, more, next)))
    ensures opening.next <= |env.script| && InScript(env, Flatten(first)) && InScript(env, FlattenBranches(more)) && InScript(env, Flatten(next))
  {
    var a, b, c := Flatten(first), FlattenBranches(more), Flatten(next);
    var all := [opening] + a + b + c;
    PartInScript(env, all, [opening], a + b + c);
    PartInScript(env, all, [opening] + a, b + c);
    PartInScript(env, [opening] + a, [opening], a);
    assert [opening][0].next <= |env.script|;
    PartInScript(env, b + c, b, c);
    assert all == [opening] + (a + b + c) == ([opening] + a) + (b + c);
  }

  lemma ElseInScript(env: Env, i: Instr, body: Block, more: Branches)
    requires InScript(env, FlattenBranches(Else(i, body, more)))
    ensures i.next <= |env.script| && InScript(env, Flatten(body)) && InScript(env, FlattenBranches(more))
  {
    var a, b := Flatten(body), FlattenBranches(more);
    PartInScript(env, [i] + a + b, [i] + a, b);
    PartInScript(env, [i] + a, [i], a);
    assert [i][0].next <= |env.script|;
  }

  lemma PartInScript(env: Env, all: seq<Instr>, a: seq<Instr>, b: seq<Instr>)
    requires all == a + b
    ensures InScript(env, all) <==> InScript(env, a) && InScript(env, b)
  {
    if InScript(env, all) {
      forall k | 0 <= k < |a| ensures a[k].next <= |env.script| { assert all[k] == a[k]; }
      forall k | 0 <= k < |b| ensures b[k].next <= |env.script| { assert all[|a| + k] == b[k]; }
    }
    if InScript(env, a) && InScript(env, b) {
      forall k | 0 <= k < |all| ensures all[k].next <= |env.script| {
        if k < |a| { assert all[k] == a[k]; } else { assert all[k] == b[k - |a|]; }
      }
    }
  }

  // ---- The flat machine on a parsed list ----

  ghost function Lift(r: Option<Data>, vfExec: seq<bool>): Option<Machine> {
    if r.None? then None else Some(Machine(r.value, vfExec))
  }

  lemma FlatOne(env: Env, i: Instr, m: Machine)
    requires m.d.codeStart <= |env.script| && i.next <= |env.script|
    ensures InScript(env, [i]) && Flat(env, [i], m) == FlatStep(env, i, m)
  {
    hide FlatStep;
    var r := FlatStep(env, i, m);
    assert [i][1..] == [];
    if r.Some? { assert Flat(env, [], r.value) == Some(r.value); }
  }

  lemma AllTruePush(v: seq<bool>, b: bool)
    ensures AllTrue(v + [b]) <==> AllTrue(v) && b
  {
    if AllTrue(v + [b]) {
      assert (v + [b])[|v|] == b;
      forall i | 0 <= i < |v| ensures v[i] { assert (v + [b])[i] == v[i]; }
    }
  }

  /** The flat machine runs the instructions of a block exactly as the recursive evaluator runs the block, and leaves
      the flags of the enclosing conditionals as they were. */
  lemma {:induction false} FlatIsEval(env: Env, b: Block, d: Data, vf: seq<bool>)
    requires d.codeStart <= |env.script| && WellFormed(b) && InScript(env, Flatten(b))
    ensures Flat(env, Flatten(b), Machine(d, vf)) == Lift(Eval(env, b, AllTrue(vf), d), vf)
    decreases b, 1
  {
    hide ExecOp, Precheck, CastToBool, AllTrue, FlatStep, Act;
    match b
    case Done =>
    case Plain(i, next) =>
      PlainInScript(env, i, next);
      PlainStep(env, i, d, vf);
      FlatJoin(env, [i], Flatten(next), Machine(d, vf));
      FlatOne(env, i, Machine(d, vf));
      var p := EvalPlain(env, i, AllTrue(vf), d);
      if p.Some? { FlatIsEval(env, next, p.value, vf); }
    case Cond(opening, first, more, next) =>
      CondInScript(env, opening, first, more, next);
      FlatIsCond(env, opening, first, more, next, d, vf);
  }

  lemma {:induction false} FlatIsCond(env: Env, opening: Instr, first: Block, more: Branches, next: Block, d: Data, vf: seq<bool>)
    requires d.codeStart <= |env.script| && WellFormed(Cond(opening, first, more, next))
    requires InScript(env, Flatten(Cond(opening, first, more, next)))
    ensures Flat(env, Flatten(Cond(opening, first, more, next)), Machine(d, vf)) ==
            Lift(Eval(env, Cond(opening, first, more, next), AllTrue(vf), d), vf)
    decreases Cond(opening, first, more, next), 0
  {
    hide ExecOp, Precheck, CastToBool, AllTrue, FlatStep, Act, EvalCondition;
    CondInScript(env, opening, first, more, next);
    var a, br, c := Flatten(first), FlattenBranches(more), Flatten(next);
    var m := Machine(d, vf);
    assert Flatten(Cond(opening, first, more, next)) == [opening] + (a + (br + c));
    PartInScript(env, br + c, br, c);
    PartInScript(env, a + (br + c), a, br + c);
    FlatOne(env, opening, m);
    FlatJoin(env, [opening], a + (br + c), m);
    OpeningStep(env, opening, d, vf);
    var cond := EvalCondition(opening, AllTrue(vf), d);
    if cond.Some? {
      var (value, d1) := cond.value;
      AllTruePush(vf, value);
      FlatJoin(env, a, br + c, Machine(d1, vf + [value]));
      FlatIsEval(env, first, d1, vf + [value]);
      var r1 := Eval(env, first, AllTrue(vf) && value, d1);
      if r1.Some? {
        FlatJoin(env, br, c, Machine(r1.value, vf + [value]));
        FlatIsBranches(env, more, r1.value, vf, value);
        var r2 := EvalBranches(env, more, AllTrue(vf), value, r1.value);
        if r2.Some? { FlatIsEval(env, next, r2.value, vf); }
      }
    }
  }

  lemma {:induction false} FlatIsBranches(env: Env, br: Branches, d: Data, vf: seq<bool>, value: bool)
    requires d.codeStart <= |env.script| && WellFormedBranches(br) && InScript(env, FlattenBranches(br))
    ensures Flat(env, FlattenBranches(br), Machine(d, vf + [value])) == Lift(EvalBranches(env, br, AllTrue(vf), value, d), vf)
    decreases br
  {
    hide ExecOp, Precheck, CastToBool, AllTrue, FlatStep, Act;
    var m := Machine(d, vf + [value]);
    match br
    case Close(i) =>
      assert InScript(env, [i]) ==> [i][0].next <= |env.script|;
      FlatOne(env, i, m);
      CloseStep(env, i, d, vf, value);
    case Else(i, body, more) =>
      ElseInScript(env, i, body, more);
      var a, rest := Flatten(body), FlattenBranches(more);
      assert FlattenBranches(br) == [i] + (a + rest);
      PartInScript(env, a + rest, a, rest);
      FlatOne(env, i, m);
      FlatJoin(env, [i], a + rest, m);
      ElseStep(env, i, d, vf, value);
      var c := Checked(i, d);
      if c.Some? {
        AllTruePush(vf, !value);
        CheckedCode(i, d);
        FlatJoin(env, a, rest, Machine(c.value, vf + [!value]));
        FlatIsEval(env, body, c.value, vf + [!value]);
        var r := Eval(env, body, AllTrue(vf) && !value, c.value);
        if r.Some? { FlatIsBranches(env, more, r.value, vf, !value); }
      }
  }

  lemma CheckedCode(i: Instr, d: Data)
    ensures Checked(i, d).Some? ==> Checked(i, d).value.codeStart == d.codeStart
  {
  }

  lemma PlainStep(env: Env, i: Instr, d: Data, vf: seq<bool>)
    requires d.codeStart <= |env.script| && i.next <= |env.script| && !IsControl(i)
    ensures FlatStep(env, i, Machine(d, vf)) == Lift(EvalPlain(env, i, AllTrue(vf), d), vf)
  {
    hide ExecOp, AllTrue;
  }

  lemma OpeningStep(env: Env, i: Instr, d: Data, vf: seq<bool>)
    requires d.codeStart <= |env.script| && i.next <= |env.script| && IsOpening(i)
    ensures FlatStep(env, i, Machine(d, vf)) ==
      var c := EvalCondition(i, AllTrue(vf), d);
      if c.None? then None else Some(Machine(c.value.1, vf + [c.value.0]))
  {
    hide ExecOp, AllTrue, CastToBool;
  }

  lemma CloseStep(env: Env, i: Instr, d: Data, vf: seq<bool>, value: bool)
    requires d.codeStart <= |env.script| && i.next <= |env.script| && i.opcode == OP_ENDIF
    ensures FlatStep(env, i, Machine(d, vf + [value])) == Lift(Checked(i, d), vf)
  {
    hide ExecOp, AllTrue;
    assert (vf + [value])[..|vf|] == vf;
  }

  lemma ElseStep(env: Env, i: Instr, d: Data, vf: seq<bool>, value: bool)
    requires d.codeStart <= |env.script| && i.next <= |env.script| && i.opcode == OP_ELSE
    ensures FlatStep(env, i, Machine(d, vf + [value])) == Lift(Checked(i, d), vf + [!value])
  {
    hide ExecOp, AllTrue;
    assert (vf + [value])[|vf| := !value] == vf + [!value];
  }

  // ---- Parsing any list ----

  /** A parsed block and what follows it: nothing, or an ELSE or ENDIF of an enclosing conditional. */
  datatype Parse<T> = Unclosed | Parsed(tree: T, rest: seq<Instr>)

  function ParseBlock(ops: seq<Instr>): (r: Parse<Block>)
    ensures r.Parsed? ==> |r.rest| <= |ops|
    ensures r.Parsed? && r.rest != [] ==> r.rest[0].opcode == OP_ELSE || r.rest[0].opcode == OP_ENDIF
    decreases |ops|, 1
  {
    if ops == [] || ops[0].opcode == OP_ELSE || ops[0].opcode == OP_ENDIF then Parsed(Done, ops)
    else if IsOpening(ops[0]) then
      var first := ParseBlock(ops[1..]);
      if first.Unclosed? then Unclosed
      else
        var more := ParseBranches(first.rest);
        if more.Unclosed? then Unclosed
        else
          var next := ParseBlock(more.rest);
          if next.Unclosed? then Unclosed else Parsed(Cond(ops[0], first.tree, more.tree, next.tree), next.rest)
    else
      var next := ParseBlock(ops[1..]);
      if next.Unclosed? then Unclosed else Parsed(Plain(ops[0], next.tree), next.rest)
  }

  function ParseBranches(ops: seq<Instr>): (r: Parse<Branches>)
    requires ops != [] ==> ops[0].opcode == OP_ELSE || ops[0].opcode == OP_ENDIF
    ensures r.Parsed? ==> |r.rest| < |ops|
    decreases |ops|, 0
  {
    if ops == [] then Unclosed
    else if ops[0].opcode == OP_ENDIF then Parsed(Close(ops[0]), ops[1..])
    else
      var body := ParseBlock(ops[1..]);
      if body.Unclosed? then Unclosed
      else
        var more := ParseBranches(body.rest);
        if more.Unclosed? then Unclosed else Parsed(Else(ops[0], body.tree, more.tree), more.rest)
  }

  /** Parsing loses nothing: the tree, flattened, and the rest are the list. */
  lemma {:induction false} ParseBlockSound(ops: seq<Instr>)
    ensures var r := ParseBlock(ops); r.Parsed? ==> WellFormed(r.tree) && Flatten(r.tree) + r.rest == ops
    decreases |ops|, 1
  {
    hide Flatten, FlattenBranches, WellFormed, WellFormedBranches, ParseBranches;
    if ops == [] || ops[0].opcode == OP_ELSE || ops[0].opcode == OP_ENDIF {
      FlattenDone(ops);
    } else {
      assert ops == [ops[0]] + ops[1..];
      ParseBlockSound(ops[1..]);
      var first := ParseBlock(ops[1..]);
      if first.Parsed? {
        if IsOpening(ops[0]) {
          ParseBranchesSound(first.rest);
          var more := ParseBranches(first.rest);
          if more.Parsed? {
            ParseBlockSound(more.rest);
            var next := ParseBlock(more.rest);
            if next.Parsed? {
              FlattenCond(ops[0], first.tree, more.tree, next.tree, first.rest, more.rest, next.rest);
            }
          }
        } else {
          FlattenPlain(ops[0], first.tree, first.rest);
        }
      }
    }
  }

  lemma FlattenDone(ops: seq<Instr>)
    ensures WellFormed(Done) && Flatten(Done) + ops == ops
  {
  }

  lemma FlattenPlain(i: Instr, next: Block, r: seq<Instr>)
    requires WellFormed(next) && i.opcode != OP_ELSE && i.opcode != OP_ENDIF && !IsOpening(i)
    ensures WellFormed(Plain(i, next)) && Flatten(Plain(i, next)) + r == [i] + (Flatten(next) + r)
  {
    assert ([i] + Flatten(next)) + r == [i] + (Flatten(next) + r);
  }

  lemma FlattenCond(opening: Instr, first: Block, more: Branches, next: Block, r1: seq<Instr>, r2: seq<Instr>, r3: seq<Instr>)
    requires FlattenBranches(more) + r2 == r1 && Flatten(next) + r3 == r2
    requires IsOpening(opening) && WellFormed(first) && WellFormedBranches(more) && WellFormed(next)
    ensures WellFormed(Cond(opening, first, more, next))
    ensures Flatten(Cond(opening, first, more, next)) + r3 == [opening] + (Flatten(first) + r1)
  {
    hide FlattenBranches;
    var a, b, c := Flatten(first), FlattenBranches(more), Flatten(next);
    assert [opening] + a + b + c + r3 == [opening] + (a + (b + (c + r3)));
  }

  lemma FlattenElse(opening: Instr, first: Block, more: Branches, r1: seq<Instr>, r2: seq<Instr>)
    requires FlattenBranches(more) + r2 == r1
    ensures FlattenBranches(Else(opening, first, more)) + r2 == [opening] + (Flatten(first) + r1)
  {
    hide Flatten;
    var a, b := Flatten(first), FlattenBranches(more);
    assert [opening] + a + b + r2 == [opening] + (a + (b + r2));
  }

  lemma {:induction false} ParseBranchesSound(ops: seq<Instr>)
    requires ops != [] ==> ops[0].opcode == OP_ELSE || ops[0].opcode == OP_ENDIF
    ensures var r := ParseBranches(ops); r.Parsed? ==> WellFormedBranches(r.tree) && FlattenBranches(r.tree) + r.rest == ops
    decreases |ops|, 0
  {
    if ops != [] {
      assert ops == [ops[0]] + ops[1..];
      if ops[0].opcode != OP_ENDIF {
        ParseBlockSound(ops[1..]);
        var body := ParseBlock(ops[1..]);
        if body.Parsed? {
          ParseBranchesSound(body.rest);
          var more := ParseBranches(body.rest);
          if more.Parsed? {
            hide ParseBlock, ParseBranches, WellFormed;
            FlattenElse(ops[0], body.tree, more.tree, body.rest, more.rest);
          }
        }
      }
    }
  }

  /** A run that does not fail but leaves more than `n` conditionals open. */
  ghost predicate FailsOrStaysOpen(r: Option<Machine>, n: nat) {
    r.Some? ==> |r.value.vfExec| > n
  }

  /** A list with an unclosed conditional never runs to a state with all conditionals closed. */
  lemma {:induction false} UnclosedBlock(env: Env, ops: seq<Instr>, d: Data, vf: seq<bool>)
    requires d.codeStart <= |env.script| && InScript(env, ops) && ParseBlock(ops).Unclosed?
    ensures FailsOrStaysOpen(Flat(env, ops, Machine(d, vf)), |vf|)
    decreases |ops|, 1
  {
    hide FlatStep, AllTrue, EvalCondition, EvalPlain;
    assert ops[0].next <= |env.script|;
    if IsOpening(ops[0]) {
      OpeningStep(env, ops[0], d, vf);
      var c := EvalCondition(ops[0], AllTrue(vf), d);
      if c.Some? {
        UnclosedInside(env, ops[1..], c.value.1, vf + [c.value.0]);
      }
    } else {
      PlainStep(env, ops[0], d, vf);
      var p := EvalPlain(env, ops[0], AllTrue(vf), d);
      if p.Some? { UnclosedBlock(env, ops[1..], p.value, vf); }
    }
  }

  /** The same from inside the conditional that was just opened. */
  lemma {:induction false} UnclosedInside(env: Env, ops: seq<Instr>, d: Data, vf: seq<bool>)
    requires d.codeStart <= |env.script| && InScript(env, ops) && vf != []
    requires var first := ParseBlock(ops);
      first.Unclosed? || ParseBranches(first.rest).Unclosed? || ParseBlock(ParseBranches(first.rest).rest).Unclosed?
    ensures FailsOrStaysOpen(Flat(env, ops, Machine(d, vf)), |vf| - 1)
    decreases |ops|, 2
  {
    hide FlatStep, AllTrue, Eval;
    var first := ParseBlock(ops);
    if first.Unclosed? {
      UnclosedBlock(env, ops, d, vf);
    } else {
      ParseBlockSound(ops);
      PartInScript(env, ops, Flatten(first.tree), first.rest);
      FlatJoin(env, Flatten(first.tree), first.rest, Machine(d, vf));
      FlatIsEval(env, first.tree, d, vf);
      var r := Eval(env, first.tree, AllTrue(vf), d);
      if r.Some? { UnclosedBranches(env, first.rest, r.value, vf); }
    }
  }

  lemma {:induction false} UnclosedBranches(env: Env, ops: seq<Instr>, d: Data, vf: seq<bool>)
    requires ops != [] ==> ops[0].opcode == OP_ELSE || ops[0].opcode == OP_ENDIF
    requires d.codeStart <= |env.script| && InScript(env, ops) && vf != []
    requires ParseBranches(ops).Unclosed? || ParseBlock(ParseBranches(ops).rest).Unclosed?
    ensures FailsOrStaysOpen(Flat(env, ops, Machine(d, vf)), |vf| - 1)
    decreases |ops|, 0
  {
    hide FlatStep, AllTrue, Eval, EvalBranches, Checked;
    if ops != [] {
      var outer, value := vf[..|vf| - 1], vf[|vf| - 1];
      assert vf == outer + [value];
      assert ops[0].next <= |env.script|;
      if ops[0].opcode == OP_ENDIF {
        CloseStep(env, ops[0], d, outer, value);
        CheckedCode(ops[0], d);
        var c := Checked(ops[0], d);
        if c.Some? { UnclosedBlock(env, ops[1..], c.value, outer); }
      } else {
        ElseStep(env, ops[0], d, outer, value);
        CheckedCode(ops[0], d);
        var c := Checked(ops[0], d);
        if c.Some? { UnclosedBranchBody(env, ops, c.value, outer + [!value]); }
      }
    }
  }

  lemma {:induction false} UnclosedBranchBody(env: Env, ops: seq<Instr>, d: Data, vf: seq<bool>)
    requires ops != [] && ops[0].opcode == OP_ELSE
    requires d.codeStart <= |env.script| && InScript(env, ops) && vf != []
    requires ParseBranches(ops).Unclosed? || ParseBlock(ParseBranches(ops).rest).Unclosed?
    ensures FailsOrStaysOpen(Flat(env, ops[1..], Machine(d, vf)), |vf| - 1)
    decreases |ops| - 1, 3
  {
    UnclosedInside(env, ops[1..], d, vf);
  }

  /** The structured verdict: parse, and run the tree; a script that does not parse fails. */
  ghost function StructuredVerdict(env: Env, stack: seq<Bytes>): Option<seq<Bytes>> {
    var (ops, readable) := ReadAll(env.script, 0);
    if |env.script| > MAX_SCRIPT_SIZE || !readable then None
    else
      var parsed := ParseBlock(ops);
      if parsed.Unclosed? || parsed.rest != [] then None
      else
        ParsedInScript(env, ops);
        var r := Eval(env, parsed.tree, true, Start(stack).d);
        if r.None? then None else Some(r.value.stack)
  }

  lemma ParsedInScript(env: Env, ops: seq<Instr>)
    requires InScript(env, ops) && ParseBlock(ops).Parsed?
    ensures InScript(env, Flatten(ParseBlock(ops).tree)) && InScript(env, ParseBlock(ops).rest)
  {
    ParseBlockSound(ops);
    PartInScript(env, ops, Flatten(ParseBlock(ops).tree), ParseBlock(ops).rest);
  }

  /** An ELSE or ENDIF outside every conditional fails. */
  lemma StrayFails(env: Env, ops: seq<Instr>, d: Data)
    requires d.codeStart <= |env.script| && InScript(env, ops) && ops != []
    requires ops[0].opcode == OP_ELSE || ops[0].opcode == OP_ENDIF
    ensures Flat(env, ops, Machine(d, [])).None?
  {
    assert ops[0].next <= |env.script|;
    hide ExecOp;
    assert FlatStep(env, ops[0], Machine(d, [])).None?;
  }

  /** The main result: on every script and every stack, the flat loop with its flag vector and the recursive evaluator
      over nested blocks give the same verdict and the same final stack. */
  lemma FlatIsStructured(env: Env, stack: seq<Bytes>)
    ensures Verdict(env, stack) == StructuredVerdict(env, stack)
  {
    hide FlatStep, Eval;
    var (ops, readable) := ReadAll(env.script, 0);
    var m := Start(stack);
    assert InScript(env, ops);
    var parsed := ParseBlock(ops);
    if parsed.Unclosed? {
      UnclosedBlock(env, ops, m.d, []);
    } else {
      ParseBlockSound(ops);
      ParsedInScript(env, ops);
      FlatJoin(env, Flatten(parsed.tree), parsed.rest, m);
      FlatIsEval(env, parsed.tree, m.d, []);
      var r := Eval(env, parsed.tree, true, m.d);
      if r.Some? {
        if parsed.rest != [] {
          StrayFails(env, parsed.rest, r.value);
        } else {
          assert Flat(env, parsed.rest, Machine(r.value, [])) == Some(Machine(r.value, []));
        }
      }
    }
  }
}
