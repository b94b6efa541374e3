/** Tables that satisfy the compiled constraints are exactly the runs of the source program. */
module VmTrace {
  import opened Options
  import opened Collections
  import opened Congruence
  import opened Pil
  import opened Asm
  import opened VmCompile
  import opened VmAffine

  // ----- from batches to lines -----

  /** What the compiler makes of a batch whose effective statement is `act`. */
  predicate LineFor(p: Modulus, g: Program, act: Action, line: CodeLine) {
    match act
    case Nothing => line.writes == map[] && line.value == map[] && line.instrs == []
    case Move(r, a, e) =>
      && ProcessValue(p, e).Some?
      && line.writes == map[a := [r]]
      && line.value == map[a := ProcessValue(p, e).value]
      && line.instrs == []
    case Invoke(i, args) =>
      && InvocationOk(g, act)
      && var d := InstrOf(g, act);
      && var ins := HandleInputs(p, d.inputs, args);
      && var outs := HandleOutputs(d.outputs, args[|d.inputs|..]);
      && ins.Some? && outs.Some?
      && line.writes == outs.value
      && line.value == ins.value.value
      && line.instrs == [(i, ins.value.lits)]
  }

  lemma BatchLine(p: Modulus, g: Program, b: Batch)
    requires HandleBatch(p, g, b).Some?
    ensures LineFor(p, g, ActionOf(b), HandleBatch(p, g, b).value)
    ensures InvocationOk(g, ActionOf(b))
  {
  }

  lemma {:induction false} LabelsOfBatch(p: Modulus, g: Program, b: Batch)
    requires HandleBatch(p, g, b).Some?
    ensures forall l :: l in HandleBatch(p, g, b).value.labels <==> Label(l) in b
  {
    var s := b[|b| - 1];
    if |b| > 1 {
      LabelsOfBatch(p, g, b[..|b| - 1]);
      assert forall l :: Label(l) in b <==> Label(l) in b[..|b| - 1] || Label(l) == s;
    }
  }

  /** Labels resolve to the position of their batch. */
  lemma {:induction false} LabelPositionsAgree(p: Modulus, g: Program, rom: Rom, name: string)
    requires CodeLines(p, g, rom).Some? && LabelPositions(CodeLines(p, g, rom).value).Some?
    ensures var pos := LabelPositions(CodeLines(p, g, rom).value).value;
            LabelPosition(rom, name) == (if name in pos then Some(pos[name]) else None)
  {
    if rom != [] {
      var k := |rom| - 1;
      var lines := CodeLines(p, g, rom).value;
      assert lines[..k] == CodeLines(p, g, rom[..k]).value;
      LabelPositionsAgree(p, g, rom[..k], name);
      LabelsOfBatch(p, g, rom[k]);
    }
  }

  // ----- instruction inputs and outputs -----

  lemma {:induction false} InputValues(p: Modulus, inputs: seq<Input>, args: seq<AsmExpr>, a: string)
    requires |inputs| <= |args| && HandleInputs(p, inputs, args).Some?
    ensures var v := HandleInputs(p, inputs, args).value.value;
            match InputIndex(inputs, a)
            case None => a !in v
            case Some(i) => a in v && ProcessValue(p, args[i]) == Some(v[a])
  {
    if inputs != [] {
      InputValues(p, inputs[..|inputs| - 1], args, a);
    }
  }

  lemma {:induction false} InputLiterals(p: Modulus, rom: Rom, pos: map<string, nat>, inputs: seq<Input>, args: seq<AsmExpr>)
    requires |inputs| <= |args| && HandleInputs(p, inputs, args).Some?
    requires forall l :: LabelPosition(rom, l) == (if l in pos then Some(pos[l]) else None)
    ensures |HandleInputs(p, inputs, args).value.lits| == |LiteralNames(inputs)|
    ensures ParamValues(pos, LiteralNames(inputs), HandleInputs(p, inputs, args).value.lits)
            == LiteralMap(p, rom, inputs, args)
    ensures LiteralMap(p, rom, inputs, args).Keys == set n | n in LiteralNames(inputs)
  {
    if inputs != [] {
      var k := |inputs| - 1;
      InputLiterals(p, rom, pos, inputs[..k], args);
      LiteralNamesSnoc(inputs);
      var lits := HandleInputs(p, inputs, args).value.lits;
      if inputs[k].InLit? {
        LiteralAgrees(p, rom, pos, inputs[k].kind, args[k]);
        ParamsSnoc(pos, LiteralNames(inputs[..k]), HandleInputs(p, inputs[..k], args).value.lits, inputs[k].name, LiteralArg(p, inputs[k].kind, args[k]).value);
      } else {
        assert LiteralNames(inputs) == LiteralNames(inputs[..k]);
      }
    }
  }

  lemma ParamsSnoc(pos: map<string, nat>, names: seq<string>, lits: seq<LitArg>, n: string, l: LitArg)
    requires |names| == |lits|
    ensures ParamValues(pos, names + [n], lits + [l]) == ParamValues(pos, names, lits)[n := ResolveLit(pos, l)]
  {
    assert (names + [n])[..|names|] == names && (lits + [l])[..|lits|] == lits;
  }

  lemma LiteralAgrees(p: Modulus, rom: Rom, pos: map<string, nat>, kind: LiteralKind, a: AsmExpr)
    requires LiteralArg(p, kind, a).Some?
    requires forall l :: LabelPosition(rom, l) == (if l in pos then Some(pos[l]) else None)
    ensures var v := LiteralValue(p, rom, kind, a);
            ResolveLit(pos, LiteralArg(p, kind, a).value) == if v.Some? then v.value else 0
  {
    if kind.UnsignedConstant? { CanonicalEq(p, Rep(p, a.n), a.n); }
  }

  lemma {:induction false} LiteralNamesSnoc(inputs: seq<Input>)
    requires inputs != []
    ensures var k := |inputs| - 1;
            LiteralNames(inputs) == LiteralNames(inputs[..k]) + (if inputs[k].InLit? then [inputs[k].name] else [])
  {
    var k := |inputs| - 1;
    if k > 0 {
      LiteralNamesSnoc(inputs[1..]);
      assert inputs[1..][..k - 1] == inputs[..k][1..];
      assert inputs[1..][k - 1] == inputs[k];
    } else {
      assert inputs[..0] == [] && inputs[1..] == [];
    }
  }

  lemma {:induction false} OutputTargets(outputs: seq<string>, targets: seq<AsmExpr>)
    requires |outputs| == |targets| && HandleOutputs(outputs, targets).Some?
    ensures Distinct(outputs)
    ensures var m := HandleOutputs(outputs, targets).value;
            && m.Keys == (set o | o in outputs)
            && forall j :: 0 <= j < |outputs| ==> targets[j].Ref? && outputs[j] in m && m[outputs[j]] == [targets[j].name]
  {
    if outputs != [] {
      var k := |outputs| - 1;
      OutputTargets(outputs[..k], targets[..k]);
      var m := HandleOutputs(outputs, targets).value;
      assert outputs == outputs[..k] + [outputs[k]];
      forall j | 0 <= j < |outputs|
        ensures targets[j].Ref? && outputs[j] in m && m[outputs[j]] == [targets[j].name]
      {
        if j < k { assert targets[..k][j] == targets[j] && outputs[..k][j] == outputs[j]; }
      }
    }
  }

  // ----- assignment registers -----

  ghost predicate CarriesLine(p: Modulus, g: Program, pos: map<string, nat>, line: CodeLine, cur: Row) {
    forall c :: IsLookupColumn(g, c) ==> cur(c) == RomEntry(p, g, pos, line, c)
  }

  predicate Overridden(line: CodeLine, a: string) {
    line.instrs != [] && a in line.writes && line.writes[a] != []
  }

  /** The part of the right-hand side that does not depend on the free value. */
  function FixedRhs(p: Modulus, g: Program, pos: map<string, nat>, line: CodeLine, a: string, cur: Row): int {
    RomRhs(p, g, pos, line, a, ReadRegs(g.m), cur) + RomEntry(p, g, pos, line, Const(a))
  }

  lemma AssignIdentityValue(p: Modulus, g: Program, pos: map<string, nat>, line: CodeLine, a: string, cur: Row, nxt: Row)
    requires CarriesLine(p, g, pos, line, cur) && HasReg(g.m.regs, a, Assignment)
    ensures Holds(p, AssignIdentity(g.m, a), cur, nxt) <==>
            Cong(p, cur(Named(a)), FixedRhs(p, g, pos, line, a, cur) + RomEntry(p, g, pos, line, ReadFree(a)) * cur(FreeValue(a)))
  {
    forall r | r in ReadRegs(g.m) ensures cur(ReadCoef(a, r)) == RomEntry(p, g, pos, line, ReadCoef(a, r)) {
      assert IsLookupColumn(g, ReadCoef(a, r));
    }
    assert IsLookupColumn(g, Const(a)) && IsLookupColumn(g, ReadFree(a));
    AssignRhs(p, g, pos, line, a, cur, nxt);
  }

  predicate NamesDistinct(regs: seq<RegDecl>) {
    forall i, j :: 0 <= i < j < |regs| ==> regs[i].name != regs[j].name
  }

  lemma {:induction false} RegNamesDistinct(regs: seq<RegDecl>, ty: RegTy)
    requires NamesDistinct(regs)
    ensures Distinct(RegNames(regs, ty))
  {
    if regs != [] {
      RegNamesDistinct(regs[1..], ty);
      var rest := RegNames(regs[1..], ty);
      forall n | n in rest ensures n != regs[0].name {
        assert RegDecl(n, ty) in regs[1..];
      }
      if regs[0].ty == ty {
        DistinctConcat([regs[0].name], rest);
      } else {
        assert RegNames(regs, ty) == rest;
      }
    }
  }

  lemma SameName(regs: seq<RegDecl>, r: RegDecl, s: RegDecl)
    requires NamesDistinct(regs) && r in regs && s in regs && r.name == s.name
    ensures r == s
  {
  }

  lemma ReadRegsDistinct(m: Machine)
    requires NamesDistinct(m.regs)
    ensures Distinct(ReadRegs(m))
  {
    RegNamesDistinct(m.regs, Write);
    RegNamesDistinct(m.regs, Pc);
    RegNamesDistinct(m.regs, ReadOnly);
    var w, c, o := RegNames(m.regs, Write), RegNames(m.regs, Pc), RegNames(m.regs, ReadOnly);
    DisjointKinds(m.regs, Write, Pc);
    DisjointKinds(m.regs, Write, ReadOnly);
    DisjointKinds(m.regs, Pc, ReadOnly);
    DistinctConcat(w, c);
    DistinctConcat(w + c, o);
  }

  lemma DisjointKinds(regs: seq<RegDecl>, t: RegTy, u: RegTy)
    requires NamesDistinct(regs) && t != u
    ensures forall n :: n in RegNames(regs, t) ==> n !in RegNames(regs, u)
  {
    forall n | n in RegNames(regs, t) ensures n !in RegNames(regs, u) {
      if n in RegNames(regs, u) { SameName(regs, RegDecl(n, t), RegDecl(n, u)); }
    }
  }

  lemma DistinctConcat(a: seq<string>, b: seq<string>)
    requires Distinct(a) && Distinct(b) && forall n :: n in a ==> n !in b
    ensures Distinct(a + b)
  {
    forall i, j | 0 <= i < j < |a + b| ensures (a + b)[i] != (a + b)[j] {
      if i < |a| && |a| <= j { assert (a + b)[i] in a; }
    }
  }

  /** The right-hand side read by the line through `a`, if there is one. */
  predicate ReadsThrough(p: Modulus, line: CodeLine, a: string, e: AsmExpr) {
    a in line.value && ProcessValue(p, e) == Some(line.value[a])
  }

  lemma RhsIsExpression(p: Modulus, g: Program, pos: map<string, nat>, line: CodeLine, a: string, e: AsmExpr, cur: Row, free: int)
    requires NamesDistinct(g.m.regs) && LineOk(g.m, pos, line)
    requires ReadsThrough(p, line, a, e) && !Overridden(line, a)
    ensures Cong(p, FixedRhs(p, g, pos, line, a, cur) + RomEntry(p, g, pos, line, ReadFree(a)) * free,
                 EvalAsm(p, e, cur, free))
  {
    ReadRegsDistinct(g.m);
    var c := RomEntry(p, g, pos, line, Const(a));
    var f := RomEntry(p, g, pos, line, ReadFree(a));
    assert c == Rep(p, CoeffSum(line.value[a], ConstantPart)) && f == Rep(p, CoeffSum(line.value[a], FreePart));
    var x := RomRhs(p, g, pos, line, a, ReadRegs(g.m), cur);
    assert Cong(p, x + c + f * free, TermSum(line.value[a], cur, free)) by {
      AffineRhs(p, g, pos, line, a, cur, free);
    }
    assert Cong(p, TermSum(line.value[a], cur, free), EvalAsm(p, e, cur, free)) by {
      ProcessValueCorrect(p, e, cur, free);
    }
  }

  /** The line reflects the role of every assignment register. */
  lemma LineRoles(p: Modulus, g: Program, act: Action, line: CodeLine, a: string)
    requires LineFor(p, g, act, line) && InvocationOk(g, act)
    ensures match RoleOf(g, act, a)
            case Reading(e) => ReadsThrough(p, line, a, e) && !Overridden(line, a)
            case Output => Overridden(line, a)
            case Unused => a !in line.value && !Overridden(line, a)
  {
    if act.Invoke? {
      var d := InstrOf(g, act);
      OutputTargets(d.outputs, act.args[|d.inputs|..]);
      InputValues(p, d.inputs, act.args, a);
      if a in d.outputs {
        var j :| 0 <= j < |d.outputs| && d.outputs[j] == a;
        assert line.writes[d.outputs[j]] == [act.args[|d.inputs|..][j].name];
      }
    }
  }

  lemma UnusedRhs(p: Modulus, g: Program, pos: map<string, nat>, line: CodeLine, a: string, cur: Row)
    requires a !in line.value && !Overridden(line, a)
    ensures FixedRhs(p, g, pos, line, a, cur) == 0 && RomEntry(p, g, pos, line, ReadFree(a)) == 0
  {
    RomRhsValue(p, g, pos, line, a, ReadRegs(g.m), cur);
  }

  lemma {:induction false} AssignSound(p: Modulus, g: Program, pos: map<string, nat>, act: Action, line: CodeLine, a: string, cur: Row, nxt: Row)
    requires NamesDistinct(g.m.regs) && LineFor(p, g, act, line) && LineOk(g.m, pos, line) && InvocationOk(g, act)
    requires CarriesLine(p, g, pos, line, cur) && HasReg(g.m.regs, a, Assignment)
    requires forall c :: 0 <= cur(c) < p
    requires Holds(p, AssignIdentity(g.m, a), cur, nxt)
    ensures AssignOk(p, g, act, a, cur)
  {
    var free, x := cur(FreeValue(a)), cur(Named(a));
    LineRoles(p, g, act, line, a);
    AssignIdentityValue(p, g, pos, line, a, cur, nxt);
    match RoleOf(g, act, a)
    case Reading(e) => ReadSound(p, g, pos, line, a, e, x, free, cur);
    case Output =>
    case Unused =>
      UnusedRhs(p, g, pos, line, a, cur);
      ZeroSound(p, x, FixedRhs(p, g, pos, line, a, cur), RomEntry(p, g, pos, line, ReadFree(a)), free);
  }

  lemma {:induction false} ReadSound(p: Modulus, g: Program, pos: map<string, nat>, line: CodeLine, a: string, e: AsmExpr, x: int, free: int, cur: Row)
    requires NamesDistinct(g.m.regs) && LineOk(g.m, pos, line) && ReadsThrough(p, line, a, e) && !Overridden(line, a)
    requires 0 <= free < p && Cong(p, x, FixedRhs(p, g, pos, line, a, cur) + RomEntry(p, g, pos, line, ReadFree(a)) * free)
    ensures Reads(p, e, x, cur)
  {
    RhsIsExpression(p, g, pos, line, a, e, cur, free);
    assert Cong(p, x, EvalAsm(p, e, cur, free));
  }

  lemma ZeroSound(p: Modulus, x: int, y: int, f: int, free: int)
    requires 0 <= x < p && y == 0 && f == 0 && Cong(p, x, y + f * free)
    ensures x == 0
  {
    CanonicalEq(p, x, 0);
  }

  lemma Solve(p: Modulus, x: int, y: int, f: int) returns (free: int)
    requires f == 1
    ensures 0 <= free < p && Cong(p, x, y + f * free)
  {
    free := Rep(p, x - y);
    CongAdd(p, y, y, free, x - y);
  }

  lemma NoFreeValue(p: Modulus, x: int, y: int, f: int) returns (free: int)
    requires x == y == f == 0
    ensures 0 <= free < p && Cong(p, x, y + f * free)
  {
    free := 0;
  }

  lemma {:induction false} ReadFreeValue(p: Modulus, g: Program, pos: map<string, nat>, line: CodeLine, a: string, e: AsmExpr, x: int, cur: Row) returns (free: int)
    requires NamesDistinct(g.m.regs) && LineOk(g.m, pos, line) && ReadsThrough(p, line, a, e) && !Overridden(line, a) && Reads(p, e, x, cur)
    ensures 0 <= free < p && Cong(p, x, FixedRhs(p, g, pos, line, a, cur) + RomEntry(p, g, pos, line, ReadFree(a)) * free)
  {
    free :| 0 <= free < p && Cong(p, x, EvalAsm(p, e, cur, free));
    RhsIsExpression(p, g, pos, line, a, e, cur, free);
  }

  /** A free value that makes the identity for `a` hold. */
  lemma {:induction false} AssignComplete(p: Modulus, g: Program, pos: map<string, nat>, act: Action, line: CodeLine, a: string, cur: Row)
    returns (free: int)
    requires NamesDistinct(g.m.regs) && LineFor(p, g, act, line) && LineOk(g.m, pos, line) && InvocationOk(g, act)
    requires AssignOk(p, g, act, a, cur)
    ensures 0 <= free < p
    ensures Cong(p, cur(Named(a)), FixedRhs(p, g, pos, line, a, cur) + RomEntry(p, g, pos, line, ReadFree(a)) * free)
  {
    LineRoles(p, g, act, line, a);
    var x := cur(Named(a));
    match RoleOf(g, act, a)
    case Reading(e) => free := ReadFreeValue(p, g, pos, line, a, e, x, cur);
    case Output =>
      assert RomEntry(p, g, pos, line, ReadFree(a)) == 1;
      free := Solve(p, x, FixedRhs(p, g, pos, line, a, cur), RomEntry(p, g, pos, line, ReadFree(a)));
    case Unused =>
      UnusedRhs(p, g, pos, line, a, cur);
      free := NoFreeValue(p, x, FixedRhs(p, g, pos, line, a, cur), RomEntry(p, g, pos, line, ReadFree(a)));
  }
}
