/** Which programs the compiler accepts. */
module VmAcceptance {
  import opened Options
  import opened Collections
  import opened Congruence
  import opened Pil
  import opened Asm
  import opened VmCompile
  import opened VmAffine
  import opened VmTrace

  // ----- right-hand sides -----

  /** Numbers, and their negations, products and powers; sums of numbers are not folded. */
  predicate SingleConstant(e: AsmExpr) {
    match e
    case Number(_) => true
    case Minus(a) => SingleConstant(a)
    case Bin(op, a, b) => (op.MulOp? || op.PowOp?) && SingleConstant(a) && SingleConstant(b)
    case _ => false
  }

  function ZeroRow(): Row { (c: Column) => 0 }

  /** Sums and differences of registers, numbers and free inputs, and their products with constants. Powers
      are of constants, with a constant exponent that fits in 32 bits. */
  predicate AcceptedRhs(p: Modulus, e: AsmExpr) {
    match e
    case Bin(op, a, b) =>
      && AcceptedRhs(p, a) && AcceptedRhs(p, b) && !op.OtherOp?
      && (op.MulOp? ==> SingleConstant(a) || SingleConstant(b))
      && (op.PowOp? ==> SingleConstant(a) && SingleConstant(b) && Rep(p, EvalAsm(p, b, ZeroRow(), 0)) < 0x1_0000_0000)
    case Minus(a) => AcceptedRhs(p, a)
    case Other => false
    case _ => true
  }

  predicate CanonicalTerms(p: Modulus, ts: seq<Term>) { ts != [] && forall i :: 0 <= i < |ts| ==> 0 <= ts[i].coeff < p }

  lemma {:induction false} RhsIff(p: Modulus, e: AsmExpr)
    ensures ProcessValue(p, e).Some? <==> AcceptedRhs(p, e)
    ensures ProcessValue(p, e).Some? ==>
              CanonicalTerms(p, ProcessValue(p, e).value) && (IsConstant(ProcessValue(p, e).value) <==> SingleConstant(e))
  {
    match e
    case Minus(a) => RhsIff(p, a);
    case Bin(op, a, b) =>
      RhsIff(p, a);
      RhsIff(p, b);
      if op == PowOp && ProcessValue(p, b).Some? && IsConstant(ProcessValue(p, b).value) { Exponent(p, b); }
    case _ =>
  }

  /** A constant term is the value of its expression. */
  lemma Exponent(p: Modulus, e: AsmExpr)
    requires ProcessValue(p, e).Some? && IsConstant(ProcessValue(p, e).value) && CanonicalTerms(p, ProcessValue(p, e).value)
    ensures ProcessValue(p, e).value[0].coeff == Rep(p, EvalAsm(p, e, ZeroRow(), 0))
  {
    var ts := ProcessValue(p, e).value;
    ProcessValueCorrect(p, e, ZeroRow(), 0);
    assert TermSum(ts[..0], ZeroRow(), 0) == 0;
    assert TermSum(ts, ZeroRow(), 0) == ts[0].coeff;
    CanonicalEq(p, ts[0].coeff, Rep(p, EvalAsm(p, e, ZeroRow(), 0)));
  }

  // ----- calls -----

  /** An argument fits its parameter: a right-hand side for a register, and for a literal parameter a label, a
      number below half the modulus, or a number below the modulus or its negation. */
  predicate AcceptedInput(p: Modulus, i: Input, a: AsmExpr) {
    match i
    case InReg(_) => AcceptedRhs(p, a)
    case InLit(_, LabelKind) => a.Ref?
    case InLit(_, UnsignedConstant) => a.Number? && a.n < p / 2
    case InLit(_, SignedConstant) => (a.Number? && a.n < p) || (a.Minus? && a.e.Number? && a.e.n < p)
  }

  predicate RegistersOnce(inputs: seq<Input>) {
    forall j, k :: 0 <= j < k < |inputs| && inputs[j].InReg? ==> inputs[j] != inputs[k]
  }

  predicate AcceptedInputs(p: Modulus, inputs: seq<Input>, args: seq<AsmExpr>)
    requires |inputs| <= |args|
  {
    RegistersOnce(inputs) && forall k :: 0 <= k < |inputs| ==> AcceptedInput(p, inputs[k], args[k])
  }

  predicate AcceptedOutputs(outputs: seq<string>, targets: seq<AsmExpr>) {
    Distinct(outputs) && forall t :: t in targets ==> t.Ref?
  }

  /** The instruction exists, has as many inputs and outputs as there are arguments, and the arguments fit. */
  predicate AcceptedCall(p: Modulus, g: Program, instr: string, args: seq<AsmExpr>) {
    var d := FindInstr(Defs(g), instr);
    && d.Some? && |d.value.inputs| + |d.value.outputs| == |args|
    && AcceptedInputs(p, d.value.inputs, args) && AcceptedOutputs(d.value.outputs, args[|d.value.inputs|..])
  }

  lemma {:induction false} InputsIff(p: Modulus, inputs: seq<Input>, args: seq<AsmExpr>)
    requires |inputs| <= |args|
    ensures HandleInputs(p, inputs, args).Some? <==> AcceptedInputs(p, inputs, args)
    ensures HandleInputs(p, inputs, args).Some? ==> forall a :: a in HandleInputs(p, inputs, args).value.value <==> InReg(a) in inputs
  {
    if inputs != [] {
      var k := |inputs| - 1;
      InputsIff(p, inputs[..k], args);
      assert inputs == inputs[..k] + [inputs[k]];
      if inputs[k].InReg? { RhsIff(p, args[k]); }
      LastInput(p, inputs, args);
    }
  }

  lemma LastInput(p: Modulus, inputs: seq<Input>, args: seq<AsmExpr>)
    requires 0 < |inputs| <= |args|
    ensures var k := |inputs| - 1;
            AcceptedInputs(p, inputs, args) <==>
            AcceptedInputs(p, inputs[..k], args) && AcceptedInput(p, inputs[k], args[k]) && (inputs[k].InReg? ==> inputs[k] !in inputs[..k])
  {
    var k := |inputs| - 1;
    if AcceptedInputs(p, inputs, args) {
      forall j | 0 <= j < k ensures AcceptedInput(p, inputs[..k][j], args[j]) { assert inputs[..k][j] == inputs[j]; }
    }
    if AcceptedInputs(p, inputs[..k], args) && AcceptedInput(p, inputs[k], args[k]) {
      forall j | 0 <= j < |inputs| ensures AcceptedInput(p, inputs[j], args[j]) { if j < k { assert inputs[..k][j] == inputs[j]; } }
    }
  }

  lemma {:induction false} OutputsIff(outputs: seq<string>, targets: seq<AsmExpr>)
    requires |outputs| == |targets|
    ensures HandleOutputs(outputs, targets).Some? <==> AcceptedOutputs(outputs, targets)
    ensures HandleOutputs(outputs, targets).Some? ==> forall a :: a in HandleOutputs(outputs, targets).value <==> a in outputs
  {
    if outputs != [] {
      var k := |outputs| - 1;
      OutputsIff(outputs[..k], targets[..k]);
      assert outputs == outputs[..k] + [outputs[k]] && targets == targets[..k] + [targets[k]];
      if Distinct(outputs) { assert outputs[k] !in outputs[..k]; }
    }
  }

  lemma CallIff(p: Modulus, g: Program, instr: string, args: seq<AsmExpr>)
    ensures HandleInstruction(p, g, instr, args).Some? <==> AcceptedCall(p, g, instr, args)
  {
    var d := FindInstr(Defs(g), instr);
    if d.Some? && |d.value.inputs| + |d.value.outputs| == |args| {
      InputsIff(p, d.value.inputs, args);
      OutputsIff(d.value.outputs, args[|d.value.inputs|..]);
    }
  }

  // ----- statements and batches -----

  /** The statement can be compiled on its own. A call with assigned outputs names the output registers of the
      instruction in order, as far as both lists go. */
  predicate AcceptedStmt(p: Modulus, g: Program, s: Stmt) {
    match s
    case Assign(_, _, e) => AcceptedRhs(p, e)
    case CallAssign(lhs, instr, args) =>
      && AcceptedCall(p, g, instr, args + seq(|lhs|, k requires 0 <= k < |lhs| => Ref(lhs[k].0)))
      && var outputs := FindInstr(Defs(g), instr).value.outputs; forall k :: 0 <= k < |lhs| && k < |outputs| ==> lhs[k].1 == outputs[k]
    case Instruction(instr, args) => AcceptedCall(p, g, instr, args)
    case Return(args) => AcceptedCall(p, g, RETURN, args)
    case _ => true
  }

  /** Only the last statement of a batch does something. */
  predicate AcceptedBatch(p: Modulus, g: Program, b: Batch) {
    b != [] && AcceptedStmt(p, g, b[|b| - 1]) && forall i :: 0 <= i < |b| - 1 ==> b[i].Label? || b[i].DebugDirective?
  }

  lemma StmtIff(p: Modulus, g: Program, s: Stmt)
    ensures HandleStatement(p, g, s).Some? <==> AcceptedStmt(p, g, s)
    ensures HandleStatement(p, g, s).Some? ==>
              var l := HandleStatement(p, g, s).value;
              (l.writes == map[] && l.value == map[] && l.instrs == [] <==> s.Label? || s.DebugDirective?)
  {
    match s
    case Assign(r, a, e) => RhsIff(p, e); assert a in map[a := [r]];
    case CallAssign(lhs, instr, args) => CallIff(p, g, instr, args + seq(|lhs|, k requires 0 <= k < |lhs| => Ref(lhs[k].0)));
    case Instruction(instr, args) => CallIff(p, g, instr, args);
    case Return(args) => CallIff(p, g, RETURN, args);
    case _ =>
  }

  lemma {:induction false} BatchIff(p: Modulus, g: Program, b: Batch)
    ensures HandleBatch(p, g, b).Some? <==> AcceptedBatch(p, g, b)
    ensures HandleBatch(p, g, b).Some? ==>
              var l := HandleBatch(p, g, b).value; var s := b[|b| - 1];
              (l.writes == map[] && l.value == map[] && l.instrs == [] <==> s.Label? || s.DebugDirective?)
    decreases |b|
  {
    if b != [] {
      var n := |b| - 1;
      StmtIff(p, g, b[n]);
      if n > 0 { BatchIff(p, g, b[..n]); LastStatement(p, g, b); }
    }
  }

  lemma LastStatement(p: Modulus, g: Program, b: Batch)
    requires |b| > 1
    ensures var n := |b| - 1;
            (forall i :: 0 <= i < n ==> b[i].Label? || b[i].DebugDirective?) <==>
            AcceptedBatch(p, g, b[..n]) && (b[n - 1].Label? || b[n - 1].DebugDirective?)
  {
    var n := |b| - 1;
    if forall i :: 0 <= i < n ==> b[i].Label? || b[i].DebugDirective? {
      assert b[..n][n - 1] == b[n - 1];
    }
    if AcceptedBatch(p, g, b[..n]) && (b[n - 1].Label? || b[n - 1].DebugDirective?) {
      forall i | 0 <= i < n ensures b[i].Label? || b[i].DebugDirective? { if i < n - 1 { assert b[..n][i] == b[i]; } }
    }
  }

  // ----- labels -----

  predicate HasLabel(rom: Rom, l: string) { exists i :: 0 <= i < |rom| && Label(l) in rom[i] }

  /** No label occurs in two batches. */
  ghost predicate UniqueLabels(rom: Rom) {
    forall i, j, l :: 0 <= i < j < |rom| && Label(l) in rom[i] ==> Label(l) !in rom[j]
  }

  lemma LastLabel(rom: Rom, l: string)
    requires rom != []
    ensures HasLabel(rom, l) <==> HasLabel(rom[..|rom| - 1], l) || Label(l) in rom[|rom| - 1]
  {
    var k := |rom| - 1;
    if HasLabel(rom[..k], l) {
      var i :| 0 <= i < k && Label(l) in rom[..k][i];
      assert Label(l) in rom[i];
    }
  }

  lemma LastLabels(rom: Rom)
    requires rom != []
    ensures var k := |rom| - 1;
            UniqueLabels(rom) <==> UniqueLabels(rom[..k]) && forall l :: HasLabel(rom[..k], l) ==> Label(l) !in rom[k]
  {
    var k := |rom| - 1;
    var front := rom[..k];
    if UniqueLabels(rom) {
      forall l | HasLabel(front, l) ensures Label(l) !in rom[k] {
        var i :| 0 <= i < k && Label(l) in front[i];
        assert Label(l) in rom[i];
      }
      forall i, j, l | 0 <= i < j < k && Label(l) in front[i] ensures Label(l) !in front[j] { assert Label(l) in rom[i]; }
    }
    if UniqueLabels(front) && forall l :: HasLabel(front, l) ==> Label(l) !in rom[k] {
      forall i, j, l | 0 <= i < j < |rom| && Label(l) in rom[i] ensures Label(l) !in rom[j] {
        assert Label(l) in front[i];
        if j < k { assert front[j] == rom[j]; } else { assert HasLabel(front, l); }
      }
    }
  }

  /** The label positions of the lines of `rom` exist exactly if its labels are unique, and are those of its
      labels. */
  ghost predicate PositionsOf(lines: seq<CodeLine>, rom: Rom) {
    && (LabelPositions(lines).Some? <==> UniqueLabels(rom))
    && (LabelPositions(lines).Some? ==> forall l :: l in LabelPositions(lines).value <==> HasLabel(rom, l))
  }

  lemma {:induction false} LabelsIff(p: Modulus, g: Program, rom: Rom)
    requires CodeLines(p, g, rom).Some?
    ensures PositionsOf(CodeLines(p, g, rom).value, rom)
    decreases |rom|
  {
    if rom != [] {
      var k := |rom| - 1;
      var lines := CodeLines(p, g, rom).value;
      assert lines[..k] == CodeLines(p, g, rom[..k]).value;
      LabelsIff(p, g, rom[..k]);
      LabelsOfBatch(p, g, rom[k]);
      MorePositions(lines, rom);
    }
  }

  lemma {:induction false} MorePositions(lines: seq<CodeLine>, rom: Rom)
    requires |lines| == |rom| > 0 && PositionsOf(lines[..|rom| - 1], rom[..|rom| - 1])
    requires forall l :: l in lines[|rom| - 1].labels <==> Label(l) in rom[|rom| - 1]
    ensures PositionsOf(lines, rom)
  {
    var k := |rom| - 1;
    LastLabels(rom);
    var acc := LabelPositions(lines[..k]);
    if acc.Some? {
      var keys := acc.value.Keys;
      NothingCommon(keys, lines[k].labels);
      forall l ensures HasLabel(rom, l) <==> l in keys || l in lines[k].labels { LastLabel(rom, l); }
    }
  }

  lemma NothingCommon(a: set<string>, b: set<string>)
    ensures a * b == {} <==> forall x :: x in a ==> x !in b
  {
    if forall x :: x in a ==> x !in b { assert forall x :: x !in a * b; }
    if a * b == {} { forall x | x in a ensures x !in b { assert x !in a * b; } }
  }

  // ----- registers -----

  /** Every register that the expression mentions can be read: it is no assignment register. */
  predicate AllReadable(m: Machine, e: AsmExpr) {
    match e
    case Ref(x) => exists r :: r in m.regs && r.name == x && r.ty != Assignment
    case Bin(_, a, b) => AllReadable(m, a) && AllReadable(m, b)
    case Minus(a) => AllReadable(m, a)
    case _ => true
  }

  /** The registers, labels and targets that a line mentions are declared and of the right kind. */
  predicate Declares(g: Program, act: Action)
    requires InvocationOk(g, act)
  {
    match act
    case Nothing => true
    case Move(r, a, e) => HasReg(g.m.regs, a, Assignment) && HasReg(g.m.regs, r, Write) && AllReadable(g.m, e)
    case Invoke(_, args) =>
      var d := InstrOf(g, act);
      && DeclaresOutputs(g.m, d.outputs, args[|d.inputs|..])
      && DeclaresInputs(g, d.inputs, args)
  }

  predicate DeclaresOutputs(m: Machine, outputs: seq<string>, targets: seq<AsmExpr>)
    requires |outputs| == |targets|
  {
    forall k :: 0 <= k < |outputs| ==> HasReg(m.regs, outputs[k], Assignment) && targets[k].Ref? && HasReg(m.regs, targets[k].name, Write)
  }

  predicate DeclaresInputs(g: Program, inputs: seq<Input>, args: seq<AsmExpr>)
    requires |inputs| <= |args|
  {
    forall k :: 0 <= k < |inputs| ==> DeclaresInput(g, inputs[k], args[k])
  }

  predicate DeclaresInput(g: Program, i: Input, a: AsmExpr) {
    match i
    case InReg(x) => HasReg(g.m.regs, x, Assignment) && AllReadable(g.m, a)
    case InLit(_, LabelKind) => a.Ref? && HasLabel(g.rom, a.name)
    case InLit(_, _) => true
  }

  predicate ReadableTerms(m: Machine, ts: seq<Term>) {
    forall k :: 0 <= k < |ts| && ts[k].comp.RegisterPart? ==> ts[k].comp.name in ReadRegs(m)
  }

  lemma ReadRegsIff(m: Machine, x: string)
    ensures x in ReadRegs(m) <==> exists r :: r in m.regs && r.name == x && r.ty != Assignment
  {
    if r :| r in m.regs && r.name == x && r.ty != Assignment { assert r == RegDecl(x, r.ty); }
  }

  lemma {:induction false} ReadableConcat(m: Machine, a: seq<Term>, b: seq<Term>)
    ensures ReadableTerms(m, a + b) <==> ReadableTerms(m, a) && ReadableTerms(m, b)
  {
    if ReadableTerms(m, a + b) {
      forall k | 0 <= k < |b| && b[k].comp.RegisterPart? ensures b[k].comp.name in ReadRegs(m) { assert (a + b)[|a| + k] == b[k]; }
      forall k | 0 <= k < |a| && a[k].comp.RegisterPart? ensures a[k].comp.name in ReadRegs(m) { assert (a + b)[k] == a[k]; }
    }
  }

  lemma ReadableScale(p: Modulus, m: Machine, f: int, ts: seq<Term>)
    ensures ReadableTerms(m, Scale(p, f, ts)) <==> ReadableTerms(m, ts)
  {
    if ReadableTerms(m, Scale(p, f, ts)) {
      forall k | 0 <= k < |ts| && ts[k].comp.RegisterPart? ensures ts[k].comp.name in ReadRegs(m) { assert Scale(p, f, ts)[k].comp == ts[k].comp; }
    }
  }

  /** The compiled right-hand side mentions the registers of the expression. */
  lemma {:induction false} ReadableIff(p: Modulus, m: Machine, e: AsmExpr)
    requires ProcessValue(p, e).Some?
    ensures ReadableTerms(m, ProcessValue(p, e).value) <==> AllReadable(m, e)
  {
    match e
    case Ref(x) =>
      ReadRegsIff(m, x);
      assert ProcessValue(p, e).value[0].comp == RegisterPart(x);
    case Minus(a) =>
      ReadableIff(p, m, a);
      ReadableScale(p, m, -1, ProcessValue(p, a).value);
    case Bin(op, a, b) =>
      ReadableIff(p, m, a);
      ReadableIff(p, m, b);
      ReadableBinary(p, m, op, a, b);
    case _ =>
  }

  lemma {:induction false} ReadableBinary(p: Modulus, m: Machine, op: AsmOp, a: AsmExpr, b: AsmExpr)
    requires ProcessValue(p, Bin(op, a, b)).Some?
    ensures ReadableTerms(m, ProcessValue(p, Bin(op, a, b)).value) <==>
            ReadableTerms(m, ProcessValue(p, a).value) && ReadableTerms(m, ProcessValue(p, b).value)
  {
    var l, r := ProcessValue(p, a).value, ProcessValue(p, b).value;
    match op
    case AddOp => ReadableConcat(m, l, r);
    case SubOp => ReadableScale(p, m, -1, r); ReadableConcat(m, l, Scale(p, -1, r));
    case MulOp => if IsConstant(l) { ReadableScale(p, m, l[0].coeff, r); } else { ReadableScale(p, m, r[0].coeff, l); }
    case _ =>
  }

  // ----- lines -----

  predicate WritesOk(m: Machine, writes: map<string, seq<string>>) {
    forall a :: a in writes ==> HasReg(m.regs, a, Assignment) && forall r :: r in writes[a] ==> HasReg(m.regs, r, Write)
  }

  predicate ValuesOk(m: Machine, value: map<string, seq<Term>>) {
    forall a :: a in value ==> HasReg(m.regs, a, Assignment) && ReadableTerms(m, value[a])
  }

  predicate LitsOk(pos: map<string, nat>, lits: seq<LitArg>) { forall j :: 0 <= j < |lits| && lits[j].LabelRef? ==> lits[j].name in pos }

  lemma {:induction false} OutputsDeclared(m: Machine, outputs: seq<string>, targets: seq<AsmExpr>)
    requires |outputs| == |targets| && HandleOutputs(outputs, targets).Some?
    ensures WritesOk(m, HandleOutputs(outputs, targets).value) <==> DeclaresOutputs(m, outputs, targets)
  {
    if outputs != [] {
      var k := |outputs| - 1;
      var front := HandleOutputs(outputs[..k], targets[..k]).value;
      OutputsDeclared(m, outputs[..k], targets[..k]);
      OneMoreWrite(m, front, outputs[k], targets[k].name);
      if DeclaresOutputs(m, outputs[..k], targets[..k]) {
        forall j | 0 <= j < k
          ensures HasReg(m.regs, outputs[j], Assignment) && targets[j].Ref? && HasReg(m.regs, targets[j].name, Write)
        {
          assert outputs[..k][j] == outputs[j] && targets[..k][j] == targets[j];
        }
      }
      if DeclaresOutputs(m, outputs, targets) {
        forall j | 0 <= j < k
          ensures HasReg(m.regs, outputs[..k][j], Assignment) && targets[..k][j].Ref? && HasReg(m.regs, targets[..k][j].name, Write)
        {
          assert outputs[..k][j] == outputs[j] && targets[..k][j] == targets[j];
        }
      }
    }
  }

  lemma OneMoreWrite(m: Machine, writes: map<string, seq<string>>, a: string, r: string)
    requires a !in writes
    ensures WritesOk(m, writes[a := [r]]) <==> WritesOk(m, writes) && HasReg(m.regs, a, Assignment) && HasReg(m.regs, r, Write)
  {
    var w := writes[a := [r]];
    if WritesOk(m, w) {
      assert r in w[a];
      forall b | b in writes ensures HasReg(m.regs, b, Assignment) && forall r :: r in writes[b] ==> HasReg(m.regs, r, Write) { assert w[b] == writes[b]; }
    }
  }

  lemma {:induction false} InputsDeclared(p: Modulus, g: Program, pos: map<string, nat>, inputs: seq<Input>, args: seq<AsmExpr>)
    requires |inputs| <= |args| && HandleInputs(p, inputs, args).Some?
    requires forall l :: l in pos <==> HasLabel(g.rom, l)
    ensures ValuesOk(g.m, HandleInputs(p, inputs, args).value.value) && LitsOk(pos, HandleInputs(p, inputs, args).value.lits)
            <==> DeclaresInputs(g, inputs, args)
  {
    if inputs != [] {
      var k := |inputs| - 1;
      var front := HandleInputs(p, inputs[..k], args).value;
      InputsDeclared(p, g, pos, inputs[..k], args);
      LastDeclared(g, inputs, args);
      match inputs[k]
      case InReg(a) =>
        ReadableIff(p, g.m, args[k]);
        OneMoreValue(g.m, front.value, a, ProcessValue(p, args[k]).value);
      case InLit(_, kind) => OneMoreLit(pos, front.lits, LiteralArg(p, kind, args[k]).value);
    }
  }

  lemma LastDeclared(g: Program, inputs: seq<Input>, args: seq<AsmExpr>)
    requires 0 < |inputs| <= |args|
    ensures var k := |inputs| - 1;
            DeclaresInputs(g, inputs, args) <==> DeclaresInputs(g, inputs[..k], args) && DeclaresInput(g, inputs[k], args[k])
  {
    var k := |inputs| - 1;
    forall j | 0 <= j < k ensures inputs[..k][j] == inputs[j] { }
  }

  lemma OneMoreValue(m: Machine, value: map<string, seq<Term>>, a: string, ts: seq<Term>)
    requires a !in value
    ensures ValuesOk(m, value[a := ts]) <==> ValuesOk(m, value) && HasReg(m.regs, a, Assignment) && ReadableTerms(m, ts)
  {
    var w := value[a := ts];
    assert w[a] == ts;
    forall b | b in value ensures w[b] == value[b] { }
  }

  lemma OneMoreLit(pos: map<string, nat>, lits: seq<LitArg>, l: LitArg)
    ensures LitsOk(pos, lits + [l]) <==> LitsOk(pos, lits) && (l.LabelRef? ==> l.name in pos)
  {
    var all := lits + [l];
    assert all[|lits|] == l;
    forall j | 0 <= j < |lits| ensures all[j] == lits[j] { }
  }

  lemma {:induction false} LineDeclared(p: Modulus, g: Program, pos: map<string, nat>, act: Action, line: CodeLine)
    requires LineFor(p, g, act, line) && InvocationOk(g, act)
    requires forall l :: l in pos <==> HasLabel(g.rom, l)
    ensures LineOk(g.m, pos, line) <==> Declares(g, act)
  {
    LineOkParts(g.m, pos, line);
    match act
    case Nothing =>
    case Move(r, a, e) =>
      ReadableIff(p, g.m, e);
      OneMoreWrite(g.m, map[], a, r);
      OneMoreValue(g.m, map[], a, ProcessValue(p, e).value);
    case Invoke(i, args) =>
      var d := InstrOf(g, act);
      OutputsDeclared(g.m, d.outputs, args[|d.inputs|..]);
      InputsDeclared(p, g, pos, d.inputs, args);
      assert line.instrs[0].1 == HandleInputs(p, d.inputs, args).value.lits;
  }

  lemma LineOkParts(m: Machine, pos: map<string, nat>, line: CodeLine)
    ensures LineOk(m, pos, line) <==>
            && WritesOk(m, line.writes) && ValuesOk(m, line.value)
            && forall k :: 0 <= k < |line.instrs| ==> LitsOk(pos, line.instrs[k].1)
  {
  }

  // ----- programs -----

  /** The compiler accepts a program if and only if every batch ends in one statement that can be compiled and
      otherwise holds labels and directives, no label occurs in two batches, and what the batches mention is
      declared. */
  lemma {:induction false} AcceptedIff(p: Modulus, g: Program)
    ensures Accepted(p, g) <==>
            && AcceptedBatches(p, g, g.rom)
            && UniqueLabels(g.rom)
            && forall i :: 0 <= i < |g.rom| ==> InvocationOk(g, ActionOf(g.rom[i])) && Declares(g, ActionOf(g.rom[i]))
  {
    CodeLinesIff(p, g, g.rom);
    if CodeLines(p, g, g.rom).Some? {
      var lines := CodeLines(p, g, g.rom).value;
      LabelsIff(p, g, g.rom);
      if LabelPositions(lines).Some? {
        var pos := LabelPositions(lines).value;
        forall i | 0 <= i < |g.rom|
          ensures InvocationOk(g, ActionOf(g.rom[i])) && (LineOk(g.m, pos, lines[i]) <==> Declares(g, ActionOf(g.rom[i])))
        {
          BatchLine(p, g, g.rom[i]);
          LineDeclared(p, g, pos, ActionOf(g.rom[i]), lines[i]);
        }
      }
    }
  }

  predicate AcceptedBatches(p: Modulus, g: Program, rom: Rom) { forall b :: b in rom ==> AcceptedBatch(p, g, b) }

  lemma {:induction false} CodeLinesIff(p: Modulus, g: Program, rom: Rom)
    ensures CodeLines(p, g, rom).Some? <==> AcceptedBatches(p, g, rom)
    decreases |rom|
  {
    if rom != [] {
      var k := |rom| - 1;
      CodeLinesIff(p, g, rom[..k]);
      BatchIff(p, g, rom[k]);
      assert forall b :: b in rom <==> b in rom[..k] || b == rom[k];
    }
  }
}
