/** ROM generation: one ROM per machine with a dispatcher in front, and the block structure that
    every run of such a ROM has. */
module RomGen {
  import opened Options
  import opened Collections
  import opened Congruence
  import opened Pil
  import opened Asm
  import opened VmCompile
  import opened VmAffine
  import opened VmTrace
  import opened VmRegisters
  import opened VmTheorem
  import opened VmRuns

  const OPERATION_ID := "_operation_id"
  const JUMP := "_jump_to_operation"
  const LOOP := "_loop"

  datatype Function = Function(name: string, inputs: seq<string>, outputs: nat, body: seq<Batch>)

  datatype Source = Source(m: Machine, functions: seq<Function>)

  // ----- the generated machine -----

  function ResetBody(regs: seq<string>): seq<Identity> {
    seq(|regs|, i requires 0 <= i < |regs| => Identity(Next(Named(regs[i])), Num(0)))
  }

  function ResetInstr(m: Machine): InstrDef {
    InstrDef(RESET, [], [], [], ResetBody(RegNames(m.regs, Write)))
  }

  function JumpInstr(m: Machine): InstrDef {
    InstrDef(JUMP, [], [], [], [Identity(Next(Named(PcName(m))), Col(Named(OPERATION_ID)))])
  }

  function LoopInstr(m: Machine): InstrDef {
    InstrDef(LOOP, [], [], [], [Identity(Next(Named(PcName(m))), Col(Named(PcName(m))))])
  }

  function MaxInputs(fs: seq<Function>): nat {
    if fs == [] then 0 else Max(MaxInputs(fs[..|fs| - 1]), |fs[|fs| - 1].inputs|)
  }

  function MaxOutputs(fs: seq<Function>): nat {
    if fs == [] then 0 else Max(MaxOutputs(fs[..|fs| - 1]), fs[|fs| - 1].outputs)
  }

  /** There are exactly as many input and output columns as the largest function needs. */
  lemma {:induction false} ColumnCounts(fs: seq<Function>)
    ensures forall f :: f in fs ==> |f.inputs| <= MaxInputs(fs) && f.outputs <= MaxOutputs(fs)
    ensures MaxInputs(fs) == 0 || exists f :: f in fs && |f.inputs| == MaxInputs(fs)
    ensures MaxOutputs(fs) == 0 || exists f :: f in fs && f.outputs == MaxOutputs(fs)
    decreases |fs|
  {
    if fs != [] {
      var n := |fs| - 1;
      ColumnCounts(fs[..n]);
      assert forall f :: f in fs <==> f in fs[..n] || f == fs[n];
    }
  }

  /** The operation id may only change after a return and at the end of the table. */
  function BlockEnforcer(): Identity {
    var noChange := Mul(Sub(Num(1), Col(LastStep)), Sub(Num(1), Col(InstrFlag(RETURN))));
    Identity(Mul(noChange, Sub(Next(Named(OPERATION_ID)), Col(Named(OPERATION_ID)))), Num(0))
  }

  function InputRegs(n: nat): seq<RegDecl> {
    seq(n, i requires 0 <= i => RegDecl(InputName(i), ReadOnly))
  }

  function OutputRegs(n: nat): seq<RegDecl> {
    seq(n, i requires 0 <= i => RegDecl(OutputName(i), Assignment))
  }

  function GeneratedMachine(src: Source): Machine {
    Machine(src.m.regs + InputRegs(MaxInputs(src.functions)) + OutputRegs(MaxOutputs(src.functions)),
            src.m.instrs + [JumpInstr(src.m), ResetInstr(src.m), LoopInstr(src.m)],
            src.m.pil + [BlockEnforcer()])
  }

  // ----- the generated ROM -----

  function SubstituteName(inputs: seq<string>, x: string): string {
    if inputs == [] then x
    else if inputs[|inputs| - 1] == x then InputName(|inputs| - 1)
    else SubstituteName(inputs[..|inputs| - 1], x)
  }

  function SubstituteExpr(inputs: seq<string>, e: AsmExpr): AsmExpr {
    match e
    case Ref(x) => Ref(SubstituteName(inputs, x))
    case Bin(op, a, b) => Bin(op, SubstituteExpr(inputs, a), SubstituteExpr(inputs, b))
    case Minus(a) => Minus(SubstituteExpr(inputs, a))
    case _ => e
  }

  function SubstituteExprs(inputs: seq<string>, es: seq<AsmExpr>): (r: seq<AsmExpr>)
    ensures |r| == |es|
  {
    seq(|es|, i requires 0 <= i < |es| => SubstituteExpr(inputs, es[i]))
  }

  /** Pads the returned values with zeroes up to the largest number of outputs. */
  function PadReturn(args: seq<AsmExpr>, n: nat): (r: seq<AsmExpr>)
    ensures |r| == n
    ensures forall k :: 0 <= k < n ==> r[k] == if k < |args| then args[k] else Number(0)
  {
    seq(n, k requires 0 <= k < n => if k < |args| then args[k] else Number(0))
  }

  function TranslateStmt(inputs: seq<string>, outputCount: nat, s: Stmt): Stmt {
    match s
    case Assign(r, a, e) => Assign(r, a, SubstituteExpr(inputs, e))
    case CallAssign(lhs, i, args) => CallAssign(lhs, i, SubstituteExprs(inputs, args))
    case Instruction(i, args) => Instruction(i, SubstituteExprs(inputs, args))
    case Return(args) => Return(PadReturn(SubstituteExprs(inputs, args), outputCount))
    case _ => s
  }

  function TranslateBatch(inputs: seq<string>, outputCount: nat, b: Batch): Batch {
    seq(|b|, i requires 0 <= i < |b| => TranslateStmt(inputs, outputCount, b[i]))
  }

  /** The batches of a function; its label goes in front of the first one. */
  function FunctionRom(f: Function, outputCount: nat): (r: Rom)
    ensures |r| == |f.body|
  {
    seq(|f.body|, i requires 0 <= i < |f.body| =>
      (if i == 0 then [Label("_" + f.name)] else []) + TranslateBatch(f.inputs, outputCount, f.body[i]))
  }

  const DISPATCHER: Rom := [[Label("_powdr_start"), Instruction(RESET, [])], [Instruction(JUMP, [])]]
  const SINK: Rom := [[Label("_sink"), Instruction(LOOP, [])]]

  function FunctionRoms(fs: seq<Function>, outputCount: nat): Rom {
    if fs == [] then [] else FunctionRoms(fs[..|fs| - 1], outputCount) + FunctionRom(fs[|fs| - 1], outputCount)
  }

  function GeneratedRom(src: Source): Rom {
    DISPATCHER + FunctionRoms(src.functions, MaxOutputs(src.functions)) + SINK
  }

  /** The operation id of the k-th function: the position of its first batch. */
  function OperationIdOf(src: Source, k: nat): nat
    requires k < |src.functions|
  {
    2 + |FunctionRoms(src.functions[..k], MaxOutputs(src.functions))|
  }

  function Generated(src: Source): Program {
    Program(GeneratedMachine(src), MaxOutputs(src.functions), GeneratedRom(src))
  }

  /** The generation loop: the ROM grows function by function, and each function's id is the length
      of the ROM when it is reached. */
  method GenerateMachineRom(src: Source) returns (rom: Rom, ids: seq<nat>)
    ensures rom == GeneratedRom(src)
    ensures |ids| == |src.functions|
    ensures forall k :: 0 <= k < |ids| ==> ids[k] == OperationIdOf(src, k)
  {
    var outputCount := MaxOutputs(src.functions);
    rom := DISPATCHER;
    ids := [];
    for k := 0 to |src.functions|
      invariant |ids| == k
      invariant rom == DISPATCHER + FunctionRoms(src.functions[..k], outputCount)
      invariant forall j :: 0 <= j < k ==> ids[j] == OperationIdOf(src, j)
    {
      var f := src.functions[k];
      ids := ids + [|rom|];
      var batches: Rom := [];
      for i := 0 to |f.body|
        invariant |batches| == i
        invariant forall j :: 0 <= j < i ==> batches[j] == FunctionRom(f, outputCount)[j]
      {
        var b := TranslateBatch(f.inputs, outputCount, f.body[i]);
        batches := batches + [if i == 0 then [Label("_" + f.name)] + b else b];
      }
      assert batches == FunctionRom(f, outputCount);
      assert src.functions[..k + 1][..k] == src.functions[..k];
      rom := rom + batches;
    }
    assert src.functions[..|src.functions|] == src.functions;
    rom := rom + SINK;
  }

  /** The batch at a function's id is the function's first batch. */
  lemma {:induction false} OperationIdIsEntry(src: Source, k: nat)
    requires k < |src.functions| && |src.functions[k].body| > 0
    ensures var id := OperationIdOf(src, k); var f := src.functions[k];
            && id < |GeneratedRom(src)|
            && GeneratedRom(src)[id] == [Label("_" + f.name)] + TranslateBatch(f.inputs, MaxOutputs(src.functions), f.body[0])
  {
    var n := MaxOutputs(src.functions);
    var f := src.functions[k];
    FunctionRomsPrefix(src.functions, k + 1, n);
    assert src.functions[..k + 1][..k] == src.functions[..k];
    var front := FunctionRoms(src.functions[..k], n);
    assert FunctionRoms(src.functions[..k + 1], n) == front + FunctionRom(f, n);
    assert FunctionRoms(src.functions, n)[|front|] == FunctionRom(f, n)[0];
  }

  lemma {:induction false} FunctionRomsPrefix(fs: seq<Function>, k: nat, n: nat)
    requires k <= |fs|
    ensures FunctionRoms(fs[..k], n) <= FunctionRoms(fs, n)
  {
    if k < |fs| {
      FunctionRomsPrefix(fs[..|fs| - 1], k, n);
      assert fs[..|fs| - 1][..k] == fs[..k];
    } else {
      assert fs[..k] == fs;
    }
  }

  // ----- runs of a generated program -----

  function PcOf(g: Program, row: Row): int { row(Named(PcName(g.m))) }

  function IdOf(row: Row): int { row(Named(OPERATION_ID)) }

  predicate Latched(row: Row) { row(InstrFlag(RETURN)) == 1 }

  lemma {:induction false} RegNamesConcat(a: seq<RegDecl>, b: seq<RegDecl>, ty: RegTy)
    ensures RegNames(a + b, ty) == RegNames(a, ty) + RegNames(b, ty)
  {
    if a == [] {
      assert a + b == b;
    } else {
      assert (a + b)[1..] == a[1..] + b;
      RegNamesConcat(a[1..], b, ty);
    }
  }

  lemma {:induction false} NoRegsOfType(regs: seq<RegDecl>, ty: RegTy)
    requires forall r :: r in regs ==> r.ty != ty
    ensures RegNames(regs, ty) == []
  {
    if regs != [] { NoRegsOfType(regs[1..], ty); }
  }

  /** The added registers are neither pc nor write registers. */
  lemma GeneratedRegs(src: Source)
    ensures RegNames(GeneratedMachine(src).regs, Write) == RegNames(src.m.regs, Write)
    ensures PcName(GeneratedMachine(src)) == PcName(src.m)
  {
    var ins, outs := InputRegs(MaxInputs(src.functions)), OutputRegs(MaxOutputs(src.functions));
    forall ty | ty == Write || ty == Pc ensures RegNames(src.m.regs + ins + outs, ty) == RegNames(src.m.regs, ty) {
      RegNamesConcat(src.m.regs + ins, outs, ty);
      RegNamesConcat(src.m.regs, ins, ty);
      NoRegsOfType(ins, ty);
      NoRegsOfType(outs, ty);
    }
  }

  lemma GeneratedDefs(src: Source)
    ensures var defs := Defs(Generated(src));
            && ResetInstr(src.m) in defs && JumpInstr(src.m) in defs && LoopInstr(src.m) in defs
            && ReturnInstr(MaxOutputs(src.functions), PcName(src.m)) in defs
  {
    GeneratedRegs(src);
    var defs := Defs(Generated(src));
    var n := |src.m.instrs|;
    assert defs[n] == JumpInstr(src.m) && defs[n + 1] == ResetInstr(src.m) && defs[n + 2] == LoopInstr(src.m);
    assert defs[n + 3] == ReturnInstr(MaxOutputs(src.functions), PcName(src.m));
  }

  lemma {:induction false} ResetWriters(regs: seq<string>, r: string)
    requires Distinct(regs)
    ensures BodyWriters(ResetBody(regs), map[], r) == if r in regs then [Computed(Num(0))] else []
  {
    if regs != [] {
      assert ResetBody(regs)[1..] == ResetBody(regs[1..]);
      ResetWriters(regs[1..], r);
    }
  }

  /** Names starting with an underscore belong to the generator: functions do not invoke `_reset`, and
      no line writes an input register. */
  ghost predicate ReservedNames(p: Modulus, src: Source) {
    var g := Generated(src);
    && (forall i :: 0 < i < |g.rom| ==> IsActive(ActionOf(g.rom[i]), RESET) == 0)
    && (forall i, k :: 0 <= i < |g.rom| && 0 <= k < MaxInputs(src.functions) ==>
          InvocationOk(g, ActionOf(g.rom[i])) && Writers(p, g, ActionOf(g.rom[i]), InputName(k)) == [])
  }

  // ----- the three dispatcher instructions -----

  predicate Names(g: Program) {
    NamesDistinct(g.m.regs) && InstrNamesDistinct(Defs(g)) && |RegNames(g.m.regs, Pc)| == 1
  }

  lemma ActiveDef(g: Program, d: InstrDef, args: seq<AsmExpr>)
    requires InstrNamesDistinct(Defs(g)) && d in Defs(g) && |args| == |d.inputs| + |d.outputs|
    ensures InvocationOk(g, Invoke(d.name, args)) && InstrOf(g, Invoke(d.name, args)) == d
  {
    FindInstrUnique(Defs(g), d);
  }

  lemma {:induction false} NoInputsNoLiterals(p: Modulus, rom: Rom, inputs: seq<Input>, args: seq<AsmExpr>)
    requires |inputs| <= |args| && forall i :: 0 <= i < |inputs| ==> inputs[i].InReg?
    ensures LiteralMap(p, rom, inputs, args) == map[]
  {
    if inputs != [] { NoInputsNoLiterals(p, rom, inputs[..|inputs| - 1], args); }
  }

  /** An instruction with register inputs, no outputs and no links writes what its body says. */
  lemma PlainWriters(p: Modulus, g: Program, d: InstrDef, args: seq<AsmExpr>, r: string)
    requires InstrNamesDistinct(Defs(g)) && d in Defs(g) && |args| == |d.inputs|
    requires d.outputs == [] && d.links == [] && forall i :: 0 <= i < |d.inputs| ==> d.inputs[i].InReg?
    ensures InvocationOk(g, Invoke(d.name, args))
    ensures Writers(p, g, Invoke(d.name, args), r) == BodyWriters(d.body, map[], r)
  {
    ActiveDef(g, d, args);
    NoInputsNoLiterals(p, g.rom, d.inputs, args);
    assert args[|d.inputs|..] == [];
  }

  lemma ResetAction(p: Modulus, src: Source)
    requires Names(Generated(src))
    ensures var g := Generated(src); var act := Invoke(RESET, []);
            && InvocationOk(g, act)
            && Writers(p, g, act, PcName(g.m)) == []
            && forall w :: HasReg(src.m.regs, w, Write) ==> Writers(p, g, act, w) == [Computed(Num(0))]
  {
    var g := Generated(src);
    var d := ResetInstr(src.m);
    var ws := RegNames(src.m.regs, Write);
    GeneratedRegs(src);
    GeneratedDefs(src);
    RegNamesDistinct(g.m.regs, Write);
    DisjointKinds(g.m.regs, Pc, Write);
    forall r ensures Writers(p, g, Invoke(RESET, []), r) == (if r in ws then [Computed(Num(0))] else []) {
      PlainWriters(p, g, d, [], r);
      ResetWriters(ws, r);
    }
    PlainWriters(p, g, d, [], "");
    assert RegNames(g.m.regs, Pc)[0] in RegNames(g.m.regs, Pc);
  }

  lemma OneUpdate(r: string, e: Expr)
    ensures BodyWriters([Identity(Next(Named(r)), e)], map[], r) == [Computed(BindLiterals(e, map[]))]
  {
    var body := [Identity(Next(Named(r)), e)];
    assert body[1..] == [];
    assert BodyWriters(body[1..], map[], r) == [];
  }

  lemma JumpAction(p: Modulus, src: Source)
    requires Names(Generated(src))
    ensures var g := Generated(src); var act := Invoke(JUMP, []);
            && InvocationOk(g, act)
            && Writers(p, g, act, PcName(g.m)) == [Computed(Col(Named(OPERATION_ID)))]
  {
    var g := Generated(src);
    GeneratedRegs(src);
    GeneratedDefs(src);
    PlainWriters(p, g, JumpInstr(src.m), [], PcName(g.m));
    OneUpdate(PcName(g.m), Col(Named(OPERATION_ID)));
  }

  lemma ReturnAction(p: Modulus, src: Source, args: seq<AsmExpr>)
    requires Names(Generated(src)) && InvocationOk(Generated(src), Invoke(RETURN, args))
    ensures var g := Generated(src); var act := Invoke(RETURN, args);
            && |args| == g.outputCount
            && InstrOf(g, act) == ReturnInstr(g.outputCount, PcName(src.m))
            && Writers(p, g, act, PcName(g.m)) == [Computed(Num(0))]
  {
    var g := Generated(src);
    var d := ReturnInstr(g.outputCount, PcName(src.m));
    GeneratedRegs(src);
    GeneratedDefs(src);
    FindInstrUnique(Defs(g), d);
    PlainWriters(p, g, d, args, PcName(g.m));
    OneUpdate(PcName(g.m), Num(0));
  }

  // ----- single steps -----

  /** The parts of a step that the block argument uses. */
  ghost predicate Step(p: Modulus, src: Source, cur: Row, nxt: Row, last: bool) {
    var g := Generated(src);
    && (forall c :: Observable(c) ==> 0 <= cur(c) < p && 0 <= nxt(c) < p)
    && cur(LastStep) == (if last then 1 else 0)
    && 0 <= PcOf(g, cur) < |g.rom|
    && var act := ActionAt(g, PcOf(g, cur));
    && InvocationOk(g, act)
    && cur(InstrFlag(RETURN)) == IsActive(act, RETURN)
    && SimpleRegistersOk(p, g, act, cur, nxt, last)
    && (last && RegDecl(PcName(g.m), Pc) in g.m.regs ==> PcOf(g, nxt) == 0)
    && Holds(p, BlockEnforcer(), cur, nxt)
  }

  /** At most one writer, and that one always takes effect. */
  predicate Simple(ws: seq<Writer>) { |ws| <= 1 && forall w :: w in ws ==> !w.AnyIf? }

  ghost predicate SimpleRegistersOk(p: Modulus, g: Program, act: Action, cur: Row, nxt: Row, last: bool)
    requires InvocationOk(g, act)
  {
    forall r :: r in g.m.regs && r.ty != Assignment && Simple(Writers(p, g, act, r.name)) ==> RegisterOk(p, g, act, r, cur, nxt, last)
  }

  /** A run, or a run that adds up the values of all writers. */
  ghost predicate AnyRun(p: Modulus, g: Program, t: seq<Row>) { IsRun(p, g, t) || IsSumRun(p, g, t) }

  lemma {:induction false} FrameAt(p: Modulus, g: Program, t: seq<Row>, q: nat)
    requires AnyRun(p, g, t) && q < |t|
    ensures FrameOk(p, g, t[q], t[NextIndex(q, |t|)], q, |t|)
  {
    if IsRun(p, g, t) { assert StepOk(p, g, t[q], t[NextIndex(q, |t|)], q, |t|); } else { assert SumStepOk(p, g, t[q], t[NextIndex(q, |t|)], q, |t|); }
  }

  /** On registers with a simple writer both kinds of run agree. */
  lemma {:induction false} SimpleRegister(p: Modulus, g: Program, t: seq<Row>, q: nat, r: RegDecl)
    requires AnyRun(p, g, t) && q < |t| && FrameOk(p, g, t[q], t[NextIndex(q, |t|)], q, |t|) && r in g.m.regs && r.ty != Assignment
    requires Simple(Writers(p, g, ActionAt(g, PcOf(g, t[q])), r.name))
    ensures RegisterOk(p, g, ActionAt(g, PcOf(g, t[q])), r, t[q], t[NextIndex(q, |t|)], q == |t| - 1)
  {
    var cur, nxt := t[q], t[NextIndex(q, |t|)];
    var act := ActionAt(g, PcOf(g, cur));
    if IsRun(p, g, t) {
      assert StepOk(p, g, cur, nxt, q, |t|);
    } else {
      assert SumStepOk(p, g, cur, nxt, q, |t|);
      SimpleActive(p, Writers(p, g, act, r.name), cur, nxt);
      RegisterOkIff(p, g, act, r, cur, nxt, q == |t| - 1);
    }
  }

  lemma {:induction false} SimpleRegisters(p: Modulus, g: Program, t: seq<Row>, q: nat)
    requires AnyRun(p, g, t) && q < |t| && FrameOk(p, g, t[q], t[NextIndex(q, |t|)], q, |t|)
    ensures SimpleRegistersOk(p, g, ActionAt(g, PcOf(g, t[q])), t[q], t[NextIndex(q, |t|)], q == |t| - 1)
  {
    forall r | r in g.m.regs && r.ty != Assignment && Simple(Writers(p, g, ActionAt(g, PcOf(g, t[q])), r.name))
      ensures RegisterOk(p, g, ActionAt(g, PcOf(g, t[q])), r, t[q], t[NextIndex(q, |t|)], q == |t| - 1)
    {
      SimpleRegister(p, g, t, q, r);
    }
  }

  lemma SimpleActive(p: Modulus, ws: seq<Writer>, cur: Row, nxt: Row)
    requires Simple(ws)
    ensures |ActiveWriters(p, ws, cur, nxt)| <= 1
  {
    if ws != [] { assert ActiveWriters(p, ws[1..], cur, nxt) == []; }
  }

  lemma {:induction false} LastPc(p: Modulus, g: Program, t: seq<Row>)
    requires AnyRun(p, g, t) && FrameOk(p, g, t[|t| - 1], t[0], |t| - 1, |t|) && RegDecl(PcName(g.m), Pc) in g.m.regs
    ensures PcOf(g, t[0]) == 0
  {
    var q, r := |t| - 1, RegDecl(PcName(g.m), Pc);
    assert NextIndex(q, |t|) == 0;
    var act := ActionAt(g, PcOf(g, t[q]));
    if IsRun(p, g, t) {
      assert StepOk(p, g, t[q], t[NextIndex(q, |t|)], q, |t|);
      assert RegisterOk(p, g, act, r, t[q], t[0], true);
    } else {
      assert SumStepOk(p, g, t[q], t[NextIndex(q, |t|)], q, |t|);
      assert RegisterSumOk(p, g, act, r, t[q], t[0], true);
    }
  }

  lemma {:induction false} RowStep(p: Modulus, src: Source, t: seq<Row>, q: nat)
    requires AnyRun(p, Generated(src), t) && q < |t|
    ensures Step(p, src, t[q], t[NextIndex(q, |t|)], q == |t| - 1)
  {
    var g := Generated(src);
    FrameAt(p, g, t, q);
    RangeAt(p, g, t, NextIndex(q, |t|));
    SimpleRegisters(p, g, t, q);
    WrapAt(p, g, t, q);
    ReturnFlag(p, src, t[q], t[NextIndex(q, |t|)], q, |t|);
  }

  lemma RangeAt(p: Modulus, g: Program, t: seq<Row>, q: nat)
    requires AnyRun(p, g, t) && q < |t|
    ensures forall c :: Observable(c) ==> 0 <= t[q](c) < p
  {
    FrameAt(p, g, t, q);
  }

  lemma {:induction false} WrapAt(p: Modulus, g: Program, t: seq<Row>, q: nat)
    requires AnyRun(p, g, t) && q < |t|
    ensures q == |t| - 1 && RegDecl(PcName(g.m), Pc) in g.m.regs ==> PcOf(g, t[NextIndex(q, |t|)]) == 0
  {
    if q == |t| - 1 && RegDecl(PcName(g.m), Pc) in g.m.regs {
      FrameAt(p, g, t, q);
      LastPc(p, g, t);
    }
  }

  lemma {:induction false} ReturnFlag(p: Modulus, src: Source, cur: Row, nxt: Row, q: nat, n: nat)
    requires FrameOk(p, Generated(src), cur, nxt, q, n)
    ensures cur(InstrFlag(RETURN)) == IsActive(ActionAt(Generated(src), PcOf(Generated(src), cur)), RETURN)
    ensures Holds(p, BlockEnforcer(), cur, nxt)
  {
    var g := Generated(src);
    GeneratedDefs(src);
    assert ReturnInstr(MaxOutputs(src.functions), PcName(src.m)) in Defs(g);
    assert g.m.pil[|src.m.pil|] == BlockEnforcer();
  }

  lemma PcDeclared(src: Source)
    requires Names(Generated(src))
    ensures RegDecl(PcName(Generated(src).m), Pc) in Generated(src).m.regs
  {
    var g := Generated(src);
    assert RegNames(g.m.regs, Pc)[0] in RegNames(g.m.regs, Pc);
  }

  /** Executing line 0 leads to line 1 with all write registers cleared. */
  lemma ResetStep(p: Modulus, src: Source, cur: Row, nxt: Row)
    requires Names(Generated(src)) && |GeneratedRom(src)| <= p && Step(p, src, cur, nxt, false)
    requires PcOf(Generated(src), cur) == 0
    ensures PcOf(Generated(src), nxt) == 1
    ensures forall w :: HasReg(src.m.regs, w, Write) ==> nxt(Named(w)) == 0
  {
    ResetAdvances(p, src, cur, nxt);
    forall w | HasReg(src.m.regs, w, Write) ensures nxt(Named(w)) == 0 { ResetClears(p, src, cur, nxt, w); }
  }

  lemma ResetAdvances(p: Modulus, src: Source, cur: Row, nxt: Row)
    requires Names(Generated(src)) && |GeneratedRom(src)| <= p && Step(p, src, cur, nxt, false)
    requires PcOf(Generated(src), cur) == 0
    ensures PcOf(Generated(src), nxt) == 1
  {
    ResetAction(p, src);
    PcDeclared(src);
    FirstLine(src);
    NextLine(p, src, Invoke(RESET, []), cur, nxt);
  }

  lemma FirstLine(src: Source)
    ensures |GeneratedRom(src)| >= 2 && ActionAt(Generated(src), 0) == Invoke(RESET, [])
  {
  }

  /** A line that does not write the pc is followed by the next one. */
  lemma NextLine(p: Modulus, src: Source, act: Action, cur: Row, nxt: Row)
    requires Step(p, src, cur, nxt, false) && act == ActionAt(Generated(src), PcOf(Generated(src), cur))
    requires RegDecl(PcName(Generated(src).m), Pc) in Generated(src).m.regs && Writers(p, Generated(src), act, PcName(Generated(src).m)) == []
    requires PcOf(Generated(src), cur) + 1 < p
    ensures PcOf(Generated(src), nxt) == PcOf(Generated(src), cur) + 1
  {
    var pc := PcName(Generated(src).m);
    assert Observable(Named(pc));
    assert RegisterOk(p, Generated(src), act, RegDecl(pc, Pc), cur, nxt, false);
    UnwrittenPc(p, Generated(src), act, pc, cur, nxt);
  }

  lemma {:induction false} UnwrittenPc(p: Modulus, g: Program, act: Action, pc: string, cur: Row, nxt: Row)
    requires InvocationOk(g, act) && Writers(p, g, act, pc) == [] && RegisterOk(p, g, act, RegDecl(pc, Pc), cur, nxt, false)
    requires 0 <= cur(Named(pc)) && cur(Named(pc)) + 1 < p && 0 <= nxt(Named(pc)) < p
    ensures nxt(Named(pc)) == cur(Named(pc)) + 1
  {
    CanonicalEq(p, nxt(Named(pc)), cur(Named(pc)) + 1);
  }

  lemma ResetClears(p: Modulus, src: Source, cur: Row, nxt: Row, w: string)
    requires Names(Generated(src)) && |GeneratedRom(src)| <= p && Step(p, src, cur, nxt, false)
    requires PcOf(Generated(src), cur) == 0 && HasReg(src.m.regs, w, Write)
    ensures nxt(Named(w)) == 0
  {
    var g := Generated(src);
    ResetAction(p, src);
    assert ActionAt(g, 0) == Invoke(RESET, []);
    assert RegDecl(w, Write) in g.m.regs;
    assert RegisterOk(p, g, ActionAt(g, 0), RegDecl(w, Write), cur, nxt, false);
    assert Observable(Named(w));
    CanonicalZero(p, nxt(Named(w)));
  }

  /** Executing line 1 jumps to the operation id. */
  lemma JumpStep(p: Modulus, src: Source, cur: Row, nxt: Row)
    requires Names(Generated(src)) && Step(p, src, cur, nxt, false)
    requires PcOf(Generated(src), cur) == 1
    ensures PcOf(Generated(src), nxt) == IdOf(cur)
  {
    var g := Generated(src);
    JumpAction(p, src);
    PcDeclared(src);
    assert ActionAt(g, 1) == Invoke(JUMP, []);
    var pc := PcName(g.m);
    assert RegisterOk(p, g, ActionAt(g, 1), RegDecl(pc, Pc), cur, nxt, false);
    assert Observable(Named(pc)) && Observable(Named(OPERATION_ID));
    CanonicalEq(p, PcOf(g, nxt), IdOf(cur));
  }

  /** A latched row executes `return`, which is not in the dispatcher, and leads to line 0. */
  lemma ReturnStep(p: Modulus, src: Source, cur: Row, nxt: Row, last: bool)
    requires Names(Generated(src)) && Step(p, src, cur, nxt, last) && Latched(cur)
    ensures PcOf(Generated(src), nxt) == 0
    ensures PcOf(Generated(src), cur) > 1
  {
    var g := Generated(src);
    var act := ActionAt(g, PcOf(g, cur));
    assert act == Invoke(RETURN, act.args);
    ReturnAction(p, src, act.args);
    PcDeclared(src);
    var pc := PcName(g.m);
    assert RegisterOk(p, g, act, RegDecl(pc, Pc), cur, nxt, last);
    assert Observable(Named(pc));
    CanonicalZero(p, PcOf(g, nxt));
    assert ActionAt(g, 0) == Invoke(RESET, []) && ActionAt(g, 1) == Invoke(JUMP, []);
  }

  /** The pc of the first row is forced to 0. */
  lemma WrapStep(p: Modulus, src: Source, cur: Row, nxt: Row)
    requires Names(Generated(src)) && Step(p, src, cur, nxt, true)
    ensures PcOf(Generated(src), nxt) == 0
  {
    PcDeclared(src);
  }

  lemma {:induction false} NoChangeValue(cur: Row, nxt: Row)
    ensures Eval(BlockEnforcer().lhs, cur, nxt)
            == (1 - cur(LastStep)) * (1 - cur(InstrFlag(RETURN))) * (nxt(Named(OPERATION_ID)) - cur(Named(OPERATION_ID)))
  {
    var a, b := Sub(Num(1), Col(LastStep)), Sub(Num(1), Col(InstrFlag(RETURN)));
    var d := Sub(Next(Named(OPERATION_ID)), Col(Named(OPERATION_ID)));
    assert Eval(a, cur, nxt) == 1 - cur(LastStep);
    assert Eval(b, cur, nxt) == 1 - cur(InstrFlag(RETURN));
    assert Eval(Mul(a, b), cur, nxt) == Eval(a, cur, nxt) * Eval(b, cur, nxt);
    assert Eval(d, cur, nxt) == nxt(Named(OPERATION_ID)) - cur(Named(OPERATION_ID));
    assert Eval(Mul(Mul(a, b), d), cur, nxt) == Eval(Mul(a, b), cur, nxt) * Eval(d, cur, nxt);
  }

  /** The block enforcer keeps the operation id except after a return. */
  lemma {:induction false} IdKept(p: Modulus, src: Source, cur: Row, nxt: Row)
    requires Step(p, src, cur, nxt, false) && !Latched(cur)
    ensures IdOf(nxt) == IdOf(cur)
  {
    assert Observable(Named(OPERATION_ID)) && Observable(InstrFlag(RETURN));
    EnforcedId(p, cur, nxt);
  }

  lemma {:induction false} EnforcedId(p: Modulus, cur: Row, nxt: Row)
    requires Holds(p, BlockEnforcer(), cur, nxt) && cur(LastStep) == 0 && cur(InstrFlag(RETURN)) == 0
    requires 0 <= IdOf(cur) < p && 0 <= IdOf(nxt) < p
    ensures IdOf(nxt) == IdOf(cur)
  {
    NoChangeValue(cur, nxt);
    OneTimesOne(1 - cur(LastStep), 1 - cur(InstrFlag(RETURN)), IdOf(nxt) - IdOf(cur));
    CongZeroDiff(p, IdOf(nxt), IdOf(cur));
    CanonicalEq(p, IdOf(nxt), IdOf(cur));
  }

  lemma OneTimesOne(a: int, b: int, c: int)
    requires a == 1 && b == 1
    ensures a * b * c == c
  {
  }

  /** Outside of line 0 the inputs are kept. */
  lemma InputKept(p: Modulus, src: Source, cur: Row, nxt: Row, k: nat)
    requires Step(p, src, cur, nxt, false) && k < MaxInputs(src.functions)
    requires var g := Generated(src); var act := ActionAt(g, PcOf(g, cur));
             IsActive(act, RESET) == 0 && Writers(p, g, act, InputName(k)) == []
    ensures nxt(Named(InputName(k))) == cur(Named(InputName(k)))
  {
    var g := Generated(src);
    var r := RegDecl(InputName(k), ReadOnly);
    assert r in g.m.regs by { assert g.m.regs[|src.m.regs| + k] == r; }
    assert RegisterOk(p, g, ActionAt(g, PcOf(g, cur)), r, cur, nxt, false);
    assert Observable(Named(r.name));
    CanonicalEq(p, nxt(Named(r.name)), cur(Named(r.name)));
  }

  // ----- blocks -----

  predicate Cleared(src: Source, row: Row) {
    forall w :: w in RegNames(src.m.regs, Write) ==> row(Named(w)) == 0
  }

  predicate SameInputs(src: Source, row: Row, row': Row) {
    forall k :: 0 <= k < MaxInputs(src.functions) ==> row(Named(InputName(k))) == row'(Named(InputName(k)))
  }

  /** What two consecutive rows of a table say about control flow. */
  predicate Flow(src: Source, pc: string, cur: Row, nxt: Row) {
    && (cur(Named(pc)) == 0 ==> nxt(Named(pc)) == 1 && Cleared(src, nxt))
    && (cur(Named(pc)) == 1 ==> nxt(Named(pc)) == IdOf(cur))
    && (Latched(cur) ==> nxt(Named(pc)) == 0)
    && (!Latched(cur) ==> IdOf(nxt) == IdOf(cur))
    && (!Latched(cur) && cur(Named(pc)) != 0 ==> SameInputs(src, nxt, cur))
  }

  lemma FlowOfStep(p: Modulus, src: Source, cur: Row, nxt: Row)
    requires Names(Generated(src)) && |GeneratedRom(src)| <= p && Step(p, src, cur, nxt, false)
    requires ReservedNames(p, src)
    ensures Flow(src, PcName(src.m), cur, nxt)
  {
    var g := Generated(src);
    GeneratedRegs(src);
    if PcOf(g, cur) == 0 { ResetStep(p, src, cur, nxt); }
    if PcOf(g, cur) == 1 { JumpStep(p, src, cur, nxt); }
    if Latched(cur) {
      ReturnStep(p, src, cur, nxt, false);
    } else {
      IdKept(p, src, cur, nxt);
      if PcOf(g, cur) != 0 { InputsKept(p, src, cur, nxt); }
    }
  }

  lemma InputsKept(p: Modulus, src: Source, cur: Row, nxt: Row)
    requires Names(Generated(src)) && Step(p, src, cur, nxt, false) && ReservedNames(p, src) && PcOf(Generated(src), cur) != 0
    ensures SameInputs(src, nxt, cur)
  {
    var g := Generated(src);
    var line := PcOf(g, cur);
    forall k | 0 <= k < MaxInputs(src.functions) ensures nxt(Named(InputName(k))) == cur(Named(InputName(k))) {
      assert Writers(p, g, ActionOf(g.rom[line]), InputName(k)) == [];
      InputKept(p, src, cur, nxt, k);
    }
  }

  /** The flow facts of a whole table. */
  predicate TableFlow(src: Source, pc: string, t: seq<Row>) {
    && |t| > 0 && t[0](Named(pc)) == 0
    && (forall q :: 0 <= q < |t| - 1 ==> Flow(src, pc, t[q], t[q + 1]))
    && (forall q :: 0 <= q < |t| && Latched(t[q]) ==> t[q](Named(pc)) > 1)
  }

  lemma StartsAtZero(p: Modulus, src: Source, t: seq<Row>)
    requires Names(Generated(src)) && AnyRun(p, Generated(src), t)
    ensures t[0](Named(PcName(src.m))) == 0
  {
    GeneratedRegs(src);
    WrapRow(p, src, t);
    WrapStep(p, src, t[|t| - 1], t[0]);
  }

  lemma WrapRow(p: Modulus, src: Source, t: seq<Row>)
    requires AnyRun(p, Generated(src), t)
    ensures Step(p, src, t[|t| - 1], t[0], true)
  {
    RowStep(p, src, t, |t| - 1);
    assert NextIndex(|t| - 1, |t|) == 0;
  }

  lemma FlowAt(p: Modulus, src: Source, t: seq<Row>, q: nat)
    requires WellFormed(p, Generated(src)) && ReservedNames(p, src) && AnyRun(p, Generated(src), t) && q + 1 < |t|
    ensures Flow(src, PcName(src.m), t[q], t[q + 1])
  {
    NextStep(p, src, t, q);
    FlowOfStep(p, src, t[q], t[q + 1]);
  }

  lemma NextStep(p: Modulus, src: Source, t: seq<Row>, q: nat)
    requires AnyRun(p, Generated(src), t) && q + 1 < |t|
    ensures Step(p, src, t[q], t[q + 1], false)
  {
    RowStep(p, src, t, q);
  }

  lemma LatchAt(p: Modulus, src: Source, t: seq<Row>, q: nat)
    requires WellFormed(p, Generated(src)) && AnyRun(p, Generated(src), t) && q < |t| && Latched(t[q])
    ensures t[q](Named(PcName(src.m))) > 1
    ensures t[NextIndex(q, |t|)](Named(PcName(src.m))) == 0
  {
    GeneratedRegs(src);
    RowStep(p, src, t, q);
    ReturnStep(p, src, t[q], t[NextIndex(q, |t|)], q == |t| - 1);
  }

  lemma RunFlow(p: Modulus, src: Source, t: seq<Row>)
    requires WellFormed(p, Generated(src)) && ReservedNames(p, src) && AnyRun(p, Generated(src), t)
    ensures TableFlow(src, PcName(src.m), t)
  {
    StartsAtZero(p, src, t);
    forall q | 0 <= q < |t| - 1 ensures Flow(src, PcName(src.m), t[q], t[q + 1]) {
      FlowAt(p, src, t, q);
    }
    forall q | 0 <= q < |t| && Latched(t[q]) ensures t[q](Named(PcName(src.m))) > 1 {
      LatchAt(p, src, t, q);
    }
  }

  /** Rows `s..r` belong to one block that was entered through the dispatcher at row `s`. */
  predicate Block(src: Source, pc: string, t: seq<Row>, s: nat, r: nat) {
    && s <= r < |t|
    && t[s](Named(pc)) == 0
    && (forall q :: s < q <= r ==> t[q](Named(pc)) != 0)
    && (forall q :: s <= q < r ==> !Latched(t[q]))
    && (forall q :: s <= q <= r ==> IdOf(t[q]) == IdOf(t[s]))
    && (s < r ==> t[s + 1](Named(pc)) == 1 && Cleared(src, t[s + 1]))
    && (forall q :: s < q <= r ==> SameInputs(src, t[q], t[s + 1]))
    && (s + 1 < r ==> t[s + 2](Named(pc)) == IdOf(t[r]))
  }

  lemma {:induction false} RowInBlock(src: Source, pc: string, t: seq<Row>, r: nat) returns (s: nat)
    requires TableFlow(src, pc, t) && r < |t|
    ensures Block(src, pc, t, s, r)
  {
    if t[r](Named(pc)) == 0 {
      s := r;
    } else {
      s := RowInBlock(src, pc, t, r - 1);
      assert Flow(src, pc, t[r - 1], t[r]);
      assert !Latched(t[r - 1]);
      assert Flow(src, pc, t[s], t[s + 1]);
      if s + 1 < r { assert Flow(src, pc, t[s + 1], t[s + 2]); }
    }
  }

  /** Every row of an accepted table lies in a block: the block starts at line 0, clears the write
      registers, goes on to line 1 and from there to the operation id, and keeps id and inputs. */
  lemma EveryRowInBlock(p: Modulus, src: Source, t: seq<Row>, r: nat)
    requires WellFormed(p, Generated(src)) && ReservedNames(p, src) && AnyRun(p, Generated(src), t) && r < |t|
    ensures exists s :: Block(src, PcName(src.m), t, s, r)
  {
    RunFlow(p, src, t);
    var s := RowInBlock(src, PcName(src.m), t, r);
  }

  /** A latched row exposes the id and inputs of a run that entered the ROM at the operation id; if
      the id belongs to a function, that is the function's first batch. */
  lemma LatchedRow(p: Modulus, src: Source, t: seq<Row>, r: nat)
    requires WellFormed(p, Generated(src)) && ReservedNames(p, src) && AnyRun(p, Generated(src), t)
    requires r < |t| && Latched(t[r])
    ensures exists s: nat :: Block(src, PcName(src.m), t, s, r) && s + 2 <= r && t[s + 2](Named(PcName(src.m))) == IdOf(t[r])
    ensures forall k :: 0 <= k < |src.functions| && |src.functions[k].body| > 0 && IdOf(t[r]) == OperationIdOf(src, k) ==>
              EntersFunction(src, src.functions[k], IdOf(t[r]))
    ensures t[NextIndex(r, |t|)](Named(PcName(src.m))) == 0
  {
    RunFlow(p, src, t);
    var s := RowInBlock(src, PcName(src.m), t, r);
    assert Latched(t[r]) && t[r](Named(PcName(src.m))) > 1;
    assert s + 2 <= r;
    forall k | 0 <= k < |src.functions| && |src.functions[k].body| > 0
      ensures EntersFunction(src, src.functions[k], OperationIdOf(src, k))
    {
      OperationIdIsEntry(src, k);
    }
    LatchAt(p, src, t, r);
  }

  predicate EntersFunction(src: Source, f: Function, line: int) {
    && 0 <= line < |GeneratedRom(src)| && |f.body| > 0
    && GeneratedRom(src)[line] == [Label("_" + f.name)] + TranslateBatch(f.inputs, MaxOutputs(src.functions), f.body[0])
  }

  // ----- outputs -----

  lemma OutputNamesDiffer(i: nat, j: nat)
    requires OutputName(i) == OutputName(j)
    ensures i == j
  {
    assert OutputName(i)[8..] == Digits(i) && OutputName(j)[8..] == Digits(j);
    DigitsInjective(i, j);
  }

  /** The k-th output column of a latched row holds the k-th argument of the generated return. */
  lemma LatchedArgument(p: Modulus, src: Source, t: seq<Row>, r: nat, k: nat)
    requires WellFormed(p, Generated(src)) && AnyRun(p, Generated(src), t) && r < |t| && Latched(t[r])
    requires k < MaxOutputs(src.functions)
    ensures 0 <= PcOf(Generated(src), t[r]) < |GeneratedRom(src)|
    ensures var act := ActionOf(GeneratedRom(src)[PcOf(Generated(src), t[r])]);
            && act.Invoke? && act.instr == RETURN && |act.args| == MaxOutputs(src.functions)
            && Reads(p, act.args[k], t[r](Named(OutputName(k))), t[r])
  {
    var g := Generated(src);
    LatchedAction(p, src, t, r);
    var act := ActionAt(g, PcOf(g, t[r]));
    ReturnRoles(src, act, k);
    OutputDeclared(src, k);
    AssignOfRun(p, g, t, r, OutputName(k));
  }

  lemma OutputDeclared(src: Source, k: nat)
    requires k < MaxOutputs(src.functions)
    ensures HasReg(Generated(src).m.regs, OutputName(k), Assignment)
  {
    assert Generated(src).m.regs[|src.m.regs| + MaxInputs(src.functions) + k] == RegDecl(OutputName(k), Assignment);
  }

  /** A latched row executes a return. */
  lemma LatchedAction(p: Modulus, src: Source, t: seq<Row>, r: nat)
    requires WellFormed(p, Generated(src)) && AnyRun(p, Generated(src), t) && r < |t| && Latched(t[r])
    ensures var g := Generated(src);
            && 0 <= PcOf(g, t[r]) < |g.rom|
            && var act := ActionAt(g, PcOf(g, t[r]));
            && InvocationOk(g, act) && act.Invoke? && act.instr == RETURN && |act.args| == g.outputCount
            && InstrOf(g, act) == ReturnInstr(g.outputCount, PcName(src.m))
  {
    RowStep(p, src, t, r);
    var act := ActionAt(Generated(src), PcOf(Generated(src), t[r]));
    assert act == Invoke(RETURN, act.args);
    ReturnAction(p, src, act.args);
  }

  lemma AssignOfRun(p: Modulus, g: Program, t: seq<Row>, r: nat, a: string)
    requires AnyRun(p, g, t) && r < |t| && HasReg(g.m.regs, a, Assignment)
    ensures 0 <= PcOf(g, t[r]) < |g.rom| && InvocationOk(g, ActionAt(g, PcOf(g, t[r])))
    ensures AssignOk(p, g, ActionAt(g, PcOf(g, t[r])), a, t[r])
  {
    FrameAt(p, g, t, r);
  }

  lemma ReturnRoles(src: Source, act: Action, k: nat)
    requires var g := Generated(src);
             && InvocationOk(g, act) && act.Invoke? && |act.args| == g.outputCount
             && InstrOf(g, act) == ReturnInstr(g.outputCount, PcName(src.m))
    requires k < MaxOutputs(src.functions)
    ensures RoleOf(Generated(src), act, OutputName(k)) == Reading(act.args[k])
  {
    var d := InstrOf(Generated(src), act);
    assert d.inputs[k] == InReg(OutputName(k));
    var j := InputIndex(d.inputs, OutputName(k)).value;
    assert d.inputs[j] == InReg(OutputName(j));
    OutputNamesDiffer(j, k);
  }

  // ----- accepted tables -----

  /** Every table that satisfies the compiled constraints of a generated program decomposes into
      blocks, and each of its latched rows ends a run that was entered at the exposed operation id. */
  lemma AcceptedTableInBlocks(p: Modulus, src: Source, height: nat, t: seq<Row>, r: nat)
    requires WellFormed(p, Generated(src)) && ReservedNames(p, src)
    requires Satisfies(p, Generated(src), height, t) && r < |t|
    ensures exists s: nat :: Block(src, PcName(src.m), t, s, r) && (Latched(t[r]) ==> s + 2 <= r && t[s + 2](Named(PcName(src.m))) == IdOf(t[r]))
  {
    SatisfyingTableSums(p, Generated(src), height, t);
    if Latched(t[r]) { LatchedRow(p, src, t, r); } else { EveryRowInBlock(p, src, t, r); }
  }
}
