/** A source machine whose generated program meets the conditions of the theorems about blocks: one
    function that returns its input. */
module RomExample {
  import opened Options
  import opened Collections
  import opened Congruence
  import opened Pil
  import opened Asm
  import opened VmCompile
  import opened VmTrace
  import opened VmRegisters
  import opened VmTheorem
  import opened RomGen

  const IDENTITY: Source := Source(
    Machine([RegDecl("pc", Pc), RegDecl("A", Write)], [], []),
    [Function("f", ["x"], 1, [[Return([Ref("x")])]])])

  // ----- batches and lines in general -----

  lemma {:induction false} AllHandled(p: Modulus, g: Program, rom: Rom)
    requires forall i :: 0 <= i < |rom| ==> HandleBatch(p, g, rom[i]).Some?
    ensures CodeLines(p, g, rom).Some?
  {
    if rom != [] { AllHandled(p, g, rom[..|rom| - 1]); }
  }

  predicate DisjointLabels(lines: seq<CodeLine>) { forall i, j :: 0 <= i < j < |lines| ==> lines[i].labels !! lines[j].labels }

  lemma {:induction false} LabelsResolve(lines: seq<CodeLine>)
    requires DisjointLabels(lines)
    ensures LabelPositions(lines).Some?
    ensures forall l :: l in LabelPositions(lines).value ==> exists i :: 0 <= i < |lines| && l in lines[i].labels
  {
    if lines != [] {
      var k := |lines| - 1;
      LabelsResolve(lines[..k]);
      var acc := LabelPositions(lines[..k]).value;
      forall l | l in acc ensures l !in lines[k].labels {
        var i :| 0 <= i < k && l in lines[..k][i].labels;
        assert lines[i].labels !! lines[k].labels;
      }
    }
  }

  lemma SingleBatch(p: Modulus, g: Program, s: Stmt)
    ensures HandleBatch(p, g, [s]) == HandleStatement(p, g, s)
  {
  }

  lemma LabelledBatch(p: Modulus, g: Program, l: string, s: Stmt)
    requires HandleStatement(p, g, s).Some?
    requires HandleStatement(p, g, s).value.labels == {}
    ensures HandleBatch(p, g, [Label(l), s]) == Some(HandleStatement(p, g, s).value.(labels := {l}))
  {
    var b := [Label(l), s];
    assert b[..1] == [Label(l)];
    SingleBatch(p, g, Label(l));
    var line := HandleStatement(p, g, s).value;
    assert {l} + line.labels == {l};
    assert line.(labels := {l}) == CodeLine(line.writes, line.value, {l}, line.instrs);
  }

  /** The line of an instruction without parameters. */
  lemma PlainInstruction(p: Modulus, g: Program, d: InstrDef)
    requires InstrNamesDistinct(Defs(g)) && d in Defs(g) && d.inputs == [] && d.outputs == []
    ensures HandleStatement(p, g, Instruction(d.name, [])) == Some(CodeLine(map[], map[], {}, [(d.name, [])]))
  {
    FindInstrUnique(Defs(g), d);
    assert HandleInputs(p, [], []) == Some(Inputs(map[], [])) && HandleOutputs([], []) == Some(map[]);
  }

  function ReturnLine(o: string, x: string): CodeLine {
    CodeLine(map[], map[o := [Term(1, RegisterPart(x))]], {}, [(RETURN, [])])
  }

  /** The line of a return of one register. */
  lemma ReturnOne(p: Modulus, g: Program, pc: string, x: string)
    requires InstrNamesDistinct(Defs(g)) && ReturnInstr(1, pc) in Defs(g)
    ensures HandleStatement(p, g, Return([Ref(x)])) == Some(ReturnLine(OutputName(0), x))
  {
    var d := ReturnInstr(1, pc);
    FindInstrUnique(Defs(g), d);
    var o := OutputName(0);
    assert d.inputs == [InReg(o)] && d.inputs[..0] == [];
    assert HandleInputs(p, [], [Ref(x)]) == Some(Inputs(map[], []));
    assert HandleInputs(p, d.inputs, [Ref(x)]) == Some(Inputs(map[o := [Term(1, RegisterPart(x))]], []));
    assert [Ref(x)][1..] == [] && HandleOutputs([], []) == Some(map[]);
  }

  predicate Atomic(e: Expr) { e.Num? || (e.Col? && e.c.Named?) }

  lemma {:induction false} AtomicBody(d: InstrDef, body: seq<Identity>)
    requires forall id :: id in body ==> Atomic(id.rhs)
    ensures BodyDefinitions(d, body) == []
  {
    if body != [] {
      assert body[0] in body;
      AtomicBody(d, body[1..]);
      assert ItemDefinitions(d, body[0]) == [];
    }
  }

  lemma AtomicInstr(d: InstrDef)
    requires d.links == [] && forall id :: id in d.body ==> Atomic(id.rhs) && TryExtractUpdate(id).Some?
    ensures InstrOk(d)
  {
    AtomicBody(d, d.body);
  }

  // ----- the generated program -----

  function In(): string { InputName(0) }

  function Out(): string { OutputName(0) }

  lemma NamesDiffer()
    ensures In() != Out() && In() != "pc" && In() != "A" && Out() != "pc" && Out() != "A"
  {
    assert In()[0] == '_' && Out()[0] == '_' && In()[1] == 'i' && Out()[1] == 'o';
  }

  lemma Registers(m: Machine)
    requires m.regs == [RegDecl("pc", Pc), RegDecl("A", Write), RegDecl(In(), ReadOnly), RegDecl(Out(), Assignment)]
    ensures NamesDistinct(m.regs) && |RegNames(m.regs, Pc)| == 1 && In() in ReadRegs(m) && HasReg(m.regs, Out(), Assignment)
  {
    NamesDiffer();
    var regs := m.regs;
    assert regs[0] == RegDecl("pc", Pc) && regs[1] == RegDecl("A", Write) && regs[2] == RegDecl(In(), ReadOnly) && regs[3] == RegDecl(Out(), Assignment);
    assert RegNames(regs[1..][1..][1..][1..], Pc) == [];
    assert RegNames(regs[1..][1..][1..], Pc) == [] && RegNames(regs[1..][1..], Pc) == [] && RegNames(regs[1..], Pc) == [];
    assert HasReg(regs, In(), ReadOnly);
  }

  function Batches(): Rom {
    [[Label("_powdr_start"), Instruction(RESET, [])], [Instruction(JUMP, [])],
     [Label("_f"), Return([Ref(In())])], [Label("_sink"), Instruction(LOOP, [])]]
  }

  lemma IdentityFunctions(fs: seq<Function>)
    requires fs == IDENTITY.functions
    ensures MaxInputs(fs) == 1 && MaxOutputs(fs) == 1 && FunctionRoms(fs, 1) == [[Label("_f"), Return([Ref(In())])]]
  {
    var f := fs[0];
    assert fs[..0] == [] && fs == [f];
    assert MaxInputs([]) == 0 && MaxOutputs([]) == 0 && FunctionRoms([], 1) == [];
    var s := TranslateStmt(f.inputs, 1, f.body[0][0]);
    assert SubstituteName(["x"], "x") == In();
    assert SubstituteExprs(f.inputs, [Ref("x")]) == [Ref(In())];
    assert PadReturn([Ref(In())], 1) == [Ref(In())];
    assert s == Return([Ref(In())]);
    assert TranslateBatch(f.inputs, 1, f.body[0]) == [s];
    assert "_" + "f" == "_f";
    assert FunctionRom(f, 1) == [[Label("_f")] + [s]];
    assert [Label("_f")] + [s] == [Label("_f"), s];
  }

  lemma IdentityMachine(m: Machine)
    requires m == IDENTITY.m
    ensures PcName(m) == "pc" && RegNames(m.regs, Write) == ["A"]
  {
    var regs := m.regs;
    assert regs[0] == RegDecl("pc", Pc) && regs[1] == RegDecl("A", Write) && regs[1..][1..] == [];
    assert RegNames(regs[1..], Pc) == [] && RegNames(regs[1..], Write) == ["A"];
  }

  /** What is generated for one function with one input and one output. */
  lemma OneFunction(src: Source, g: Program, f: Rom)
    requires g == Generated(src) && MaxInputs(src.functions) == 1 && MaxOutputs(src.functions) == 1 && FunctionRoms(src.functions, 1) == f
    requires src.m.instrs == [] && src.m.pil == []
    ensures g.m.regs == src.m.regs + [RegDecl(In(), ReadOnly)] + [RegDecl(Out(), Assignment)] && PcName(g.m) == PcName(src.m)
    ensures g.m.pil == [BlockEnforcer()] && g.outputCount == 1 && g.rom == DISPATCHER + f + SINK
    ensures Defs(g) == [JumpInstr(src.m), ResetInstr(src.m), LoopInstr(src.m), ReturnInstr(1, PcName(src.m))]
  {
    GeneratedRegs(src);
    assert InputRegs(1) == [RegDecl(In(), ReadOnly)] && OutputRegs(1) == [RegDecl(Out(), Assignment)];
  }

  lemma IdentityProgram(g: Program)
    requires g == Generated(IDENTITY)
    ensures g.m.regs == [RegDecl("pc", Pc), RegDecl("A", Write), RegDecl(In(), ReadOnly), RegDecl(Out(), Assignment)]
    ensures g.m.pil == [BlockEnforcer()] && g.outputCount == 1 && g.rom == Batches()
    ensures PcName(IDENTITY.m) == PcName(g.m) == "pc" && RegNames(IDENTITY.m.regs, Write) == ["A"]
    ensures Defs(g) == [JumpInstr(IDENTITY.m), ResetInstr(IDENTITY.m), LoopInstr(IDENTITY.m), ReturnInstr(1, "pc")]
  {
    IdentityFunctions(IDENTITY.functions);
    IdentityMachine(IDENTITY.m);
    OneFunction(IDENTITY, g, [[Label("_f"), Return([Ref(In())])]]);
  }

  lemma InstrNamesDiffer()
    ensures JUMP != RESET && JUMP != LOOP && JUMP != RETURN && RESET != LOOP && RESET != RETURN && LOOP != RETURN
  {
    assert JUMP[1] == 'j' && RESET[1] == 'r' && LOOP[1] == 'l' && RETURN[0] == 'r' && RESET[0] == '_' && JUMP[0] == '_' && LOOP[0] == '_';
  }

  lemma FourNames(ds: seq<InstrDef>, a: InstrDef, b: InstrDef, c: InstrDef, d: InstrDef)
    requires ds == [a, b, c, d] && a.name == JUMP && b.name == RESET && c.name == LOOP && d.name == RETURN
    ensures InstrNamesDistinct(ds)
  {
    InstrNamesDiffer();
  }

  lemma FourOk(ds: seq<InstrDef>, a: InstrDef, b: InstrDef, c: InstrDef, d: InstrDef)
    requires ds == [a, b, c, d] && InstrOk(a) && InstrOk(b) && InstrOk(c) && InstrOk(d)
    ensures forall x :: x in ds ==> InstrOk(x)
  {
  }

  lemma InstrNames(g: Program, m: Machine)
    requires Defs(g) == [JumpInstr(m), ResetInstr(m), LoopInstr(m), ReturnInstr(1, "pc")]
    ensures InstrNamesDistinct(Defs(g)) && forall d :: d in Defs(g) ==> InstrOk(d)
  {
    FourNames(Defs(g), JumpInstr(m), ResetInstr(m), LoopInstr(m), ReturnInstr(1, "pc"));
    AtomicInstr(JumpInstr(m));
    AtomicInstr(ResetInstr(m));
    AtomicInstr(LoopInstr(m));
    AtomicInstr(ReturnInstr(1, "pc"));
    FourOk(Defs(g), JumpInstr(m), ResetInstr(m), LoopInstr(m), ReturnInstr(1, "pc"));
  }

  function Plain(instr: string, labels: set<string>): CodeLine { CodeLine(map[], map[], labels, [(instr, [])]) }

  /** The code lines of the generated program. */
  function IdentityLines(): seq<CodeLine> {
    [Plain(RESET, {"_powdr_start"}), Plain(JUMP, {}), ReturnLine(Out(), In()).(labels := {"_f"}), Plain(LOOP, {"_sink"})]
  }

  lemma Handled(p: Modulus, g: Program)
    requires g.rom == Batches() && InstrNamesDistinct(Defs(g))
    requires Defs(g) == [JumpInstr(IDENTITY.m), ResetInstr(IDENTITY.m), LoopInstr(IDENTITY.m), ReturnInstr(1, "pc")]
    ensures CodeLines(p, g, g.rom) == Some(IdentityLines())
  {
    PlainInstruction(p, g, Defs(g)[0]);
    PlainInstruction(p, g, Defs(g)[1]);
    PlainInstruction(p, g, Defs(g)[2]);
    assert Defs(g)[3] in Defs(g);
    ReturnOne(p, g, "pc", In());
    LabelledBatch(p, g, "_powdr_start", Instruction(RESET, []));
    LabelledBatch(p, g, "_f", Return([Ref(In())]));
    LabelledBatch(p, g, "_sink", Instruction(LOOP, []));
    SingleBatch(p, g, Instruction(JUMP, []));
    LinesFrom(p, g, g.rom, IdentityLines());
  }

  lemma {:induction false} LinesFrom(p: Modulus, g: Program, rom: Rom, ls: seq<CodeLine>)
    requires |rom| == |ls| == 4 && HandleBatch(p, g, rom[0]) == Some(ls[0]) && HandleBatch(p, g, rom[1]) == Some(ls[1])
    requires HandleBatch(p, g, rom[2]) == Some(ls[2]) && HandleBatch(p, g, rom[3]) == Some(ls[3])
    ensures CodeLines(p, g, rom) == Some(ls)
  {
    forall i | 0 <= i < 4 ensures HandleBatch(p, g, rom[i]) == Some(ls[i]) { }
    AllHandled(p, g, rom);
    assert CodeLines(p, g, rom).value == ls;
  }

  lemma LinesFit(m: Machine, pos: map<string, nat>)
    requires In() in ReadRegs(m) && HasReg(m.regs, Out(), Assignment)
    ensures forall i :: 0 <= i < 4 ==> LineOk(m, pos, IdentityLines()[i])
  {
    forall i | 0 <= i < 4 ensures LineOk(m, pos, IdentityLines()[i]) { }
  }

  lemma LabelsDiffer()
    ensures DisjointLabels(IdentityLines())
  {
    assert "_powdr_start"[1] == 'p' && "_f"[1] == 'f' && "_sink"[1] == 's';
  }

  /** The generated program is one the compilation theorem speaks about. */
  lemma IdentityIsWellFormed(p: Modulus, g: Program)
    requires g == Generated(IDENTITY) && p >= 4
    ensures WellFormed(p, g)
  {
    IdentityProgram(g);
    InstrNames(g, IDENTITY.m);
    Registers(g.m);
    Handled(p, g);
    LabelsDiffer();
    LabelsResolve(IdentityLines());
    LinesFit(g.m, LabelPositions(IdentityLines()).value);
    WellFormedFrom(p, g);
  }

  lemma {:induction false} WellFormedFrom(p: Modulus, g: Program)
    requires Accepted(p, g) && |g.rom| == 4 <= p && NamesDistinct(g.m.regs) && |RegNames(g.m.regs, Pc)| == 1
    requires InstrNamesDistinct(Defs(g)) && (forall d :: d in Defs(g) ==> InstrOk(d)) && g.m.pil == [BlockEnforcer()]
    requires |Defs(g)| > 1 && Defs(g)[1].name == RESET
    ensures WellFormed(p, g)
  {
    EnforcerObservable();
    assert Defs(g)[1] in Defs(g);
  }

  lemma EnforcerObservable()
    ensures IdentityObservable(BlockEnforcer())
  {
    var noChange := Mul(Sub(Num(1), Col(LastStep)), Sub(Num(1), Col(InstrFlag(RETURN))));
    var change := Sub(Next(Named(OPERATION_ID)), Col(Named(OPERATION_ID)));
    assert All(noChange, Observable) && All(change, Observable);
    assert BlockEnforcer().lhs == Mul(noChange, change);
  }

  lemma PcOnly(p: Modulus, g: Program, d: InstrDef, args: seq<AsmExpr>, pc: string, e: Expr, r: string)
    requires InstrNamesDistinct(Defs(g)) && d in Defs(g) && |args| == |d.inputs| && d.outputs == [] && d.links == []
    requires (forall i :: 0 <= i < |d.inputs| ==> d.inputs[i].InReg?) && d.body == [Identity(Next(Named(pc)), e)] && r != pc
    ensures Unwritten(p, g, Invoke(d.name, args), r)
  {
    PlainWriters(p, g, d, args, r);
    assert d.body[1..] == [] && BodyWriters([], map[], r) == [];
  }

  predicate Unwritten(p: Modulus, g: Program, act: Action, r: string) { InvocationOk(g, act) && Writers(p, g, act, r) == [] }

  lemma IdentityWriters(p: Modulus, g: Program, m: Machine)
    requires g == Generated(IDENTITY) && m == IDENTITY.m
    ensures Unwritten(p, g, Invoke(RESET, []), In()) && Unwritten(p, g, Invoke(JUMP, []), In())
    ensures Unwritten(p, g, Invoke(RETURN, [Ref(In())]), In()) && Unwritten(p, g, Invoke(LOOP, []), In())
  {
    IdentityProgram(g);
    InstrNames(g, m);
    NamesDiffer();
    GeneratedDefs(IDENTITY);
    IdentityFunctions(IDENTITY.functions);
    WritersFrom(p, g, m, In());
  }

  lemma WritersFrom(p: Modulus, g: Program, m: Machine, r: string)
    requires InstrNamesDistinct(Defs(g)) && JumpInstr(m) in Defs(g) && ResetInstr(m) in Defs(g) && LoopInstr(m) in Defs(g) && ReturnInstr(1, "pc") in Defs(g)
    requires PcName(m) == "pc" && RegNames(m.regs, Write) == ["A"] && r != "A" && r != "pc"
    ensures Unwritten(p, g, Invoke(RESET, []), r) && Unwritten(p, g, Invoke(JUMP, []), r)
    ensures Unwritten(p, g, Invoke(RETURN, [Ref(r)]), r) && Unwritten(p, g, Invoke(LOOP, []), r)
  {
    NoReset(p, g, m, r);
    PcOnly(p, g, JumpInstr(m), [], "pc", Col(Named(OPERATION_ID)), r);
    PcOnly(p, g, ReturnInstr(1, "pc"), [Ref(r)], "pc", Num(0), r);
    PcOnly(p, g, LoopInstr(m), [], "pc", Col(Named("pc")), r);
  }

  lemma BatchActions()
    ensures ActionOf(Batches()[0]) == Invoke(RESET, []) && ActionOf(Batches()[1]) == Invoke(JUMP, [])
    ensures ActionOf(Batches()[2]) == Invoke(RETURN, [Ref(In())]) && ActionOf(Batches()[3]) == Invoke(LOOP, [])
  {
  }

  lemma NoReset(p: Modulus, g: Program, m: Machine, r: string)
    requires InstrNamesDistinct(Defs(g)) && ResetInstr(m) in Defs(g) && RegNames(m.regs, Write) == ["A"] && r != "A"
    ensures Unwritten(p, g, Invoke(RESET, []), r)
  {
    PlainWriters(p, g, ResetInstr(m), [], r);
    ResetWriters(["A"], r);
  }

  /** Nothing but the dispatcher resets, and no line writes the input. */
  lemma IdentityReservesNames(p: Modulus, src: Source)
    requires src == IDENTITY
    ensures ReservedNames(p, src)
  {
    var g := Generated(src);
    IdentityProgram(g);
    IdentityFunctions(src.functions);
    IdentityWriters(p, g, src.m);
    BatchActions();
    InstrNamesDiffer();
    AllFour(p, g);
    ReservedFrom(p, src, g);
  }

  lemma {:induction false} AllFour(p: Modulus, g: Program)
    requires |g.rom| == 4
    requires Unwritten(p, g, ActionOf(g.rom[0]), In()) && Unwritten(p, g, ActionOf(g.rom[1]), In())
    requires Unwritten(p, g, ActionOf(g.rom[2]), In()) && Unwritten(p, g, ActionOf(g.rom[3]), In())
    requires IsActive(ActionOf(g.rom[1]), RESET) == IsActive(ActionOf(g.rom[2]), RESET) == IsActive(ActionOf(g.rom[3]), RESET) == 0
    ensures forall i :: 0 <= i < |g.rom| ==> Unwritten(p, g, ActionOf(g.rom[i]), In())
    ensures forall i :: 0 < i < |g.rom| ==> IsActive(ActionOf(g.rom[i]), RESET) == 0
  {
    forall i | 0 <= i < |g.rom| ensures Unwritten(p, g, ActionOf(g.rom[i]), In()) && (i > 0 ==> IsActive(ActionOf(g.rom[i]), RESET) == 0) {
      assert i == 0 || i == 1 || i == 2 || i == 3;
    }
  }

  lemma {:induction false} ReservedFrom(p: Modulus, src: Source, g: Program)
    requires g == Generated(src) && MaxInputs(src.functions) == 1
    requires forall i :: 0 <= i < |g.rom| ==> Unwritten(p, g, ActionOf(g.rom[i]), In())
    requires forall i :: 0 < i < |g.rom| ==> IsActive(ActionOf(g.rom[i]), RESET) == 0
    ensures ReservedNames(p, src)
  {
  }
}
