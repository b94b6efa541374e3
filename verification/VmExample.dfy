/** Small programs that meet the conditions of the compilation theorem: one line that increments a
    register through an assignment register, and one line whose instruction has two links that name
    the same register. */
module VmExample {
  import opened Options
  import opened Congruence
  import opened Pil
  import opened Asm
  import opened VmCompile
  import opened VmAffine
  import opened VmTrace
  import opened VmRegisters
  import opened VmTheorem
  import opened VmRuns

  const COUNTER: Program := Program(
    Machine([RegDecl("pc", Pc), RegDecl("X", Assignment), RegDecl("A", Write)], [], []),
    0, [[Assign("A", "X", Bin(AddOp, Ref("A"), Number(1)))]])

  lemma CounterRegisters(m: Machine)
    requires m == COUNTER.m
    ensures RegNames(m.regs, Pc) == ["pc"] && HasReg(m.regs, "X", Assignment) && HasReg(m.regs, "A", Write) && "A" in ReadRegs(m)
    ensures NamesDistinct(m.regs) && forall r :: r in m.regs ==> r.ty != ReadOnly
  {
    var regs := m.regs;
    assert regs[0] == RegDecl("pc", Pc) && regs[1] == RegDecl("X", Assignment) && regs[2] == RegDecl("A", Write);
    assert regs[1..][1..] == [regs[2]] && regs[1..][1..][1..] == [];
  }

  function CounterTerms(p: Modulus): seq<Term> { [Term(1, RegisterPart("A"))] + [Term(Rep(p, 1), ConstantPart)] }

  /** The code line of the program. */
  function CounterLine(p: Modulus): CodeLine {
    CodeLine(map["X" := ["A"]], map["X" := CounterTerms(p)], {}, [])
  }

  lemma CounterBatch(p: Modulus, g: Program)
    requires |g.rom| == 1 && g.rom[0] == [Assign("A", "X", Bin(AddOp, Ref("A"), Number(1)))]
    ensures HandleBatch(p, g, g.rom[0]) == Some(CounterLine(p))
  {
    assert ProcessValue(p, Number(1)) == Some([Term(Rep(p, 1), ConstantPart)]);
    assert ProcessValue(p, Ref("A")) == Some([Term(1, RegisterPart("A"))]);
  }

  lemma OneBatch(p: Modulus, g: Program, b: Batch, line: CodeLine)
    requires HandleBatch(p, g, b) == Some(line)
    ensures CodeLines(p, g, [b]) == Some([line])
  {
    assert [b][..0] == [];
    assert CodeLines(p, g, []) == Some([]);
    assert [] + [line] == [line];
  }

  lemma OneLine(line: CodeLine)
    requires line.labels == {}
    ensures LabelPositions([line]).Some?
  {
    assert [line][..0] == [];
    assert LabelPositions([]) == Some(map[]);
  }

  lemma CounterLineOk(p: Modulus, m: Machine, pos: map<string, nat>)
    requires HasReg(m.regs, "X", Assignment) && HasReg(m.regs, "A", Write) && "A" in ReadRegs(m)
    ensures LineOk(m, pos, CounterLine(p))
  {
  }

  lemma CounterAccepted(p: Modulus, g: Program)
    requires g == COUNTER
    ensures Accepted(p, g)
  {
    var line := CounterLine(p);
    CounterBatch(p, g);
    OneBatch(p, g, g.rom[0], line);
    assert g.rom == [g.rom[0]];
    OneLine(line);
    CounterRegisters(g.m);
    CounterLineOk(p, g.m, LabelPositions([line]).value);
  }

  lemma ReturnOk(pc: string, outputs: nat)
    ensures InstrOk(ReturnInstr(outputs, pc))
  {
    var d := ReturnInstr(outputs, pc);
    assert d.body[1..] == [] && BodyDefinitions(d, []) == [];
    assert ItemDefinitions(d, d.body[0]) == [];
  }

  lemma CounterIsWellFormed(p: Modulus, g: Program)
    requires g == COUNTER
    ensures WellFormed(p, g)
  {
    CounterAccepted(p, g);
    CounterRegisters(g.m);
    assert Defs(g) == [ReturnInstr(0, "pc")];
    ReturnOk("pc", 0);
  }

  // ----- two links that name the same register -----

  /** An instruction with two links, under the flags `f` and `h`, that both name `A'`. */
  function Load(f: Expr, h: Expr): InstrDef {
    InstrDef("load", [], [], [LinkDecl(f, ["A"]), LinkDecl(h, ["A"])], [])
  }

  /** A program with one line that invokes the instruction. */
  function Loads(f: Expr, h: Expr): Program {
    Program(Machine([RegDecl("pc", Pc), RegDecl("W", Write), RegDecl("A", Write)], [Load(f, h)], []), 0, [[Instruction("load", [])]])
  }

  lemma LoadRegisters(m: Machine)
    requires m.regs == [RegDecl("pc", Pc), RegDecl("W", Write), RegDecl("A", Write)]
    ensures RegNames(m.regs, Pc) == ["pc"] && NamesDistinct(m.regs) && forall r :: r in m.regs ==> r.ty != ReadOnly
  {
    var regs := m.regs;
    assert regs[0] == RegDecl("pc", Pc) && regs[1] == RegDecl("W", Write) && regs[2] == RegDecl("A", Write);
    assert regs[1..][1..] == [regs[2]] && [regs[2]][1..] == [];
    assert RegNames([regs[2]], Pc) == RegNames([], Pc) == [];
    assert RegNames(regs[1..], Pc) == [];
  }

  lemma LoadInstrs(g: Program, f: Expr, h: Expr)
    requires g == Loads(f, h)
    ensures Defs(g) == [Load(f, h), ReturnInstr(0, "pc")] && InstrOf(g, Invoke("load", [])) == Load(f, h)
  {
    LoadRegisters(g.m);
    assert Defs(g)[0] == Load(f, h);
  }

  lemma LoadAccepted(p: Modulus, g: Program, f: Expr, h: Expr)
    requires g == Loads(f, h)
    ensures Accepted(p, g)
  {
    var line := CodeLine(map[], map[], {}, [("load", [])]);
    LoadInstrs(g, f, h);
    assert HandleInputs(p, [], []) == Some(Inputs(map[], [])) && HandleOutputs([], []) == Some(map[]);
    assert HandleStatement(p, g, Instruction("load", [])) == Some(line);
    assert HandleBatch(p, g, g.rom[0]) == Some(line);
    OneBatch(p, g, g.rom[0], line);
    assert g.rom == [g.rom[0]];
    OneLine(line);
  }

  lemma LoadsIsWellFormed(p: Modulus, g: Program, f: Expr, h: Expr)
    requires g == Loads(f, h) && All(f, Observable) && All(h, Observable)
    ensures WellFormed(p, g)
  {
    LoadAccepted(p, g, f, h);
    LoadRegisters(g.m);
    LoadInstrs(g, f, h);
    ReturnOk("pc", 0);
    assert BodyDefinitions(Load(f, h), []) == [];
    assert InstrOk(Load(f, h));
  }

  lemma LoadLinks(f: Expr, h: Expr, r: string)
    ensures LinkWriters([LinkDecl(f, ["A"]), LinkDecl(h, ["A"])], r) == if r == "A" then [AnyIf(f), AnyIf(h)] else []
  {
    var k, l := LinkDecl(f, ["A"]), LinkDecl(h, ["A"]);
    assert [k, l][1..] == [l] && [l][1..] == [];
    assert r in k.nextRegs <==> r == "A";
    assert LinkWriters([l], r) == (if r == "A" then [AnyIf(h)] else []) + LinkWriters([], r);
  }

  /** The writers of `A` on the line are the two links; other registers have none. */
  lemma LoadWriters(p: Modulus, g: Program, f: Expr, h: Expr, r: string)
    requires g == Loads(f, h)
    ensures ActionAt(g, 0) == Invoke("load", []) && InvocationOk(g, ActionAt(g, 0))
    ensures Writers(p, g, ActionAt(g, 0), r) == if r == "A" then [AnyIf(f), AnyIf(h)] else []
  {
    LoadInstrs(g, f, h);
    LoadLinks(f, h, r);
    assert g.rom[0] == [Instruction("load", [])];
    assert OutputWriters([], [], r) == [] && BodyWriters([], map[], r) == [];
  }

  lemma TwoActive(p: Modulus, f: Expr, h: Expr, cur: Row, nxt: Row)
    ensures ActiveWriters(p, [AnyIf(f), AnyIf(h)], cur, nxt)
            == (if Cong(p, Eval(f, cur, nxt), 1) then [AnyIf(f)] else []) + (if Cong(p, Eval(h, cur, nxt), 1) then [AnyIf(h)] else [])
  {
    var v, w := AnyIf(f), AnyIf(h);
    assert [v, w][1..] == [w] && [w][1..] == [];
    assert ActiveWriters(p, [], cur, nxt) == [];
    assert ActiveWriters(p, [w], cur, nxt) == if TakesEffect(p, w, cur, nxt) then [w] else [];
  }

  lemma LoadExclusive(p: Modulus, g: Program, f: Expr, h: Expr, cur: Row, nxt: Row, r: string)
    requires g == Loads(f, h) && InvocationOk(g, ActionAt(g, 0)) && !(Cong(p, Eval(f, cur, nxt), 1) && Cong(p, Eval(h, cur, nxt), 1))
    requires IsBit(p, Eval(f, cur, nxt)) && IsBit(p, Eval(h, cur, nxt))
    ensures OneWriter(p, g, ActionAt(g, 0), r, cur, nxt)
  {
    TwoActive(p, f, h, cur, nxt);
    LoadWriters(p, g, f, h, r);
  }

  /** Links under a bit and its complement never act together, so the compilation theorem applies. */
  lemma {:induction false} ComplementaryLinks(p: Modulus, g: Program, w: Expr, cur: Row, nxt: Row)
    requires g == Loads(w, Sub(Num(1), w)) && IsBit(p, Eval(w, cur, nxt)) && cur(Named("pc")) == 0
    ensures Exclusive(p, g, cur, nxt)
  {
    var h := Sub(Num(1), w);
    Complement(p, Eval(w, cur, nxt));
    assert Eval(h, cur, nxt) == 1 - Eval(w, cur, nxt);
    LoadWriters(p, g, w, h, "A");
    forall r | r in g.m.regs ensures OneWriter(p, g, ActionAt(g, 0), r.name, cur, nxt) { LoadExclusive(p, g, w, h, cur, nxt, r.name); }
    LoadRegisters(g.m);
  }

  lemma Complement(p: Modulus, x: int)
    requires IsBit(p, x)
    ensures IsBit(p, 1 - x) && !(Cong(p, x, 1) && Cong(p, 1 - x, 1))
  {
    if Cong(p, x, 0) { CongSub(p, 1, 1, x, 0); } else { CongSub(p, 1, 1, x, 1); }
    assert 0 % p == 0 && 1 % p == 1;
  }

  /** If both links act, either of them alone would leave `A` free, but together they force it to keep
      its value: the compiled constraints reject every run that changes it. */
  lemma BothLinksAct(p: Modulus, g: Program, f: Expr, h: Expr, cur: Row, nxt: Row)
    requires g == Loads(f, h) && All(f, Observable) && All(h, Observable)
    requires Cong(p, Eval(f, cur, nxt), 1) && Cong(p, Eval(h, cur, nxt), 1)
    requires Accepted(p, g) && AtLine(p, g, 0, cur) && InvocationOk(g, ActionAt(g, 0))
    ensures RegisterOk(p, g, ActionAt(g, 0), RegDecl("A", Write), cur, nxt, false)
    ensures RegisterHolds(p, g, RegDecl("A", Write), cur, nxt) <==> Cong(p, nxt(Named("A")), cur(Named("A")))
  {
    var a := RegDecl("A", Write);
    LoadsIsWellFormed(p, g, f, h);
    LoadRow(p, g, f, h, cur, nxt);
    FreeForSource(p, g, ActionAt(g, 0), a, cur, nxt, AnyIf(f), AnyIf(h));
    TwoLinks(p, g, 0, a, cur, nxt, AnyIf(f), AnyIf(h));
  }

  lemma LoadRow(p: Modulus, g: Program, f: Expr, h: Expr, cur: Row, nxt: Row)
    requires g == Loads(f, h) && InvocationOk(g, ActionAt(g, 0)) && Cong(p, Eval(f, cur, nxt), 1) && Cong(p, Eval(h, cur, nxt), 1)
    ensures BitFlags(p, Writers(p, g, ActionAt(g, 0), "A"), cur, nxt) && RegDecl("A", Write) in g.m.regs
    ensures ActiveWriters(p, Writers(p, g, ActionAt(g, 0), "A"), cur, nxt) == [AnyIf(f), AnyIf(h)]
  {
    LoadWriters(p, g, f, h, "A");
    TwoActive(p, f, h, cur, nxt);
    assert RegDecl("A", Write) == g.m.regs[2];
  }

  lemma FreeForSource(p: Modulus, g: Program, act: Action, a: RegDecl, cur: Row, nxt: Row, v: Writer, w: Writer)
    requires InvocationOk(g, act) && a.ty == Write && v.AnyIf? && ActiveWriters(p, Writers(p, g, act, a.name), cur, nxt) == [v, w]
    ensures RegisterOk(p, g, act, a, cur, nxt, false)
  {
  }
}
