/** The compiled constraints accept a table exactly when it is a run of the source program. */
module VmTheorem {
  import opened Options
  import opened Collections
  import opened Congruence
  import opened Pil
  import opened Asm
  import opened VmCompile
  import opened VmAffine
  import opened VmTrace
  import opened VmRegisters

  predicate IdentityObservable(id: Identity) {
    All(id.lhs, Observable) && All(id.rhs, Observable)
  }

  /** A program the theorem speaks about: accepted by the compiler, with distinct names and one pc. */
  ghost predicate WellFormed(p: Modulus, g: Program) {
    && Accepted(p, g)
    && 0 < |g.rom| <= p
    && NamesDistinct(g.m.regs)
    && |RegNames(g.m.regs, Pc)| == 1
    && InstrNamesDistinct(Defs(g))
    && (forall d :: d in Defs(g) ==> InstrOk(d))
    && (forall id :: id in g.m.pil ==> IdentityObservable(id))
    && ((exists r :: r in g.m.regs && r.ty == ReadOnly) ==> exists d :: d in Defs(g) && d.name == RESET)
  }

  predicate IsBit(p: Modulus, x: int) { Cong(p, x, 0) || Cong(p, x, 1) }

  /** The row carries the ROM entries of line `i`. */
  ghost predicate AtLine(p: Modulus, g: Program, i: nat, cur: Row)
    requires Accepted(p, g)
  {
    i < |g.rom| && CarriesLine(p, g, Labels(p, g), Lines(p, g)[i], cur)
  }

  function ActionAt(g: Program, i: nat): Action
    requires i < |g.rom|
  {
    ActionOf(g.rom[i])
  }

  lemma LineFacts(p: Modulus, g: Program, i: nat)
    requires Accepted(p, g) && i < |g.rom|
    ensures LineFor(p, g, ActionAt(g, i), Lines(p, g)[i]) && LineOk(g.m, Labels(p, g), Lines(p, g)[i])
    ensures InvocationOk(g, ActionAt(g, i))
  {
    BatchLine(p, g, g.rom[i]);
  }

  lemma FlagsAt(p: Modulus, g: Program, i: nat, cur: Row, d: InstrDef)
    requires Accepted(p, g) && AtLine(p, g, i, cur) && d in Defs(g)
    ensures cur(InstrFlag(d.name)) == IsActive(ActionAt(g, i), d.name)
  {
    LineFacts(p, g, i);
    assert IsLookupColumn(g, InstrFlag(d.name));
  }

  lemma {:induction false} FindInstrUnique(defs: seq<InstrDef>, d: InstrDef)
    requires InstrNamesDistinct(defs) && d in defs
    ensures FindInstr(defs, d.name) == Some(d)
  {
    if defs[0] != d {
      var k :| 0 <= k < |defs| && defs[k] == d;
      FindInstrUnique(defs[1..], d);
    }
  }

  lemma ParamsAt(p: Modulus, g: Program, i: nat, cur: Row)
    requires Accepted(p, g) && AtLine(p, g, i, cur) && ActionAt(g, i).Invoke? && InvocationOk(g, ActionAt(g, i))
    ensures ParamsHold(InstrOf(g, ActionAt(g, i)), LitsOf(p, g, ActionAt(g, i)), cur)
  {
    var act := ActionAt(g, i);
    LineFacts(p, g, i);
    LiteralsAt(p, g, act);
    ParamsFrom(p, g, Labels(p, g), act, Lines(p, g)[i], cur);
  }

  lemma LiteralsAt(p: Modulus, g: Program, act: Action)
    requires Accepted(p, g) && act.Invoke? && InvocationOk(g, act) && HandleInputs(p, InstrOf(g, act).inputs, act.args).Some?
    ensures ResolvedLiterals(p, g, Labels(p, g), act)
  {
    forall l ensures LabelPosition(g.rom, l) == (if l in Labels(p, g) then Some(Labels(p, g)[l]) else None) {
      LabelPositionsAgree(p, g, g.rom, l);
    }
    InputLiterals(p, g.rom, Labels(p, g), InstrOf(g, act).inputs, act.args);
  }

  /** The literal arguments of an invocation, with labels resolved, are what its parameters denote. */
  ghost predicate ResolvedLiterals(p: Modulus, g: Program, pos: map<string, nat>, act: Action)
    requires act.Invoke? && InvocationOk(g, act)
  {
    var names, ins := LiteralNames(InstrOf(g, act).inputs), HandleInputs(p, InstrOf(g, act).inputs, act.args);
    && ins.Some? && |ins.value.lits| == |names|
    && ParamValues(pos, names, ins.value.lits) == LitsOf(p, g, act)
    && LitsOf(p, g, act).Keys == set n | n in names
  }

  lemma ParamsFrom(p: Modulus, g: Program, pos: map<string, nat>, act: Action, line: CodeLine, cur: Row)
    requires act.Invoke? && LineFor(p, g, act, line) && InvocationOk(g, act) && ResolvedLiterals(p, g, pos, act) && CarriesLine(p, g, pos, line, cur)
    ensures ParamsHold(InstrOf(g, act), LitsOf(p, g, act), cur)
  {
    var d, lits := InstrOf(g, act), LitsOf(p, g, act);
    forall q | q in lits ensures cur(Param(d.name, q)) == lits[q] {
      assert IsLookupColumn(g, Param(d.name, q));
    }
  }

  // ----- which assignment registers are written to a register -----

  function ActiveWrites(line: CodeLine, r: string): set<string> {
    set a | a in line.writes && r in line.writes[a]
  }

  /** The assignment registers whose value the outputs of an instruction store in `r`. */
  function OutputsTo(outputs: seq<string>, targets: seq<AsmExpr>, r: string): set<string>
    requires |outputs| == |targets|
  {
    set j | 0 <= j < |outputs| && targets[j] == Ref(r) :: outputs[j]
  }

  lemma OutputsToCons(outputs: seq<string>, targets: seq<AsmExpr>, r: string)
    requires |outputs| == |targets| && outputs != []
    ensures OutputsTo(outputs, targets, r)
            == OutputsTo(outputs[1..], targets[1..], r) + (if targets[0] == Ref(r) then {outputs[0]} else {})
  {
    var rest := OutputsTo(outputs[1..], targets[1..], r);
    forall a | a in OutputsTo(outputs, targets, r) ensures a in rest || (targets[0] == Ref(r) && a == outputs[0]) {
      var j :| 0 <= j < |outputs| && targets[j] == Ref(r) && outputs[j] == a;
      if j > 0 { assert outputs[1..][j - 1] == a && targets[1..][j - 1] == Ref(r); }
    }
    forall a | a in rest ensures a in OutputsTo(outputs, targets, r) {
      var j :| 0 <= j < |outputs[1..]| && targets[1..][j] == Ref(r) && outputs[1..][j] == a;
      assert outputs[j + 1] == a && targets[j + 1] == Ref(r);
    }
  }

  lemma {:induction false} OutputSum(assigns: seq<string>, outputs: seq<string>, targets: seq<AsmExpr>, r: string, x: int, cur: Row, nxt: Row)
    requires |outputs| == |targets| && Distinct(assigns) && Distinct(outputs) && forall a :: a in outputs ==> a in assigns
    ensures AssignSum(assigns, OutputsTo(outputs, targets, r), x, cur) == WritersSum(OutputWriters(outputs, targets, r), r, x, cur, nxt)
    decreases |outputs|
  {
    if outputs == [] {
      assert OutputsTo(outputs, targets, r) == {};
      AssignSumNone(assigns, x, cur);
    } else {
      OutputsToCons(outputs, targets, r);
      OutputSum(assigns, outputs[1..], targets[1..], r, x, cur, nxt);
      var rest, ws := OutputsTo(outputs[1..], targets[1..], r), OutputWriters(outputs[1..], targets[1..], r);
      if targets[0] == Ref(r) {
        assert outputs[0] !in rest && outputs[0] in outputs;
        AssignSumAdd(assigns, rest, outputs[0], x, cur);
        assert ([FromAssign(outputs[0])] + ws)[1..] == ws;
      } else {
        assert rest + {} == rest && [] + ws == ws;
      }
    }
  }

  lemma {:induction false} NoOutputs(outputs: seq<string>, targets: seq<AsmExpr>, r: string)
    requires |outputs| == |targets| && OutputsTo(outputs, targets, r) == {}
    ensures OutputWriters(outputs, targets, r) == []
    decreases |outputs|
  {
    if outputs != [] {
      OutputsToCons(outputs, targets, r);
      assert outputs[0] !in OutputsTo(outputs, targets, r);
      NoOutputs(outputs[1..], targets[1..], r);
    }
  }

  /** The writers that go through assignment registers. */
  function AssignWriters(g: Program, act: Action, r: string): seq<Writer>
    requires InvocationOk(g, act)
  {
    match act
    case Nothing => []
    case Move(reg, a, _) => if reg == r then [FromAssign(a)] else []
    case Invoke(_, args) => var d := InstrOf(g, act); OutputWriters(d.outputs, args[|d.inputs|..], r)
  }

  /** The writes of the line are those of its assignment writers. */
  lemma ActiveWritesOf(p: Modulus, g: Program, act: Action, line: CodeLine, r: string)
    requires LineFor(p, g, act, line) && InvocationOk(g, act)
    ensures match act
            case Nothing => ActiveWrites(line, r) == {}
            case Move(reg, a, _) => ActiveWrites(line, r) == if reg == r then {a} else {}
            case Invoke(_, args) =>
              var d := InstrOf(g, act);
              ActiveWrites(line, r) == OutputsTo(d.outputs, args[|d.inputs|..], r) && Distinct(d.outputs) && forall o :: o in d.outputs ==> o in line.writes
  {
    if act.Invoke? {
      var d := InstrOf(g, act);
      OutputWrites(d.outputs, act.args[|d.inputs|..], line, r);
    }
  }

  /** The assignment registers that the outputs of an instruction write to `r`. */
  lemma OutputWrites(outputs: seq<string>, targets: seq<AsmExpr>, line: CodeLine, r: string)
    requires |outputs| == |targets| && HandleOutputs(outputs, targets) == Some(line.writes)
    ensures ActiveWrites(line, r) == OutputsTo(outputs, targets, r)
    ensures Distinct(outputs) && forall o :: o in outputs ==> o in line.writes
  {
    OutputTargets(outputs, targets);
    forall a | a in ActiveWrites(line, r) ensures a in OutputsTo(outputs, targets, r) {
      var i :| 0 <= i < |outputs| && outputs[i] == a;
      assert line.writes[a] == [targets[i].name];
      assert targets[i] == Ref(r);
    }
    forall a | a in OutputsTo(outputs, targets, r) ensures a in ActiveWrites(line, r) {
      var i :| 0 <= i < |outputs| && targets[i] == Ref(r) && outputs[i] == a;
      assert line.writes[outputs[i]] == [targets[i].name];
    }
  }

  lemma NoAssignWriters(p: Modulus, g: Program, act: Action, line: CodeLine, r: string)
    requires LineFor(p, g, act, line) && InvocationOk(g, act) && ActiveWrites(line, r) == {}
    ensures AssignWriters(g, act, r) == []
  {
    ActiveWritesOf(p, g, act, line, r);
    if act.Invoke? {
      var d := InstrOf(g, act);
      NoOutputs(d.outputs, act.args[|d.inputs|..], r);
    }
  }

  lemma AssignWritersSum(p: Modulus, g: Program, act: Action, line: CodeLine, assigns: seq<string>, r: string, x: int, cur: Row, nxt: Row)
    requires LineFor(p, g, act, line) && InvocationOk(g, act)
    requires Distinct(assigns) && forall a :: a in line.writes ==> a in assigns
    ensures AssignSum(assigns, ActiveWrites(line, r), x, cur) == WritersSum(AssignWriters(g, act, r), r, x, cur, nxt)
  {
    ActiveWritesOf(p, g, act, line, r);
    AssignSumNone(assigns, x, cur);
    if act.Move? && act.reg == r {
      assert act.assign in line.writes;
      AssignSumAdd(assigns, {}, act.assign, x, cur);
      assert {} + {act.assign} == {act.assign};
      assert [FromAssign(act.assign)][1..] == [];
    } else if act.Invoke? {
      var d := InstrOf(g, act);
      OutputSum(assigns, d.outputs, act.args[|d.inputs|..], r, x, cur, nxt);
    }
  }

  // ----- deviation of a register -----

  function RegisterDeviation(g: Program, r: RegDecl, x: int, cur: Row, nxt: Row): int {
    Deviation(ExpandUpdates(Definitions(Defs(g)), RegisterUpdates(g, r)), x, cur, nxt)
  }

  function WritePart(g: Program, r: RegDecl): seq<Update> {
    if r.ty == Write then WriteUpdates(RegNames(g.m.regs, Assignment), r.name) else []
  }

  lemma UniqueNames(regs: seq<RegDecl>)
    requires NamesDistinct(regs)
    ensures forall r, s :: r in regs && s in regs && r.name == s.name ==> r == s
  {
  }

  lemma WriteFlagAt(p: Modulus, g: Program, pos: map<string, nat>, line: CodeLine, a: string, r: string, cur: Row)
    requires CarriesLine(p, g, pos, line, cur) && HasReg(g.m.regs, a, Assignment) && HasReg(g.m.regs, r, Write)
    ensures cur(WriteFlag(a, r)) == (if a in ActiveWrites(line, r) then 1 else 0)
  {
    assert IsLookupColumn(g, WriteFlag(a, r));
  }

  lemma WritePartDeviation(p: Modulus, g: Program, i: nat, r: RegDecl, x: int, cur: Row, nxt: Row)
    requires WellFormed(p, g) && AtLine(p, g, i, cur) && r in g.m.regs && InvocationOk(g, ActionAt(g, i))
    ensures WriteDev(g, r, x, cur, nxt) == WritersSum(AssignWriters(g, ActionAt(g, i), r.name), r.name, x, cur, nxt)
  {
    LineFacts(p, g, i);
    WritePartFrom(p, g, Labels(p, g), ActionAt(g, i), Lines(p, g)[i], r, x, cur, nxt);
  }

  lemma WritePartFrom(p: Modulus, g: Program, pos: map<string, nat>, act: Action, line: CodeLine, r: RegDecl, x: int, cur: Row, nxt: Row)
    requires LineFor(p, g, act, line) && InvocationOk(g, act)
    requires LineOk(g.m, pos, line) && CarriesLine(p, g, pos, line, cur) && NamesDistinct(g.m.regs) && r in g.m.regs
    ensures WriteDev(g, r, x, cur, nxt) == WritersSum(AssignWriters(g, act, r.name), r.name, x, cur, nxt)
  {
    var ds := Definitions(Defs(g));
    var active := ActiveWrites(line, r.name);
    if r.ty == Write {
      var assigns := RegNames(g.m.regs, Assignment);
      RegNamesDistinct(g.m.regs, Assignment);
      AssignWritersSum(p, g, act, line, assigns, r.name, x, cur, nxt);
      DefinitionsAreInter(Defs(g));
      forall a | a in assigns ensures cur(WriteFlag(a, r.name)) == (if a in active then 1 else 0) {
        WriteFlagAt(p, g, pos, line, a, r.name, cur);
      }
      WriteDeviation(ds, assigns, active, r.name, x, cur, nxt);
    } else {
      NotWritten(g.m.regs, pos, g.m, line, r);
      NoAssignWriters(p, g, act, line, r.name);
      assert ExpandUpdates(ds, WritePart(g, r)) == [];
    }
  }

  /** A line stores values in registers of kind Write only. */
  lemma NotWritten(regs: seq<RegDecl>, pos: map<string, nat>, m: Machine, line: CodeLine, r: RegDecl)
    requires regs == m.regs && NamesDistinct(regs) && LineOk(m, pos, line) && r in regs && r.ty != Write
    ensures ActiveWrites(line, r.name) == {}
  {
    UniqueNames(regs);
    assert forall a :: a in ActiveWrites(line, r.name) ==> RegDecl(r.name, Write) in regs;
  }

  /** The writers that belong to the active instruction. */
  function InstrWriters(p: Modulus, g: Program, act: Action, r: string): seq<Writer>
    requires InvocationOk(g, act)
  {
    if act.Invoke?
    then LinkWriters(InstrOf(g, act).links, r) + BodyWriters(InstrOf(g, act).body, LitsOf(p, g, act), r)
    else []
  }

  lemma SplitWriters(p: Modulus, g: Program, act: Action, r: string)
    requires InvocationOk(g, act)
    ensures Writers(p, g, act, r) == AssignWriters(g, act, r) + InstrWriters(p, g, act, r)
  {
  }

  lemma InstrPartDeviation(p: Modulus, g: Program, i: nat, r: string, x: int, cur: Row, nxt: Row)
    requires WellFormed(p, g) && AtLine(p, g, i, cur) && InvocationOk(g, ActionAt(g, i))
    ensures Cong(p, InstrDev(g, r, x, cur, nxt), WritersSum(InstrWriters(p, g, ActionAt(g, i), r), r, x, cur, nxt))
  {
    var act := ActionAt(g, i);
    var ds := Definitions(Defs(g));
    DefinitionsAreInter(Defs(g));
    var active := if act.Invoke? then Some(InstrOf(g, act)) else None;
    forall d | d in Defs(g) ensures cur(InstrFlag(d.name)) == (if active == Some(d) then 1 else 0) {
      FlagsAt(p, g, i, cur, d);
      FindInstrUnique(Defs(g), d);
    }
    InstrDeviation(p, ds, Defs(g), active, r, x, cur, nxt);
    if act.Invoke? {
      ParamsAt(p, g, i, cur);
      ActiveDeviation(ds, Defs(g), InstrOf(g, act), LitsOf(p, g, act), r, x, cur, nxt);
    }
  }

  function WriteDev(g: Program, r: RegDecl, x: int, cur: Row, nxt: Row): int {
    Deviation(ExpandUpdates(Definitions(Defs(g)), WritePart(g, r)), x, cur, nxt)
  }

  function InstrDev(g: Program, r: string, x: int, cur: Row, nxt: Row): int {
    ListDeviation(Definitions(Defs(g)), Defs(g), r, x, cur, nxt)
  }

  lemma SplitDeviation(g: Program, r: RegDecl, x: int, cur: Row, nxt: Row)
    ensures RegisterDeviation(g, r, x, cur, nxt) == WriteDev(g, r, x, cur, nxt) + InstrDev(g, r.name, x, cur, nxt)
  {
    var ds := Definitions(Defs(g));
    ExpandUpdatesConcat(ds, WritePart(g, r), InstrUpdates(Defs(g), r.name));
    DeviationConcat(ExpandUpdates(ds, WritePart(g, r)), ExpandUpdates(ds, InstrUpdates(Defs(g), r.name)), x, cur, nxt);
  }

  /** The update sum of a register deviates from its default by exactly what the line writes,
      however many writers there are. */
  lemma WritersDeviation(p: Modulus, g: Program, i: nat, r: RegDecl, x: int, cur: Row, nxt: Row)
    requires WellFormed(p, g) && AtLine(p, g, i, cur) && r in g.m.regs && InvocationOk(g, ActionAt(g, i))
    ensures Cong(p, RegisterDeviation(g, r, x, cur, nxt),
                 WritersSum(Writers(p, g, ActionAt(g, i), r.name), r.name, x, cur, nxt))
  {
    WritePartDeviation(p, g, i, r, x, cur, nxt);
    InstrPartDeviation(p, g, i, r.name, x, cur, nxt);
    JoinDeviation(p, g, ActionAt(g, i), r, x, cur, nxt);
  }

  lemma {:induction false} JoinDeviation(p: Modulus, g: Program, act: Action, r: RegDecl, x: int, cur: Row, nxt: Row)
    requires InvocationOk(g, act)
    requires WriteDev(g, r, x, cur, nxt) == WritersSum(AssignWriters(g, act, r.name), r.name, x, cur, nxt)
    requires Cong(p, InstrDev(g, r.name, x, cur, nxt), WritersSum(InstrWriters(p, g, act, r.name), r.name, x, cur, nxt))
    ensures Cong(p, RegisterDeviation(g, r, x, cur, nxt), WritersSum(Writers(p, g, act, r.name), r.name, x, cur, nxt))
  {
    var wa, wi := AssignWriters(g, act, r.name), InstrWriters(p, g, act, r.name);
    SplitWriters(p, g, act, r.name);
    SplitDeviation(g, r, x, cur, nxt);
    WritersSumConcat(wa, wi, r.name, x, cur, nxt);
    JoinSums(p, RegisterDeviation(g, r, x, cur, nxt), WriteDev(g, r, x, cur, nxt), InstrDev(g, r.name, x, cur, nxt),
             WritersSum(Writers(p, g, act, r.name), r.name, x, cur, nxt), WritersSum(wa, r.name, x, cur, nxt), WritersSum(wi, r.name, x, cur, nxt));
  }

  lemma JoinSums(p: Modulus, d: int, d1: int, d2: int, s: int, s1: int, s2: int)
    requires d == d1 + d2 && s == s1 + s2 && d1 == s1 && Cong(p, d2, s2)
    ensures Cong(p, d, s)
  {
    CongAdd(p, d1, s1, d2, s2);
  }

  // ----- the identity of one register -----

  /** The value of a register that no condition updates. */
  function DefaultValue(r: RegDecl, cur: Row): int {
    match r.ty
    case Pc => cur(Named(r.name)) + 1
    case Assignment => 0
    case _ => cur(Named(r.name))
  }

  /** The value that the update sum gives to a register: the default plus what every writer adds. */
  function NewValue(p: Modulus, g: Program, act: Action, r: RegDecl, cur: Row, nxt: Row): int
    requires InvocationOk(g, act)
  {
    var x := DefaultValue(r, cur);
    x + WritersSum(Writers(p, g, act, r.name), r.name, x, cur, nxt)
  }

  /** The expanded update expression of a register, evaluated in a row; zero if it has none. */
  function CompiledValue(g: Program, r: RegDecl, cur: Row, nxt: Row): int {
    var u := UpdateExpression(RegisterUpdates(g, r), DefaultUpdate(r));
    if u.Some? then Eval(Expand(Definitions(Defs(g)), u.value), cur, nxt) else 0
  }

  predicate HasIdentity(g: Program, r: RegDecl) {
    UpdateExpression(RegisterUpdates(g, r), DefaultUpdate(r)).Some?
  }

  lemma {:induction false} CompiledDeviation(g: Program, r: RegDecl, cur: Row, nxt: Row)
    requires HasIdentity(g, r)
    ensures CompiledValue(g, r, cur, nxt) == DefaultValue(r, cur) + RegisterDeviation(g, r, DefaultValue(r, cur), cur, nxt)
  {
    var ds := Definitions(Defs(g));
    var us := RegisterUpdates(g, r);
    var dflt := DefaultUpdate(r);
    DefinitionsAreInter(Defs(g));
    if dflt.Some? { Unexpanded(ds, dflt.value); }
    ExpandUpdateExpression(ds, us, dflt);
    if dflt.Some? {
      UpdateExpressionValue(ExpandUpdates(ds, us), dflt.value, cur, nxt);
    } else {
      UpdateExpressionNoDefault(ExpandUpdates(ds, us), cur, nxt);
    }
  }

  lemma {:induction false} NewValueFrom(p: Modulus, g: Program, act: Action, r: RegDecl, cur: Row, nxt: Row)
    requires InvocationOk(g, act) && HasIdentity(g, r)
    requires var x := DefaultValue(r, cur);
             Cong(p, RegisterDeviation(g, r, x, cur, nxt), WritersSum(Writers(p, g, act, r.name), r.name, x, cur, nxt))
    ensures Cong(p, CompiledValue(g, r, cur, nxt), NewValue(p, g, act, r, cur, nxt))
  {
    var x := DefaultValue(r, cur);
    CompiledDeviation(g, r, cur, nxt);
    SameSum(p, x, RegisterDeviation(g, r, x, cur, nxt), WritersSum(Writers(p, g, act, r.name), r.name, x, cur, nxt),
            CompiledValue(g, r, cur, nxt), NewValue(p, g, act, r, cur, nxt));
  }

  lemma SameSum(p: Modulus, x: int, a: int, b: int, u: int, v: int)
    requires Cong(p, a, b) && u == x + a && v == x + b
    ensures Cong(p, u, v)
  {
    CongAdd(p, x, x, a, b);
  }

  lemma {:induction false} UpdateValue(p: Modulus, g: Program, i: nat, r: RegDecl, cur: Row, nxt: Row)
    requires WellFormed(p, g) && AtLine(p, g, i, cur) && r in g.m.regs && InvocationOk(g, ActionAt(g, i))
    requires HasIdentity(g, r)
    ensures Cong(p, CompiledValue(g, r, cur, nxt), NewValue(p, g, ActionAt(g, i), r, cur, nxt))
  {
    WritersDeviation(p, g, i, r, DefaultValue(r, cur), cur, nxt);
    NewValueFrom(p, g, ActionAt(g, i), r, cur, nxt);
  }

  lemma {:induction false} HasUpdatesIff(defs: seq<InstrDef>, r: string)
    ensures HasUpdates(defs, r) <==> InstrUpdates(defs, r) != []
  {
    if defs != [] {
      var d := defs[0];
      HasUpdatesIff(defs[1..], r);
      NoLinkWriter(Col(InstrFlag(d.name)), d.links, r);
      BodyUpdatesIff(d, d.body, r);
      assert UpdatesOf(d, r) == [] <==> LinkWriters(d.links, r) == [] && BodyWriters(d.body, map[], r) == [];
      if HasUpdates(defs[1..], r) {
        var e :| e in defs[1..] && (LinkWriters(e.links, r) != [] || BodyWriters(e.body, map[], r) != []);
        assert e in defs;
      }
      if HasUpdates(defs, r) && UpdatesOf(d, r) == [] {
        var e :| e in defs && (LinkWriters(e.links, r) != [] || BodyWriters(e.body, map[], r) != []);
        assert e in defs[1..];
      }
    }
  }

  lemma {:induction false} BodyUpdatesIff(d: InstrDef, body: seq<Identity>, r: string)
    ensures BodyWriters(body, map[], r) == [] <==> BodyUpdates(d, body, r) == []
  {
    if body != [] { BodyUpdatesIff(d, body[1..], r); }
  }

  // ----- the writers that take effect -----

  /** The value that a writer gives to register `r` if it takes effect; a link leaves it as it is. */
  function WriterValue(w: Writer, r: string, cur: Row, nxt: Row): int {
    match w
    case FromAssign(a) => cur(Named(a))
    case Computed(e) => Eval(e, cur, nxt)
    case AnyIf(_) => nxt(Named(r))
  }

  /** The sum of `value - x` over the writers of a list. */
  function ValueSum(ws: seq<Writer>, r: string, x: int, cur: Row, nxt: Row): int {
    if ws == [] then 0 else WriterValue(ws[0], r, cur, nxt) - x + ValueSum(ws[1..], r, x, cur, nxt)
  }

  /** The flags of all links in the list are 0 or 1. */
  predicate BitFlags(p: Modulus, ws: seq<Writer>, cur: Row, nxt: Row) {
    forall w :: w in ws && w.AnyIf? ==> IsBit(p, Eval(w.flag, cur, nxt))
  }

  lemma OneEffect(p: Modulus, w: Writer, r: string, x: int, cur: Row, nxt: Row)
    requires w.AnyIf? ==> IsBit(p, Eval(w.flag, cur, nxt))
    ensures Cong(p, WriterDeviation(w, r, x, cur, nxt), if TakesEffect(p, w, cur, nxt) then WriterValue(w, r, cur, nxt) - x else 0)
  {
    if w.AnyIf? {
      var f, y := Eval(w.flag, cur, nxt), nxt(Named(r)) - x;
      if Cong(p, f, 1) {
        CongMul(p, f, 1, y, y);
      } else {
        CongMul(p, f, 0, y, y);
      }
    }
  }

  /** Only the writers that take effect contribute to the sum. */
  lemma {:induction false} ActiveSum(p: Modulus, ws: seq<Writer>, r: string, x: int, cur: Row, nxt: Row)
    requires BitFlags(p, ws, cur, nxt)
    ensures Cong(p, WritersSum(ws, r, x, cur, nxt), ValueSum(ActiveWriters(p, ws, cur, nxt), r, x, cur, nxt))
    decreases |ws|
  {
    if ws != [] {
      var w, active := ws[0], ActiveWriters(p, ws[1..], cur, nxt);
      assert w in ws;
      OneEffect(p, w, r, x, cur, nxt);
      ActiveSum(p, ws[1..], r, x, cur, nxt);
      var a := if TakesEffect(p, w, cur, nxt) then WriterValue(w, r, cur, nxt) - x else 0;
      CongAdd(p, WriterDeviation(w, r, x, cur, nxt), a, WritersSum(ws[1..], r, x, cur, nxt), ValueSum(active, r, x, cur, nxt));
      assert ([w] + active)[1..] == active && [] + active == active;
    }
  }

  /** With at most one writer in effect, the sum chooses its value, or the default. */
  lemma UpdatedIff(p: Modulus, g: Program, ws: seq<Writer>, r: RegDecl, cur: Row, nxt: Row)
    requires BitFlags(p, ws, cur, nxt) && |ActiveWriters(p, ws, cur, nxt)| <= 1
    requires r.ty == Assignment ==> HasUpdates(Defs(g), r.name)
    ensures var x := DefaultValue(r, cur);
            Cong(p, nxt(Named(r.name)), x + WritersSum(ws, r.name, x, cur, nxt))
            <==> Updated(p, g, ws, r, cur, nxt, nxt(Named(r.name)))
  {
    var x, active := DefaultValue(r, cur), ActiveWriters(p, ws, cur, nxt);
    ActiveSum(p, ws, r.name, x, cur, nxt);
    CongAdd(p, x, x, WritersSum(ws, r.name, x, cur, nxt), ValueSum(active, r.name, x, cur, nxt));
    if active != [] {
      assert active[1..] == [];
      assert x + ValueSum(active, r.name, x, cur, nxt) == WriterValue(active[0], r.name, cur, nxt);
    }
  }

  /** `y` is the sum of the values of two writers minus `x`. */
  predicate SumOfTwo(p: Modulus, v: Writer, w: Writer, r: string, x: int, y: int, cur: Row, nxt: Row) {
    Cong(p, y, WriterValue(v, r, cur, nxt) + WriterValue(w, r, cur, nxt) - x)
  }

  /** With two writers in effect, the register gets the sum of both values minus the default. */
  lemma TwoInEffect(p: Modulus, ws: seq<Writer>, r: string, x: int, y: int, cur: Row, nxt: Row, v: Writer, w: Writer, holds: bool, u: int)
    requires BitFlags(p, ws, cur, nxt) && ActiveWriters(p, ws, cur, nxt) == [v, w]
    requires (holds <==> Cong(p, y, u)) && u == x + WritersSum(ws, r, x, cur, nxt)
    ensures holds <==> SumOfTwo(p, v, w, r, x, y, cur, nxt)
  {
    ActiveSum(p, ws, r, x, cur, nxt);
    assert [v, w][1..] == [w] && [w][1..] == [];
    assert ValueSum([w], r, x, cur, nxt) == WriterValue(w, r, cur, nxt) - x;
    CongAdd(p, x, x, WritersSum(ws, r, x, cur, nxt), ValueSum([v, w], r, x, cur, nxt));
  }

  lemma {:induction false} LinksOnly(ws: seq<Writer>, r: string, x: int, cur: Row, nxt: Row)
    requires forall w :: w in ws ==> w.AnyIf?
    ensures ValueSum(ws, r, x, cur, nxt) == |ws| * (nxt(Named(r)) - x)
  {
    if ws != [] {
      LinksOnly(ws[1..], r, x, cur, nxt);
      assert ws[0] in ws;
      var k, y := |ws| - 1, nxt(Named(r)) - x;
      assert (k + 1) * y == k * y + y;
    }
  }

  /** The row satisfies the identities generated for register `r`. */
  ghost predicate RegisterHolds(p: Modulus, g: Program, r: RegDecl, cur: Row, nxt: Row) {
    forall id :: id in RegisterIdentities(g, r) ==> Holds(p, ExpandIdentity(g, id), cur, nxt)
  }

  lemma ExpandLhs(g: Program, e: Expr)
    requires All(e, NotInter)
    ensures Expand(Definitions(Defs(g)), e) == e
  {
    DefinitionsAreInter(Defs(g));
    Unexpanded(Definitions(Defs(g)), e);
  }

  lemma PlainIdentities(p: Modulus, g: Program, r: RegDecl, cur: Row, nxt: Row)
    requires r.ty == Write || r.ty == Assignment
    ensures RegisterHolds(p, g, r, cur, nxt) <==>
            (HasIdentity(g, r) ==> Cong(p, nxt(Named(r.name)), CompiledValue(g, r, cur, nxt)))
  {
    var u := UpdateExpression(RegisterUpdates(g, r), DefaultUpdate(r));
    ExpandLhs(g, Next(Named(r.name)));
    if u.Some? {
      var id := Identity(Next(Named(r.name)), u.value);
      assert RegisterIdentities(g, r) == [id];
      assert id in RegisterIdentities(g, r);
    }
  }

  lemma PcIdentities(p: Modulus, g: Program, r: RegDecl, cur: Row, nxt: Row)
    requires r.ty == Pc
    ensures HasIdentity(g, r)
    ensures RegisterHolds(p, g, r, cur, nxt) <==>
            && Cong(p, cur(PcUpdate), CompiledValue(g, r, cur, nxt))
            && Cong(p, nxt(Named(r.name)), (1 - nxt(FirstStep)) * cur(PcUpdate))
  {
    var u := UpdateExpression(RegisterUpdates(g, r), DefaultUpdate(r));
    var f := Mul(Sub(Num(1), Next(FirstStep)), Col(PcUpdate));
    var a, b := Identity(Col(PcUpdate), u.value), Identity(Next(Named(r.name)), f);
    assert RegisterIdentities(g, r) == [a, b];
    assert a in RegisterIdentities(g, r) && b in RegisterIdentities(g, r);
    assert ExpandIdentity(g, a).lhs == a.lhs by { ExpandLhs(g, a.lhs); }
    assert ExpandIdentity(g, b) == b by { ExpandLhs(g, b.lhs); ExpandLhs(g, f); }
    assert Eval(f, cur, nxt) == (1 - nxt(FirstStep)) * cur(PcUpdate) by {
      assert Eval(Sub(Num(1), Next(FirstStep)), cur, nxt) == 1 - nxt(FirstStep);
    }
  }

  lemma {:induction false} ReadOnlyIdentities(p: Modulus, g: Program, r: RegDecl, cur: Row, nxt: Row)
    requires r.ty == ReadOnly
    ensures HasIdentity(g, r)
    ensures RegisterHolds(p, g, r, cur, nxt) <==>
            Cong(p, (1 - cur(InstrFlag(RESET))) * (nxt(Named(r.name)) - CompiledValue(g, r, cur, nxt)), 0)
  {
    var ds := Definitions(Defs(g));
    var u := UpdateExpression(RegisterUpdates(g, r), DefaultUpdate(r));
    var f, n := Sub(Num(1), Col(InstrFlag(RESET))), Next(Named(r.name));
    var id := Identity(Mul(f, Sub(n, u.value)), Num(0));
    assert RegisterIdentities(g, r) == [id];
    OneIdentity(p, g, r, id, cur, nxt);
    ReadOnlyExpanded(g, f, n, u.value);
    FreedValue(p, f, n, Expand(ds, u.value), cur, nxt);
  }

  lemma OneIdentity(p: Modulus, g: Program, r: RegDecl, id: Identity, cur: Row, nxt: Row)
    requires RegisterIdentities(g, r) == [id]
    ensures RegisterHolds(p, g, r, cur, nxt) <==> Holds(p, ExpandIdentity(g, id), cur, nxt)
  {
    assert id in RegisterIdentities(g, r);
  }

  lemma {:induction false} FreedValue(p: Modulus, f: Expr, n: Expr, u: Expr, cur: Row, nxt: Row)
    requires f == Sub(Num(1), Col(InstrFlag(RESET)))
    ensures Holds(p, Identity(Mul(f, Sub(n, u)), Num(0)), cur, nxt) <==>
            Cong(p, (1 - cur(InstrFlag(RESET))) * (Eval(n, cur, nxt) - Eval(u, cur, nxt)), 0)
  {
    assert Eval(f, cur, nxt) == 1 - cur(InstrFlag(RESET));
    ProductHolds(p, f, Sub(n, u), 1 - cur(InstrFlag(RESET)), Eval(n, cur, nxt) - Eval(u, cur, nxt), cur, nxt);
  }

  lemma {:induction false} ProductHolds(p: Modulus, e: Expr, f: Expr, x: int, y: int, cur: Row, nxt: Row)
    requires Eval(e, cur, nxt) == x && Eval(f, cur, nxt) == y
    ensures Holds(p, Identity(Mul(e, f), Num(0)), cur, nxt) <==> Cong(p, x * y, 0)
  {
    assert Eval(Mul(e, f), cur, nxt) == x * y;
  }

  lemma ReadOnlyExpanded(g: Program, f: Expr, n: Expr, u: Expr)
    requires f == Sub(Num(1), Col(InstrFlag(RESET))) && n.Next? && n.c.Named?
    ensures ExpandIdentity(g, Identity(Mul(f, Sub(n, u)), Num(0))) == Identity(Mul(f, Sub(n, Expand(Definitions(Defs(g)), u))), Num(0))
  {
    var ds := Definitions(Defs(g));
    ExpandLhs(g, f);
    ExpandLhs(g, n);
    ExpandLhs(g, Num(0));
    ExpandHomomorphic(ds, n, u);
    ExpandHomomorphic(ds, f, Sub(n, u));
  }

  lemma {:induction false} ReadOnlyIffFrom(p: Modulus, g: Program, act: Action, r: RegDecl, cur: Row, nxt: Row)
    requires InvocationOk(g, act) && r.ty == ReadOnly && cur(InstrFlag(RESET)) == IsActive(act, RESET)
    requires Cong(p, CompiledValue(g, r, cur, nxt), NewValue(p, g, act, r, cur, nxt))
    ensures RegisterHolds(p, g, r, cur, nxt) <==>
            IsActive(act, RESET) == 1 || Cong(p, nxt(Named(r.name)), NewValue(p, g, act, r, cur, nxt))
  {
    ReadOnlyIdentities(p, g, r, cur, nxt);
    UnlessFlag(p, cur(InstrFlag(RESET)), nxt(Named(r.name)), CompiledValue(g, r, cur, nxt), NewValue(p, g, act, r, cur, nxt));
  }

  lemma UnlessFlag(p: Modulus, flag: int, y: int, u: int, v: int)
    requires (flag == 0 || flag == 1) && Cong(p, u, v)
    ensures Cong(p, (1 - flag) * (y - u), 0) <==> flag == 1 || Cong(p, y, v)
  {
    if flag == 1 {
      assert (1 - flag) * (y - u) == 0;
    } else {
      assert (1 - flag) * (y - u) == y - u;
      CongZeroDiff(p, y, u);
    }
  }

  /** The identities of a register hold iff its next value is the default plus what every writer
      adds, without any bound on the writers or their conditions. The pc goes through `pc_update` and
      restarts on the first row, and `_reset` frees the read-only registers. */
  lemma {:induction false} RegisterSumIff(p: Modulus, g: Program, i: nat, r: RegDecl, cur: Row, nxt: Row)
    requires WellFormed(p, g) && AtLine(p, g, i, cur) && r in g.m.regs && InvocationOk(g, ActionAt(g, i))
    ensures var v := NewValue(p, g, ActionAt(g, i), r, cur, nxt); var y := nxt(Named(r.name));
            RegisterHolds(p, g, r, cur, nxt) <==>
            match r.ty
            case Pc => Cong(p, cur(PcUpdate), v) && Cong(p, y, (1 - nxt(FirstStep)) * cur(PcUpdate))
            case ReadOnly => IsActive(ActionAt(g, i), RESET) == 1 || Cong(p, y, v)
            case Write => Cong(p, y, v)
            case Assignment => HasUpdates(Defs(g), r.name) ==> Cong(p, y, v)
  {
    match r.ty
    case Pc =>
      PcIdentities(p, g, r, cur, nxt);
      UpdateValue(p, g, i, r, cur, nxt);
    case ReadOnly =>
      ReadOnlyIdentities(p, g, r, cur, nxt);
      UpdateValue(p, g, i, r, cur, nxt);
      ResetFlag(p, g, i, cur);
      ReadOnlyIffFrom(p, g, ActionAt(g, i), r, cur, nxt);
    case Write =>
      PlainIdentities(p, g, r, cur, nxt);
      UpdateValue(p, g, i, r, cur, nxt);
    case Assignment =>
      PlainIdentities(p, g, r, cur, nxt);
      AssignmentHasIdentity(g, r);
      if HasUpdates(Defs(g), r.name) { UpdateValue(p, g, i, r, cur, nxt); }
  }

  /** The transition of one register if the values of all writers are added up. */
  predicate RegisterSumOk(p: Modulus, g: Program, act: Action, r: RegDecl, cur: Row, nxt: Row, last: bool)
    requires InvocationOk(g, act)
  {
    var y, v := nxt(Named(r.name)), NewValue(p, g, act, r, cur, nxt);
    match r.ty
    case Pc => if last then y == 0 else Cong(p, y, v)
    case ReadOnly => IsActive(act, RESET) == 1 || Cong(p, y, v)
    case Write => Cong(p, y, v)
    case Assignment => HasUpdates(Defs(g), r.name) ==> Cong(p, y, v)
  }

  /** The identities of a register say that it makes the summing transition. */
  lemma {:induction false} RegisterSums(p: Modulus, g: Program, i: nat, r: RegDecl, cur: Row, nxt: Row, last: bool)
    requires WellFormed(p, g) && AtLine(p, g, i, cur) && r in g.m.regs && InvocationOk(g, ActionAt(g, i))
    requires nxt(FirstStep) == (if last then 1 else 0)
    requires 0 <= nxt(Named(r.name)) < p
    ensures RegisterHolds(p, g, r, cur, nxt) <==>
            && RegisterSumOk(p, g, ActionAt(g, i), r, cur, nxt, last)
            && (r.ty == Pc ==> Cong(p, cur(PcUpdate), NewValue(p, g, ActionAt(g, i), r, cur, nxt)))
  {
    RegisterSumIff(p, g, i, r, cur, nxt);
    SumsFrom(p, g, ActionAt(g, i), r, cur, nxt, last, RegisterHolds(p, g, r, cur, nxt), NewValue(p, g, ActionAt(g, i), r, cur, nxt));
  }

  lemma {:induction false} SumsFrom(p: Modulus, g: Program, act: Action, r: RegDecl, cur: Row, nxt: Row, last: bool, holds: bool, v: int)
    requires InvocationOk(g, act) && v == NewValue(p, g, act, r, cur, nxt)
    requires nxt(FirstStep) == (if last then 1 else 0) && 0 <= nxt(Named(r.name)) < p
    requires var y := nxt(Named(r.name));
             holds <==>
             match r.ty
             case Pc => Cong(p, cur(PcUpdate), v) && Cong(p, y, (1 - nxt(FirstStep)) * cur(PcUpdate))
             case ReadOnly => IsActive(act, RESET) == 1 || Cong(p, y, v)
             case Write => Cong(p, y, v)
             case Assignment => HasUpdates(Defs(g), r.name) ==> Cong(p, y, v)
    ensures holds <==> RegisterSumOk(p, g, act, r, cur, nxt, last) && (r.ty == Pc ==> Cong(p, cur(PcUpdate), v))
  {
    if r.ty == Pc { NextPc(p, cur(PcUpdate), nxt(FirstStep), nxt(Named(r.name))); }
  }

  /** The flags of the links that name `R'` are bits, and at most one writer of `R` takes effect. */
  ghost predicate OneWriter(p: Modulus, g: Program, act: Action, r: string, cur: Row, nxt: Row)
    requires InvocationOk(g, act)
  {
    BitFlags(p, Writers(p, g, act, r), cur, nxt) && |ActiveWriters(p, Writers(p, g, act, r), cur, nxt)| <= 1
  }

  /** Then adding up is choosing. */
  lemma {:induction false} RegisterOkIff(p: Modulus, g: Program, act: Action, r: RegDecl, cur: Row, nxt: Row, last: bool)
    requires InvocationOk(g, act) && OneWriter(p, g, act, r.name, cur, nxt)
    requires r.ty == Assignment && !HasUpdates(Defs(g), r.name) ==> Writers(p, g, act, r.name) == []
    ensures RegisterSumOk(p, g, act, r, cur, nxt, last) <==> RegisterOk(p, g, act, r, cur, nxt, last)
  {
    if !(r.ty == Assignment && !HasUpdates(Defs(g), r.name)) { UpdatedIff(p, g, Writers(p, g, act, r.name), r, cur, nxt); }
  }

  /** On a row that carries a line, and in which at most one writer of the register takes effect, the
      identities of the register say what the source semantics says. */
  lemma {:induction false} RegisterIff(p: Modulus, g: Program, i: nat, r: RegDecl, cur: Row, nxt: Row, last: bool)
    requires WellFormed(p, g) && AtLine(p, g, i, cur) && r in g.m.regs && InvocationOk(g, ActionAt(g, i))
    requires OneWriter(p, g, ActionAt(g, i), r.name, cur, nxt)
    requires nxt(FirstStep) == (if last then 1 else 0)
    requires 0 <= nxt(Named(r.name)) < p
    ensures RegisterHolds(p, g, r, cur, nxt) <==>
            && RegisterOk(p, g, ActionAt(g, i), r, cur, nxt, last)
            && (r.ty == Pc ==> Cong(p, cur(PcUpdate), NewValue(p, g, ActionAt(g, i), r, cur, nxt)))
  {
    RegisterSums(p, g, i, r, cur, nxt, last);
    LineRegisterOk(p, g, i, r, cur, nxt, last);
  }

  lemma {:induction false} LineRegisterOk(p: Modulus, g: Program, i: nat, r: RegDecl, cur: Row, nxt: Row, last: bool)
    requires WellFormed(p, g) && i < |g.rom| && r in g.m.regs && InvocationOk(g, ActionAt(g, i))
    requires OneWriter(p, g, ActionAt(g, i), r.name, cur, nxt)
    ensures RegisterSumOk(p, g, ActionAt(g, i), r, cur, nxt, last) <==> RegisterOk(p, g, ActionAt(g, i), r, cur, nxt, last)
  {
    if r.ty == Assignment && !HasUpdates(Defs(g), r.name) { NeverWritten(p, g, i, r); }
    RegisterOkIff(p, g, ActionAt(g, i), r, cur, nxt, last);
  }

  lemma NextPc(p: Modulus, u: int, first: int, y: int)
    requires (first == 0 || first == 1) && 0 <= y < p
    ensures Cong(p, y, (1 - first) * u) <==> if first == 1 then y == 0 else Cong(p, y, u)
  {
    if first == 1 { CanonicalZero(p, y); }
  }

  lemma WriteSumIff(p: Modulus, g: Program, i: nat, r: RegDecl, cur: Row, nxt: Row)
    requires WellFormed(p, g) && AtLine(p, g, i, cur) && r in g.m.regs && InvocationOk(g, ActionAt(g, i)) && r.ty == Write
    ensures RegisterHolds(p, g, r, cur, nxt) <==> Cong(p, nxt(Named(r.name)), NewValue(p, g, ActionAt(g, i), r, cur, nxt))
  {
    RegisterSumIff(p, g, i, r, cur, nxt);
  }

  /** Two writers in effect on one line: the register gets both values, less its default once. */
  lemma {:induction false} TwoWriters(p: Modulus, g: Program, i: nat, r: RegDecl, cur: Row, nxt: Row, v: Writer, w: Writer)
    requires WellFormed(p, g) && AtLine(p, g, i, cur) && r in g.m.regs && InvocationOk(g, ActionAt(g, i)) && r.ty == Write
    requires BitFlags(p, Writers(p, g, ActionAt(g, i), r.name), cur, nxt)
    requires ActiveWriters(p, Writers(p, g, ActionAt(g, i), r.name), cur, nxt) == [v, w]
    ensures RegisterHolds(p, g, r, cur, nxt) <==> SumOfTwo(p, v, w, r.name, cur(Named(r.name)), nxt(Named(r.name)), cur, nxt)
  {
    WriteSumIff(p, g, i, r, cur, nxt);
    TwoWritersFrom(p, g, ActionAt(g, i), r, cur, nxt, v, w);
  }

  lemma {:induction false} TwoWritersFrom(p: Modulus, g: Program, act: Action, r: RegDecl, cur: Row, nxt: Row, v: Writer, w: Writer)
    requires InvocationOk(g, act) && BitFlags(p, Writers(p, g, act, r.name), cur, nxt)
    requires r.ty == Write && (RegisterHolds(p, g, r, cur, nxt) <==> Cong(p, nxt(Named(r.name)), NewValue(p, g, act, r, cur, nxt)))
    requires ActiveWriters(p, Writers(p, g, act, r.name), cur, nxt) == [v, w]
    ensures RegisterHolds(p, g, r, cur, nxt) <==> SumOfTwo(p, v, w, r.name, cur(Named(r.name)), nxt(Named(r.name)), cur, nxt)
  {
    TwoInEffect(p, Writers(p, g, act, r.name), r.name, cur(Named(r.name)), nxt(Named(r.name)), cur, nxt, v, w,
                RegisterHolds(p, g, r, cur, nxt), NewValue(p, g, act, r, cur, nxt));
  }

  /** Two links in effect force the register to keep its value, although each of them allows any. */
  lemma {:induction false} TwoLinks(p: Modulus, g: Program, i: nat, r: RegDecl, cur: Row, nxt: Row, v: Writer, w: Writer)
    requires WellFormed(p, g) && AtLine(p, g, i, cur) && r in g.m.regs && InvocationOk(g, ActionAt(g, i)) && r.ty == Write
    requires BitFlags(p, Writers(p, g, ActionAt(g, i), r.name), cur, nxt)
    requires ActiveWriters(p, Writers(p, g, ActionAt(g, i), r.name), cur, nxt) == [v, w] && v.AnyIf? && w.AnyIf?
    ensures RegisterHolds(p, g, r, cur, nxt) <==> Cong(p, nxt(Named(r.name)), cur(Named(r.name)))
  {
    WriteSumIff(p, g, i, r, cur, nxt);
    TwoLinksFrom(p, g, ActionAt(g, i), r, cur, nxt, v, w);
  }

  lemma {:induction false} TwoLinksFrom(p: Modulus, g: Program, act: Action, r: RegDecl, cur: Row, nxt: Row, v: Writer, w: Writer)
    requires InvocationOk(g, act) && BitFlags(p, Writers(p, g, act, r.name), cur, nxt)
    requires r.ty == Write && (RegisterHolds(p, g, r, cur, nxt) <==> Cong(p, nxt(Named(r.name)), NewValue(p, g, act, r, cur, nxt)))
    requires ActiveWriters(p, Writers(p, g, act, r.name), cur, nxt) == [v, w] && v.AnyIf? && w.AnyIf?
    ensures RegisterHolds(p, g, r, cur, nxt) <==> Cong(p, nxt(Named(r.name)), cur(Named(r.name)))
  {
    TwoWritersFrom(p, g, act, r, cur, nxt, v, w);
    TwiceMinus(p, v, w, r.name, cur, nxt);
  }

  lemma TwiceMinus(p: Modulus, v: Writer, w: Writer, r: string, cur: Row, nxt: Row)
    requires v.AnyIf? && w.AnyIf?
    ensures SumOfTwo(p, v, w, r, cur(Named(r)), nxt(Named(r)), cur, nxt) <==> Cong(p, nxt(Named(r)), cur(Named(r)))
  {
    var x, y := cur(Named(r)), nxt(Named(r));
    CongZeroDiff(p, y + y - x, y);
    CongZeroDiff(p, y, x);
  }

  /** The links that take effect on register `r`, if nothing else does. */
  ghost predicate OnlyLinks(p: Modulus, g: Program, act: Action, r: string, cur: Row, nxt: Row)
    requires InvocationOk(g, act)
  {
    forall w :: w in ActiveWriters(p, Writers(p, g, act, r), cur, nxt) ==> w.AnyIf?
  }

  /** `k - 1` times the change of a register from `x` to `y` vanishes. */
  predicate ChangeVanishes(p: Modulus, k: nat, x: int, y: int) { Cong(p, (k - 1) * (y - x), 0) }

  /** Only links in effect, `k` of them: `k - 1` times the change of the register vanishes. So one link
      leaves it free, and two force it to its default although both allow any value. */
  lemma {:induction false} LinksInEffect(p: Modulus, g: Program, i: nat, r: RegDecl, cur: Row, nxt: Row)
    requires WellFormed(p, g) && AtLine(p, g, i, cur) && r in g.m.regs && InvocationOk(g, ActionAt(g, i)) && r.ty == Write
    requires BitFlags(p, Writers(p, g, ActionAt(g, i), r.name), cur, nxt) && OnlyLinks(p, g, ActionAt(g, i), r.name, cur, nxt)
    ensures RegisterHolds(p, g, r, cur, nxt) <==>
            ChangeVanishes(p, |ActiveWriters(p, Writers(p, g, ActionAt(g, i), r.name), cur, nxt)|, cur(Named(r.name)), nxt(Named(r.name)))
  {
    WriteSumIff(p, g, i, r, cur, nxt);
    LinksInEffectFrom(p, g, ActionAt(g, i), r, cur, nxt);
  }

  lemma {:induction false} LinksInEffectFrom(p: Modulus, g: Program, act: Action, r: RegDecl, cur: Row, nxt: Row)
    requires InvocationOk(g, act) && BitFlags(p, Writers(p, g, act, r.name), cur, nxt) && OnlyLinks(p, g, act, r.name, cur, nxt)
    requires r.ty == Write && (RegisterHolds(p, g, r, cur, nxt) <==> Cong(p, nxt(Named(r.name)), NewValue(p, g, act, r, cur, nxt)))
    ensures RegisterHolds(p, g, r, cur, nxt) <==>
            ChangeVanishes(p, |ActiveWriters(p, Writers(p, g, act, r.name), cur, nxt)|, cur(Named(r.name)), nxt(Named(r.name)))
  {
    ManyLinks(p, Writers(p, g, act, r.name), r.name, cur(Named(r.name)), cur, nxt, RegisterHolds(p, g, r, cur, nxt),
              NewValue(p, g, act, r, cur, nxt));
  }

  lemma ManyLinks(p: Modulus, ws: seq<Writer>, r: string, x: int, cur: Row, nxt: Row, holds: bool, u: int)
    requires BitFlags(p, ws, cur, nxt) && forall w :: w in ActiveWriters(p, ws, cur, nxt) ==> w.AnyIf?
    requires (holds <==> Cong(p, nxt(Named(r)), u)) && u == x + WritersSum(ws, r, x, cur, nxt)
    ensures holds <==> ChangeVanishes(p, |ActiveWriters(p, ws, cur, nxt)|, x, nxt(Named(r)))
  {
    var active, s := ActiveWriters(p, ws, cur, nxt), WritersSum(ws, r, x, cur, nxt);
    ActiveSum(p, ws, r, x, cur, nxt);
    LinksOnly(active, r, x, cur, nxt);
    ChangeSum(p, holds, u, s, ValueSum(active, r, x, cur, nxt), x, nxt(Named(r)), |active|);
  }

  lemma ChangeSum(p: Modulus, holds: bool, u: int, s: int, t: int, x: int, y: int, k: nat)
    requires (holds <==> Cong(p, y, u)) && u == x + s && Cong(p, s, t) && t == k * (y - x)
    ensures holds <==> ChangeVanishes(p, k, x, y)
  {
    var d := y - x;
    CongAdd(p, x, x, s, t);
    assert (k - 1) * d == (x + t) - y;
    CongZeroDiff(p, x + t, y);
  }

  lemma CanonicalZero(p: Modulus, y: int)
    requires 0 <= y < p
    ensures Cong(p, y, 0) <==> y == 0
  {
  }

  lemma ResetFlag(p: Modulus, g: Program, i: nat, cur: Row)
    requires WellFormed(p, g) && AtLine(p, g, i, cur)
    requires exists r :: r in g.m.regs && r.ty == ReadOnly
    ensures cur(InstrFlag(RESET)) == IsActive(ActionAt(g, i), RESET)
  {
    var d :| d in Defs(g) && d.name == RESET;
    FlagsAt(p, g, i, cur, d);
  }

  lemma AssignmentHasIdentity(g: Program, r: RegDecl)
    requires r.ty == Assignment
    ensures HasIdentity(g, r) <==> HasUpdates(Defs(g), r.name)
  {
    HasUpdatesIff(Defs(g), r.name);
    assert RegisterUpdates(g, r) == InstrUpdates(Defs(g), r.name);
  }

  lemma {:induction false} SameBodyWriters(body: seq<Identity>, lits: map<string, int>, r: string)
    ensures BodyWriters(body, lits, r) == [] <==> BodyWriters(body, map[], r) == []
  {
    if body != [] { SameBodyWriters(body[1..], lits, r); }
  }

  lemma NeverWritten(p: Modulus, g: Program, i: nat, r: RegDecl)
    requires WellFormed(p, g) && i < |g.rom| && r in g.m.regs && r.ty == Assignment
    requires !HasUpdates(Defs(g), r.name) && InvocationOk(g, ActionAt(g, i))
    ensures Writers(p, g, ActionAt(g, i), r.name) == []
  {
    var act := ActionAt(g, i);
    var line := Lines(p, g)[i];
    LineFacts(p, g, i);
    NotWritten(g.m.regs, Labels(p, g), g.m, line, r);
    NoAssignWriters(p, g, act, line, r.name);
    if act.Invoke? {
      var d := InstrOf(g, act);
      SameBodyWriters(d.body, LitsOf(p, g, act), r.name);
    }
    SplitWriters(p, g, act, r.name);
  }
}
