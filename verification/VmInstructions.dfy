/** What every row of an accepted table does, statement by statement: the equations of the executed
    instruction hold, assigned registers get the value of their right-hand side, and all others are kept. */
module VmInstructions {
  import opened Options
  import opened Congruence
  import opened Pil
  import opened Asm
  import opened VmCompile
  import opened VmTheorem
  import opened VmRuns

  // ----- the only writer in effect -----

  lemma {:induction false} UpdateWrites(body: seq<Identity>, lits: map<string, int>, b: Identity, r: string)
    requires b in body && b.lhs == Next(Named(r))
    ensures Computed(BindLiterals(b.rhs, lits)) in BodyWriters(body, lits, r)
  {
    if b != body[0] { UpdateWrites(body[1..], lits, b, r); }
  }

  lemma {:induction false} TargetWrites(outputs: seq<string>, targets: seq<AsmExpr>, k: nat, r: string)
    requires k < |outputs| == |targets| && targets[k] == Ref(r)
    ensures FromAssign(outputs[k]) in OutputWriters(outputs, targets, r)
  {
    if k > 0 { TargetWrites(outputs[1..], targets[1..], k - 1, r); }
  }

  lemma {:induction false} InEffect(p: Modulus, ws: seq<Writer>, w: Writer, cur: Row, nxt: Row)
    requires w in ws && TakesEffect(p, w, cur, nxt)
    ensures w in ActiveWriters(p, ws, cur, nxt)
  {
    if w != ws[0] { InEffect(p, ws[1..], w, cur, nxt); }
  }

  lemma {:induction false} NothingWrites(body: seq<Identity>, lits: map<string, int>, r: string)
    requires forall b :: b in body ==> b.lhs != Next(Named(r))
    ensures BodyWriters(body, lits, r) == []
  {
    if body != [] { NothingWrites(body[1..], lits, r); }
  }

  lemma {:induction false} NoTarget(outputs: seq<string>, targets: seq<AsmExpr>, r: string)
    requires |outputs| == |targets| && Ref(r) !in targets
    ensures OutputWriters(outputs, targets, r) == []
  {
    if outputs != [] { NoTarget(outputs[1..], targets[1..], r); }
  }

  lemma {:induction false} NoLink(links: seq<LinkDecl>, r: string)
    requires forall l :: l in links ==> r !in l.nextRegs
    ensures LinkWriters(links, r) == []
  {
    if links != [] { NoLink(links[1..], r); }
  }

  /** The register changes by the transition of its kind, whatever the row. */
  predicate Changes(g: Program, act: Action, r: RegDecl, last: bool) {
    match r.ty
    case Pc => !last
    case ReadOnly => IsActive(act, RESET) != 1
    case _ => true
  }

  ghost predicate Gets(p: Modulus, w: Writer, x: int, cur: Row, nxt: Row) {
    match w
    case FromAssign(a) => Cong(p, x, cur(Named(a)))
    case Computed(e) => Cong(p, x, Eval(e, cur, nxt))
    case AnyIf(_) => true
  }

  /** A writer that takes effect alone determines the next value of its register. */
  lemma {:induction false} WriterDecides(p: Modulus, g: Program, act: Action, r: RegDecl, w: Writer, cur: Row, nxt: Row, last: bool)
    requires InvocationOk(g, act) && RegisterOk(p, g, act, r, cur, nxt, last) && OneWriter(p, g, act, r.name, cur, nxt)
    requires Changes(g, act, r, last) && w in Writers(p, g, act, r.name) && TakesEffect(p, w, cur, nxt)
    ensures Gets(p, w, nxt(Named(r.name)), cur, nxt)
  {
    InEffect(p, Writers(p, g, act, r.name), w, cur, nxt);
    assert ActiveWriters(p, Writers(p, g, act, r.name), cur, nxt) == [w];
  }

  // ----- statements -----

  /** The equation `b` holds with the literal arguments bound. */
  predicate EquationHolds(p: Modulus, b: Identity, lits: map<string, int>, cur: Row, nxt: Row) {
    Cong(p, Eval(BindLiterals(b.lhs, lits), cur, nxt), Eval(BindLiterals(b.rhs, lits), cur, nxt))
  }

  lemma UpdateForm(b: Identity) returns (x: string)
    requires IsUpdate(b)
    ensures b.lhs == Next(Named(x))
  {
    x := b.lhs.c.name;
  }

  /** On a row that invokes an instruction, every equation of its body that does not update a register
      holds. */
  lemma ConstraintHolds(p: Modulus, g: Program, cur: Row, nxt: Row, i: nat, n: nat, act: Action, b: Identity)
    requires FrameOk(p, g, cur, nxt, i, n) && act == ActionOf(g.rom[cur(Named(PcName(g.m)))])
    requires act.Invoke? && b in InstrOf(g, act).body && forall x :: b.lhs != Next(Named(x))
    ensures EquationHolds(p, b, LitsOf(p, g, act), cur, nxt)
  {
    if IsUpdate(b) { var x := UpdateForm(b); assert false; }
  }

  /** So does every equation that updates a register which no other writer changes on this row. */
  lemma UpdateHolds(p: Modulus, g: Program, cur: Row, nxt: Row, i: nat, n: nat, act: Action, b: Identity, r: RegDecl)
    requires StepOk(p, g, cur, nxt, i, n) && act == ActionOf(g.rom[cur(Named(PcName(g.m)))])
    requires act.Invoke? && b in InstrOf(g, act).body && b.lhs == Next(Named(r.name)) && r in g.m.regs
    requires OneWriter(p, g, act, r.name, cur, nxt) && Changes(g, act, r, i == n - 1)
    ensures EquationHolds(p, b, LitsOf(p, g, act), cur, nxt)
  {
    var lits := LitsOf(p, g, act);
    UpdateWrites(InstrOf(g, act).body, lits, b, r.name);
    WriterDecides(p, g, act, r, Computed(BindLiterals(b.rhs, lits)), cur, nxt, i == n - 1);
    assert BindLiterals(b.lhs, lits) == b.lhs;
  }

  /** `r <=a= e` moves the value of `e` into `r`. */
  lemma AssignmentHolds(p: Modulus, g: Program, cur: Row, nxt: Row, i: nat, n: nat, r: RegDecl, a: string, e: AsmExpr)
    requires StepOk(p, g, cur, nxt, i, n) && ActionOf(g.rom[cur(Named(PcName(g.m)))]) == Move(r.name, a, e)
    requires r in g.m.regs && HasReg(g.m.regs, a, Assignment) && Changes(g, Move(r.name, a, e), r, i == n - 1)
    ensures exists free: int :: 0 <= free < p && Cong(p, nxt(Named(r.name)), EvalAsm(p, e, cur, free))
  {
    var act := Move(r.name, a, e);
    assert AssignOk(p, g, act, a, cur) && Reads(p, e, cur(Named(a)), cur);
    assert Writers(p, g, act, r.name) == [FromAssign(a)];
    assert ActiveWriters(p, [FromAssign(a)], cur, nxt) == [FromAssign(a)];
    assert RegisterOk(p, g, act, r, cur, nxt, i == n - 1);
    var free: int :| 0 <= free < p && Cong(p, cur(Named(a)), EvalAsm(p, e, cur, free));
    assert Cong(p, nxt(Named(r.name)), EvalAsm(p, e, cur, free));
  }

  /** The k-th output of an instruction goes to the register that the caller names. */
  lemma OutputHolds(p: Modulus, g: Program, cur: Row, nxt: Row, i: nat, n: nat, act: Action, k: nat, r: RegDecl)
    requires StepOk(p, g, cur, nxt, i, n) && act == ActionOf(g.rom[cur(Named(PcName(g.m)))]) && act.Invoke?
    requires var d := InstrOf(g, act); k < |d.outputs| && act.args[|d.inputs| + k] == Ref(r.name)
    requires r in g.m.regs && OneWriter(p, g, act, r.name, cur, nxt) && Changes(g, act, r, i == n - 1)
    ensures Cong(p, nxt(Named(r.name)), cur(Named(InstrOf(g, act).outputs[k])))
  {
    var d := InstrOf(g, act);
    TargetWrites(d.outputs, act.args[|d.inputs|..], k, r.name);
    WriterDecides(p, g, act, r, FromAssign(d.outputs[k]), cur, nxt, i == n - 1);
  }

  /** An argument is read into the assignment register of its parameter. */
  lemma InputHolds(p: Modulus, g: Program, cur: Row, nxt: Row, i: nat, n: nat, act: Action, k: nat, a: string)
    requires FrameOk(p, g, cur, nxt, i, n) && act == ActionOf(g.rom[cur(Named(PcName(g.m)))]) && act.Invoke?
    requires var d := InstrOf(g, act);
             && k < |d.inputs| && d.inputs[k] == InReg(a) && a !in d.outputs && HasReg(g.m.regs, a, Assignment)
             && forall j :: 0 <= j < |d.inputs| && d.inputs[j] == InReg(a) ==> j == k
    ensures exists free: int :: 0 <= free < p && Cong(p, cur(Named(a)), EvalAsm(p, act.args[k], cur, free))
  {
    var d := InstrOf(g, act);
    assert InputIndex(d.inputs, a) == Some(k);
    assert AssignOk(p, g, act, a, cur);
  }

  /** The line mentions register `r` as something it writes. */
  predicate Mentions(g: Program, act: Action, r: string)
    requires InvocationOk(g, act)
  {
    match act
    case Nothing => false
    case Move(reg, _, _) => reg == r
    case Invoke(_, args) =>
      var d := InstrOf(g, act);
      || Ref(r) in args[|d.inputs|..]
      || (exists l :: l in d.links && r in l.nextRegs)
      || exists b :: b in d.body && b.lhs == Next(Named(r))
  }

  /** A write register that the line does not mention keeps its value. */
  lemma UnmentionedIsKept(p: Modulus, g: Program, cur: Row, nxt: Row, i: nat, n: nat, act: Action, r: RegDecl)
    requires StepOk(p, g, cur, nxt, i, n) && act == ActionOf(g.rom[cur(Named(PcName(g.m)))])
    requires r in g.m.regs && r.ty == Write && !Mentions(g, act, r.name)
    ensures Cong(p, nxt(Named(r.name)), cur(Named(r.name)))
  {
    if act.Invoke? {
      var d := InstrOf(g, act);
      NoTarget(d.outputs, act.args[|d.inputs|..], r.name);
      NoLink(d.links, r.name);
      NothingWrites(d.body, LitsOf(p, g, act), r.name);
    }
    assert Writers(p, g, act, r.name) == [];
    assert RegisterOk(p, g, act, r, cur, nxt, i == n - 1);
  }

  // ----- accepted tables -----

  /** In every accepted table, a row that invokes an instruction satisfies all constraints of its body;
      no condition on the table is needed. */
  lemma AcceptedConstraintHolds(p: Modulus, g: Program, height: nat, t: seq<Row>, i: nat, b: Identity)
    requires WellFormed(p, g) && Satisfies(p, g, height, t) && i < |t|
    ensures 0 <= t[i](Named(PcName(g.m))) < |g.rom|
    ensures var act := ActionOf(g.rom[t[i](Named(PcName(g.m)))]);
            InvocationOk(g, act) &&
            (act.Invoke? && b in InstrOf(g, act).body && (forall x :: b.lhs != Next(Named(x))) ==>
             EquationHolds(p, b, LitsOf(p, g, act), t[i], t[NextIndex(i, |t|)]))
  {
    SatisfyingTableSums(p, g, height, t);
    var nxt := t[NextIndex(i, |t|)];
    assert SumStepOk(p, g, t[i], nxt, i, |t|);
    var act := ActionOf(g.rom[t[i](Named(PcName(g.m)))]);
    if act.Invoke? && b in InstrOf(g, act).body && forall x :: b.lhs != Next(Named(x)) {
      ConstraintHolds(p, g, t[i], nxt, i, |t|, act, b);
    }
  }
}
