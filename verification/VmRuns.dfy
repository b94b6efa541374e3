/** Whole tables: soundness and completeness of the compilation. */
module VmRuns {
  import opened Options
  import opened Congruence
  import opened Pil
  import opened Asm
  import opened VmCompile
  import opened VmAffine
  import opened VmTrace
  import opened VmRegisters
  import opened VmTheorem

  // ----- instruction bodies -----

  lemma ConditionalIff(p: Modulus, id: Identity, flag: Expr, cur: Row, nxt: Row)
    requires Eval(flag, cur, nxt) == 0 || Eval(flag, cur, nxt) == 1
    ensures Holds(p, MakeConditional(id, flag), cur, nxt) <==>
            (Eval(flag, cur, nxt) == 1 ==> Cong(p, Eval(id.lhs, cur, nxt), Eval(id.rhs, cur, nxt)))
  {
    var d := Sub(id.lhs, id.rhs);
    assert Eval(Mul(flag, d), cur, nxt) == Eval(flag, cur, nxt) * Eval(d, cur, nxt);
    CongZeroDiff(p, Eval(id.lhs, cur, nxt), Eval(id.rhs, cur, nxt));
  }

  lemma BodyConstraintExpanded(g: Program, d: InstrDef, b: Identity)
    requires InstrOk(d) && b in d.body && TryExtractUpdate(b).None?
    ensures ExpandIdentity(g, BodyConstraint(d, b)) == BodyConstraint(d, b)
  {
    var names := LiteralNames(d.inputs);
    SubstNotInter(b.lhs, d.name, names);
    SubstNotInter(b.rhs, d.name, names);
    var id := BodyConstraint(d, b);
    assert All(Sub(SubstParams(b.lhs, d.name, names), SubstParams(b.rhs, d.name, names)), NotInter);
    assert All(id.lhs, NotInter);
    ExpandLhs(g, id.lhs);
    ExpandLhs(g, id.rhs);
  }

  /** One body constraint of instruction `d`, on a row where `d` is active or not. */
  lemma BodyConstraintIff(p: Modulus, g: Program, d: InstrDef, b: Identity, lits: map<string, int>, cur: Row, nxt: Row)
    requires InstrOk(d) && b in d.body && TryExtractUpdate(b).None?
    requires cur(InstrFlag(d.name)) == 0 || cur(InstrFlag(d.name)) == 1
    requires cur(InstrFlag(d.name)) == 1 ==> ParamsHold(d, lits, cur)
    ensures Holds(p, ExpandIdentity(g, BodyConstraint(d, b)), cur, nxt) <==>
            (cur(InstrFlag(d.name)) == 1 ==> ItemOk(p, b, lits, cur, nxt))
  {
    var names := LiteralNames(d.inputs);
    BodyConstraintExpanded(g, d, b);
    ConditionalIff(p, Identity(SubstParams(b.lhs, d.name, names), SubstParams(b.rhs, d.name, names)), Col(InstrFlag(d.name)), cur, nxt);
    if cur(InstrFlag(d.name)) == 1 {
      SubstBind(b.lhs, d, lits, cur, nxt);
      SubstBind(b.rhs, d, lits, cur, nxt);
    }
  }

  ghost predicate BodiesHold(p: Modulus, g: Program, cur: Row, nxt: Row) {
    forall d, b :: d in Defs(g) && b in d.body && TryExtractUpdate(b).None? ==>
      Holds(p, ExpandIdentity(g, BodyConstraint(d, b)), cur, nxt)
  }

  /** The constraint `b` of an instruction body holds with the given literals. */
  predicate ItemOk(p: Modulus, b: Identity, lits: map<string, int>, cur: Row, nxt: Row) {
    Cong(p, Eval(BindLiterals(b.lhs, lits), cur, nxt), Eval(BindLiterals(b.rhs, lits), cur, nxt))
  }

  lemma {:induction false} BodiesIffFrom(p: Modulus, g: Program, active: Option<InstrDef>, lits: map<string, int>, cur: Row, nxt: Row)
    requires forall d :: d in Defs(g) ==> InstrOk(d) && cur(InstrFlag(d.name)) == (if active == Some(d) then 1 else 0)
    requires active.Some? ==> active.value in Defs(g) && ParamsHold(active.value, lits, cur)
    ensures BodiesHold(p, g, cur, nxt) <==>
            (active.Some? ==> forall b :: b in active.value.body && !IsUpdate(b) ==> ItemOk(p, b, lits, cur, nxt))
  {
    forall d, b | d in Defs(g) && b in d.body && TryExtractUpdate(b).None?
      ensures Holds(p, ExpandIdentity(g, BodyConstraint(d, b)), cur, nxt) <==> (active == Some(d) ==> ItemOk(p, b, lits, cur, nxt))
    {
      BodyConstraintIff(p, g, d, b, lits, cur, nxt);
    }
  }

  function ActiveInstr(g: Program, act: Action): Option<InstrDef>
    requires InvocationOk(g, act)
  {
    if act.Invoke? then Some(InstrOf(g, act)) else None
  }

  lemma ActiveFlags(p: Modulus, g: Program, i: nat, cur: Row)
    requires WellFormed(p, g) && AtLine(p, g, i, cur) && InvocationOk(g, ActionAt(g, i))
    ensures forall d :: d in Defs(g) ==>
              InstrOk(d) && cur(InstrFlag(d.name)) == (if ActiveInstr(g, ActionAt(g, i)) == Some(d) then 1 else 0)
  {
    forall d | d in Defs(g)
      ensures InstrOk(d) && cur(InstrFlag(d.name)) == (if ActiveInstr(g, ActionAt(g, i)) == Some(d) then 1 else 0)
    {
      FlagsAt(p, g, i, cur, d);
      FindInstrUnique(Defs(g), d);
    }
  }

  lemma BodiesIff(p: Modulus, g: Program, i: nat, cur: Row, nxt: Row)
    requires WellFormed(p, g) && AtLine(p, g, i, cur) && InvocationOk(g, ActionAt(g, i))
    ensures BodiesHold(p, g, cur, nxt) <==> BodyOk(p, g, ActionAt(g, i), cur, nxt)
  {
    var act := ActionAt(g, i);
    ActiveFlags(p, g, i, cur);
    if act.Invoke? {
      ParamsAt(p, g, i, cur);
      BodiesIffFrom(p, g, ActiveInstr(g, act), LitsOf(p, g, act), cur, nxt);
    } else {
      BodiesIffFrom(p, g, None, map[], cur, nxt);
    }
  }

  // ----- the identities of a row -----

  ghost predicate AssignsHold(p: Modulus, g: Program, cur: Row, nxt: Row) {
    forall a :: HasReg(g.m.regs, a, Assignment) ==> Holds(p, AssignIdentity(g.m, a), cur, nxt)
  }

  ghost predicate RegistersHold(p: Modulus, g: Program, cur: Row, nxt: Row) {
    forall r :: r in g.m.regs ==> RegisterHolds(p, g, r, cur, nxt)
  }

  ghost predicate PilHolds(p: Modulus, g: Program, cur: Row, nxt: Row) {
    forall id :: id in g.m.pil ==> Holds(p, id, cur, nxt)
  }

  lemma {:induction false} ReadProductsNotInter(a: string, regs: seq<string>)
    ensures forall e :: e in ReadProducts(a, regs) ==> All(e, NotInter)
  {
    if regs != [] { ReadProductsNotInter(a, regs[..|regs| - 1]); }
  }

  lemma {:induction false} SumNotInter(es: seq<Expr>)
    requires forall e :: e in es ==> All(e, NotInter)
    ensures All(SumExpr(es), NotInter)
  {
    if |es| > 1 { SumNotInter(es[..|es| - 1]); }
  }

  lemma AssignExpanded(g: Program, a: string)
    ensures ExpandIdentity(g, AssignIdentity(g.m, a)) == AssignIdentity(g.m, a)
  {
    ReadProductsNotInter(a, ReadRegs(g.m));
    SumNotInter(ReadProducts(a, ReadRegs(g.m)) + [Col(Const(a)), Mul(Col(ReadFree(a)), Col(FreeValue(a)))]);
    ExpandLhs(g, AssignIdentity(g.m, a).lhs);
    ExpandLhs(g, AssignIdentity(g.m, a).rhs);
  }

  lemma PilExpanded(g: Program, id: Identity)
    requires IdentityObservable(id)
    ensures ExpandIdentity(g, id) == id
  {
    AllMono(id.lhs, Observable, NotInter);
    AllMono(id.rhs, Observable, NotInter);
    ExpandLhs(g, id.lhs);
    ExpandLhs(g, id.rhs);
  }

  ghost predicate IdentitiesHold(p: Modulus, g: Program, cur: Row, nxt: Row) {
    forall id :: IsIdentity(g, id) ==> Holds(p, ExpandIdentity(g, id), cur, nxt)
  }

  lemma IdentityGroups(p: Modulus, g: Program, cur: Row, nxt: Row)
    requires forall id :: id in g.m.pil ==> IdentityObservable(id)
    ensures IdentitiesHold(p, g, cur, nxt) <==>
            && PilHolds(p, g, cur, nxt) && BodiesHold(p, g, cur, nxt)
            && AssignsHold(p, g, cur, nxt) && RegistersHold(p, g, cur, nxt)
  {
    forall id | id in g.m.pil ensures ExpandIdentity(g, id) == id { PilExpanded(g, id); }
    forall a ensures ExpandIdentity(g, AssignIdentity(g.m, a)) == AssignIdentity(g.m, a) { AssignExpanded(g, a); }
    if IdentitiesHold(p, g, cur, nxt) {
      forall id | id in g.m.pil ensures Holds(p, id, cur, nxt) { assert IsIdentity(g, id); }
      forall d, b | d in Defs(g) && b in d.body && TryExtractUpdate(b).None?
        ensures Holds(p, ExpandIdentity(g, BodyConstraint(d, b)), cur, nxt)
      {
        assert IsIdentity(g, BodyConstraint(d, b));
      }
      forall a | HasReg(g.m.regs, a, Assignment) ensures Holds(p, AssignIdentity(g.m, a), cur, nxt) {
        assert IsIdentity(g, AssignIdentity(g.m, a));
      }
      forall r, id | r in g.m.regs && id in RegisterIdentities(g, r)
        ensures Holds(p, ExpandIdentity(g, id), cur, nxt)
      {
        assert IsIdentity(g, id);
      }
    }
  }

  // ----- the parts of a row -----

  lemma AssignsSound(p: Modulus, g: Program, i: nat, cur: Row, nxt: Row)
    requires WellFormed(p, g) && AtLine(p, g, i, cur) && InvocationOk(g, ActionAt(g, i))
    requires forall c :: 0 <= cur(c) < p
    requires AssignsHold(p, g, cur, nxt)
    ensures forall a :: HasReg(g.m.regs, a, Assignment) ==> AssignOk(p, g, ActionAt(g, i), a, cur)
  {
    LineFacts(p, g, i);
    forall a | HasReg(g.m.regs, a, Assignment) ensures AssignOk(p, g, ActionAt(g, i), a, cur) {
      AssignSound(p, g, Labels(p, g), ActionAt(g, i), Lines(p, g)[i], a, cur, nxt);
    }
  }

  lemma RegistersSound(p: Modulus, g: Program, i: nat, cur: Row, nxt: Row, last: bool)
    requires WellFormed(p, g) && AtLine(p, g, i, cur) && InvocationOk(g, ActionAt(g, i))
    requires nxt(FirstStep) == (if last then 1 else 0)
    requires forall c :: Observable(c) ==> 0 <= nxt(c) < p
    ensures RegistersHold(p, g, cur, nxt) <==>
            && (forall r :: r in g.m.regs ==> RegisterSumOk(p, g, ActionAt(g, i), r, cur, nxt, last))
            && (forall r :: r in g.m.regs && r.ty == Pc ==> Cong(p, cur(PcUpdate), NewValue(p, g, ActionAt(g, i), r, cur, nxt)))
  {
    forall r | r in g.m.regs
      ensures RegisterHolds(p, g, r, cur, nxt) <==>
              && RegisterSumOk(p, g, ActionAt(g, i), r, cur, nxt, last)
              && (r.ty == Pc ==> Cong(p, cur(PcUpdate), NewValue(p, g, ActionAt(g, i), r, cur, nxt)))
    {
      assert Observable(Named(r.name));
      RegisterSums(p, g, i, r, cur, nxt, last);
    }
  }

  // ----- runs that add up all writers -----

  /** As `StepOk`, but the values of all writers of a register are added up. */
  ghost predicate SumStepOk(p: Modulus, g: Program, cur: Row, nxt: Row, i: nat, n: nat) {
    && FrameOk(p, g, cur, nxt, i, n)
    && forall r :: r in g.m.regs ==> RegisterSumOk(p, g, ActionOf(g.rom[cur(Named(PcName(g.m)))]), r, cur, nxt, i == n - 1)
  }

  ghost predicate IsSumRun(p: Modulus, g: Program, t: seq<Row>) {
    && |t| > 0
    && forall i :: 0 <= i < |t| ==> SumStepOk(p, g, t[i], t[NextIndex(i, |t|)], i, |t|)
  }

  /** On the line that the row executes, the flags of links that name a register are bits, and at most
      one writer of each register takes effect. */
  ghost predicate Exclusive(p: Modulus, g: Program, cur: Row, nxt: Row) {
    var pc := cur(Named(PcName(g.m)));
    0 <= pc < |g.rom| && InvocationOk(g, ActionAt(g, pc)) ==>
      forall r :: r in g.m.regs ==> OneWriter(p, g, ActionAt(g, pc), r.name, cur, nxt)
  }

  ghost predicate AllExclusive(p: Modulus, g: Program, t: seq<Row>) {
    forall i :: 0 <= i < |t| ==> Exclusive(p, g, t[i], t[NextIndex(i, |t|)])
  }

  lemma StepIff(p: Modulus, g: Program, cur: Row, nxt: Row, i: nat, n: nat)
    requires WellFormed(p, g) && Exclusive(p, g, cur, nxt)
    ensures StepOk(p, g, cur, nxt, i, n) <==> SumStepOk(p, g, cur, nxt, i, n)
  {
    if FrameOk(p, g, cur, nxt, i, n) {
      var line := cur(Named(PcName(g.m)));
      forall r | r in g.m.regs
        ensures RegisterOk(p, g, ActionAt(g, line), r, cur, nxt, i == n - 1) <==> RegisterSumOk(p, g, ActionAt(g, line), r, cur, nxt, i == n - 1)
      {
        LineRegisterOk(p, g, line, r, cur, nxt, i == n - 1);
      }
    }
  }

  /** If at most one writer takes effect everywhere, the two kinds of run are the same. */
  lemma {:induction false} RunIff(p: Modulus, g: Program, t: seq<Row>)
    requires WellFormed(p, g) && AllExclusive(p, g, t)
    ensures IsRun(p, g, t) <==> IsSumRun(p, g, t)
  {
    forall i | 0 <= i < |t|
      ensures StepOk(p, g, t[i], t[NextIndex(i, |t|)], i, |t|) <==> SumStepOk(p, g, t[i], t[NextIndex(i, |t|)], i, |t|)
    {
      assert Exclusive(p, g, t[i], t[NextIndex(i, |t|)]);
      StepIff(p, g, t[i], t[NextIndex(i, |t|)], i, |t|);
    }
  }

  // ----- soundness -----

  /** A row accepted by the constraints is a summing step of the machine. */
  lemma {:induction false} RowSound(p: Modulus, g: Program, height: nat, cur: Row, nxt: Row, i: nat, n: nat)
    requires WellFormed(p, g) && RowSatisfies(p, g, height, cur, nxt, i, n)
    requires nxt(FirstStep) == (if i == n - 1 then 1 else 0)
    requires forall c :: 0 <= nxt(c) < p
    ensures SumStepOk(p, g, cur, nxt, i, n)
  {
    var line := RowLine(p, g, height, cur, nxt, i, n);
    FrameSound(p, g, line, cur, nxt, i, n);
    SumsSound(p, g, line, cur, nxt, i == n - 1);
  }

  lemma {:induction false} FrameSound(p: Modulus, g: Program, line: nat, cur: Row, nxt: Row, i: nat, n: nat)
    requires WellFormed(p, g) && AtLine(p, g, line, cur) && InvocationOk(g, ActionAt(g, line)) && cur(Named(PcName(g.m))) == line
    requires (forall c :: 0 <= cur(c) < p) && FixedOk(cur, i, n)
    requires PilHolds(p, g, cur, nxt) && AssignsHold(p, g, cur, nxt) && BodiesHold(p, g, cur, nxt)
    ensures FrameOk(p, g, cur, nxt, i, n)
  {
    LineSound(p, g, line, cur, nxt);
  }

  lemma {:induction false} SumsSound(p: Modulus, g: Program, line: nat, cur: Row, nxt: Row, last: bool)
    requires WellFormed(p, g) && AtLine(p, g, line, cur) && InvocationOk(g, ActionAt(g, line)) && RegistersHold(p, g, cur, nxt)
    requires nxt(FirstStep) == (if last then 1 else 0) && forall c :: 0 <= nxt(c) < p
    ensures forall r :: r in g.m.regs ==> RegisterSumOk(p, g, ActionAt(g, line), r, cur, nxt, last)
  {
    RegistersSound(p, g, line, cur, nxt, last);
  }

  /** The line that an accepted row carries, and its identities by group. */
  lemma {:induction false} RowLine(p: Modulus, g: Program, height: nat, cur: Row, nxt: Row, i: nat, n: nat) returns (line: nat)
    requires WellFormed(p, g) && RowSatisfies(p, g, height, cur, nxt, i, n)
    ensures line < |g.rom| && cur(Named(PcName(g.m))) == line && AtLine(p, g, line, cur) && InvocationOk(g, ActionAt(g, line))
    ensures PilHolds(p, g, cur, nxt) && BodiesHold(p, g, cur, nxt) && AssignsHold(p, g, cur, nxt) && RegistersHold(p, g, cur, nxt)
  {
    var k: nat :| k < height && MatchesRom(p, g, cur, k);
    line := PaddedIndex(k, |g.rom|);
    LineFacts(p, g, line);
    assert IdentitiesHold(p, g, cur, nxt);
    IdentityGroups(p, g, cur, nxt);
  }

  lemma {:induction false} LineSound(p: Modulus, g: Program, line: nat, cur: Row, nxt: Row)
    requires WellFormed(p, g) && AtLine(p, g, line, cur) && InvocationOk(g, ActionAt(g, line)) && forall c :: 0 <= cur(c) < p
    requires AssignsHold(p, g, cur, nxt) && BodiesHold(p, g, cur, nxt)
    ensures forall d :: d in Defs(g) ==> cur(InstrFlag(d.name)) == IsActive(ActionAt(g, line), d.name)
    ensures forall a :: HasReg(g.m.regs, a, Assignment) ==> AssignOk(p, g, ActionAt(g, line), a, cur)
    ensures BodyOk(p, g, ActionAt(g, line), cur, nxt)
  {
    forall d | d in Defs(g) ensures cur(InstrFlag(d.name)) == IsActive(ActionAt(g, line), d.name) {
      FlagsAt(p, g, line, cur, d);
    }
    AssignsSound(p, g, line, cur, nxt);
    BodiesIff(p, g, line, cur, nxt);
  }

  lemma {:induction false} SatisfyingTableSums(p: Modulus, g: Program, height: nat, t: seq<Row>)
    requires WellFormed(p, g) && Satisfies(p, g, height, t)
    ensures IsSumRun(p, g, t)
  {
    forall i | 0 <= i < |t| ensures SumStepOk(p, g, t[i], t[NextIndex(i, |t|)], i, |t|) {
      RowPair(p, g, height, t, i);
      RowSound(p, g, height, t[i], t[NextIndex(i, |t|)], i, |t|);
    }
  }

  /** Soundness: every table that satisfies the compiled constraints is a run of the program. */
  lemma SatisfyingTableIsRun(p: Modulus, g: Program, height: nat, t: seq<Row>)
    requires WellFormed(p, g) && Satisfies(p, g, height, t) && AllExclusive(p, g, t)
    ensures IsRun(p, g, t)
  {
    SatisfyingTableSums(p, g, height, t);
    RunIff(p, g, t);
  }

  lemma {:induction false} RowPair(p: Modulus, g: Program, height: nat, t: seq<Row>, i: nat)
    requires Accepted(p, g) && |g.rom| > 0 && Satisfies(p, g, height, t) && i < |t|
    ensures var nxt := t[NextIndex(i, |t|)];
            && RowSatisfies(p, g, height, t[i], nxt, i, |t|) && nxt(FirstStep) == (if i == |t| - 1 then 1 else 0)
            && forall c :: 0 <= nxt(c) < p
  {
    var j := NextIndex(i, |t|);
    assert RowSatisfies(p, g, height, t[i], t[j], i, |t|) && RowSatisfies(p, g, height, t[j], t[NextIndex(j, |t|)], j, |t|);
  }

  // ----- completeness -----

  ghost predicate SameObservable(cur: Row, cur': Row) {
    forall c :: Observable(c) ==> cur(c) == cur'(c)
  }

  lemma {:induction false} EvalAsmAgree(p: Modulus, e: AsmExpr, cur: Row, cur': Row, free: int)
    requires SameObservable(cur, cur')
    ensures EvalAsm(p, e, cur, free) == EvalAsm(p, e, cur', free)
  {
    match e
    case Ref(x) => assert Observable(Named(x));
    case Bin(_, a, b) => EvalAsmAgree(p, a, cur, cur', free); EvalAsmAgree(p, b, cur, cur', free);
    case Minus(a) => EvalAsmAgree(p, a, cur, cur', free);
    case _ =>
  }

  lemma AssignAgree(p: Modulus, g: Program, act: Action, a: string, cur: Row, cur': Row)
    requires InvocationOk(g, act) && SameObservable(cur, cur') && AssignOk(p, g, act, a, cur)
    ensures AssignOk(p, g, act, a, cur')
  {
    assert Observable(Named(a));
    var role := RoleOf(g, act, a);
    if role.Reading? {
      var free :| 0 <= free < p && Cong(p, cur(Named(a)), EvalAsm(p, role.e, cur, free));
      EvalAsmAgree(p, role.e, cur, cur', free);
    }
  }

  lemma {:induction false} BoundObservable(e: Expr, lits: map<string, int>)
    requires All(e, Observable)
    ensures All(BindLiterals(e, lits), Observable)
  {
    match e
    case Num(_) =>
    case Col(_) =>
    case Next(_) =>
    case Neg(a) => BoundObservable(a, lits);
    case Add(a, b) => BoundObservable(a, lits); BoundObservable(b, lits);
    case Sub(a, b) => BoundObservable(a, lits); BoundObservable(b, lits);
    case Mul(a, b) => BoundObservable(a, lits); BoundObservable(b, lits);
  }

  predicate WriterObservable(w: Writer) {
    match w
    case FromAssign(_) => true
    case Computed(e) => All(e, Observable)
    case AnyIf(f) => All(f, Observable)
  }

  lemma {:induction false} OutputWritersObservable(outputs: seq<string>, targets: seq<AsmExpr>, r: string)
    requires |outputs| == |targets|
    ensures forall w :: w in OutputWriters(outputs, targets, r) ==> WriterObservable(w)
  {
    if outputs != [] { OutputWritersObservable(outputs[1..], targets[1..], r); }
  }

  lemma {:induction false} LinkWritersObservable(links: seq<LinkDecl>, r: string)
    requires forall l :: l in links ==> All(l.flag, Observable)
    ensures forall w :: w in LinkWriters(links, r) ==> WriterObservable(w)
  {
    if links != [] { LinkWritersObservable(links[1..], r); }
  }

  lemma {:induction false} BodyWritersObservable(body: seq<Identity>, lits: map<string, int>, r: string)
    requires forall id :: id in body ==> All(id.rhs, Observable)
    ensures forall w :: w in BodyWriters(body, lits, r) ==> WriterObservable(w)
  {
    if body != [] {
      BodyWritersObservable(body[1..], lits, r);
      BoundObservable(body[0].rhs, lits);
    }
  }

  lemma WritersObservable(p: Modulus, g: Program, act: Action, r: string)
    requires InvocationOk(g, act) && forall d :: d in Defs(g) ==> InstrOk(d)
    ensures forall w :: w in Writers(p, g, act, r) ==> WriterObservable(w)
  {
    if act.Invoke? {
      var d := InstrOf(g, act);
      OutputWritersObservable(d.outputs, act.args[|d.inputs|..], r);
      LinkWritersObservable(d.links, r);
      BodyWritersObservable(d.body, LitsOf(p, g, act), r);
    }
  }

  lemma WriterAgree(w: Writer, r: string, x: int, cur: Row, nxt: Row, cur': Row, nxt': Row)
    requires SameObservable(cur, cur') && SameObservable(nxt, nxt') && WriterObservable(w)
    ensures WriterDeviation(w, r, x, cur, nxt) == WriterDeviation(w, r, x, cur', nxt')
  {
    assert Observable(Named(r));
    match w
    case FromAssign(a) => assert Observable(Named(a));
    case Computed(e) => EvalAgree(e, Observable, cur, nxt, cur', nxt');
    case AnyIf(f) => EvalAgree(f, Observable, cur, nxt, cur', nxt');
  }

  lemma {:induction false} WritersAgree(ws: seq<Writer>, r: string, x: int, cur: Row, nxt: Row, cur': Row, nxt': Row)
    requires SameObservable(cur, cur') && SameObservable(nxt, nxt') && forall w :: w in ws ==> WriterObservable(w)
    ensures WritersSum(ws, r, x, cur, nxt) == WritersSum(ws, r, x, cur', nxt')
    decreases |ws|
  {
    if ws != [] {
      WriterAgree(ws[0], r, x, cur, nxt, cur', nxt');
      WritersAgree(ws[1..], r, x, cur, nxt, cur', nxt');
    }
  }

  lemma NewValueAgree(p: Modulus, g: Program, act: Action, r: RegDecl, cur: Row, nxt: Row, cur': Row, nxt': Row)
    requires InvocationOk(g, act) && forall d :: d in Defs(g) ==> InstrOk(d)
    requires SameObservable(cur, cur') && SameObservable(nxt, nxt')
    ensures NewValue(p, g, act, r, cur, nxt) == NewValue(p, g, act, r, cur', nxt')
  {
    WritersObservable(p, g, act, r.name);
    assert Observable(Named(r.name));
    WritersAgree(Writers(p, g, act, r.name), r.name, DefaultValue(r, cur), cur, nxt, cur', nxt');
  }

  lemma RegistersAgree(p: Modulus, g: Program, act: Action, r: RegDecl, cur: Row, nxt: Row, cur': Row, nxt': Row, last: bool)
    requires InvocationOk(g, act) && forall d :: d in Defs(g) ==> InstrOk(d)
    requires SameObservable(cur, cur') && SameObservable(nxt, nxt')
    ensures RegisterSumOk(p, g, act, r, cur, nxt, last) <==> RegisterSumOk(p, g, act, r, cur', nxt', last)
  {
    assert Observable(Named(r.name));
    NewValueAgree(p, g, act, r, cur, nxt, cur', nxt');
  }

  lemma BodyAgree(p: Modulus, g: Program, act: Action, cur: Row, nxt: Row, cur': Row, nxt': Row)
    requires InvocationOk(g, act) && forall d :: d in Defs(g) ==> InstrOk(d)
    requires SameObservable(cur, cur') && SameObservable(nxt, nxt') && BodyOk(p, g, act, cur, nxt)
    ensures BodyOk(p, g, act, cur', nxt')
  {
    if act.Invoke? {
      var lits := LitsOf(p, g, act);
      forall id | id in InstrOf(g, act).body && !IsUpdate(id)
        ensures Cong(p, Eval(BindLiterals(id.lhs, lits), cur', nxt'), Eval(BindLiterals(id.rhs, lits), cur', nxt'))
      {
        BoundObservable(id.lhs, lits);
        BoundObservable(id.rhs, lits);
        EvalAgree(BindLiterals(id.lhs, lits), Observable, cur, nxt, cur', nxt');
        EvalAgree(BindLiterals(id.rhs, lits), Observable, cur, nxt, cur', nxt');
      }
    }
  }

  /** Being a step of the machine depends on the observable columns only. */
  lemma StepAgree(p: Modulus, g: Program, cur: Row, nxt: Row, cur': Row, nxt': Row, i: nat, n: nat)
    requires forall d :: d in Defs(g) ==> InstrOk(d)
    requires forall id :: id in g.m.pil ==> IdentityObservable(id)
    requires SameObservable(cur, cur') && SameObservable(nxt, nxt') && SumStepOk(p, g, cur, nxt, i, n)
    ensures SumStepOk(p, g, cur', nxt', i, n)
  {
    assert Observable(Named(PcName(g.m))) && Observable(FirstStep) && Observable(LastStep);
    var act := ActionOf(g.rom[cur(Named(PcName(g.m)))]);
    forall d | d in Defs(g) ensures cur'(InstrFlag(d.name)) == IsActive(act, d.name) {
      assert Observable(InstrFlag(d.name));
    }
    forall a | HasReg(g.m.regs, a, Assignment) ensures AssignOk(p, g, act, a, cur') { AssignAgree(p, g, act, a, cur, cur'); }
    forall r | r in g.m.regs ensures RegisterSumOk(p, g, act, r, cur', nxt', i == n - 1) {
      RegistersAgree(p, g, act, r, cur, nxt, cur', nxt', i == n - 1);
    }
    BodyAgree(p, g, act, cur, nxt, cur', nxt');
    forall id | id in g.m.pil ensures Holds(p, id, cur', nxt') {
      EvalAgree(id.lhs, Observable, cur, nxt, cur', nxt');
      EvalAgree(id.rhs, Observable, cur, nxt, cur', nxt');
    }
  }

  ghost predicate GoodFree(p: Modulus, g: Program, pos: map<string, nat>, line: CodeLine, a: string, cur: Row, free: int) {
    && 0 <= free < p
    && Cong(p, cur(Named(a)), FixedRhs(p, g, pos, line, a, cur) + RomEntry(p, g, pos, line, ReadFree(a)) * free)
  }

  ghost function FreeOf(p: Modulus, g: Program, pos: map<string, nat>, line: CodeLine, a: string, cur: Row): (f: int)
    ensures 0 <= f < p
  {
    if exists free :: GoodFree(p, g, pos, line, a, cur, free)
    then var free :| GoodFree(p, g, pos, line, a, cur, free); free
    else 0
  }

  /** The witness for one row: ROM columns from the line, free values and the pc update solved for. */
  ghost function FillCell(p: Modulus, g: Program, i: nat, cur: Row, nxt: Row, c: Column): int
    requires Accepted(p, g) && i < |g.rom| && InvocationOk(g, ActionAt(g, i))
  {
    match c
    case Named(_) => cur(c)
    case InstrFlag(_) => cur(c)
    case FirstStep => cur(c)
    case LastStep => cur(c)
    case FreeValue(a) => FreeOf(p, g, Labels(p, g), Lines(p, g)[i], a, cur)
    case PcUpdate => Rep(p, NewValue(p, g, ActionAt(g, i), RegDecl(PcName(g.m), Pc), cur, nxt))
    case Inter(_, _, _) => 0
    case _ => Rep(p, RomEntry(p, g, Labels(p, g), Lines(p, g)[i], c))
  }

  ghost function FillRow(p: Modulus, g: Program, i: nat, cur: Row, nxt: Row): Row
    requires Accepted(p, g) && i < |g.rom| && InvocationOk(g, ActionAt(g, i))
  {
    c => FillCell(p, g, i, cur, nxt, c)
  }

  lemma {:induction false} ParamRange(p: Modulus, pos: map<string, nat>, names: seq<string>, lits: seq<LitArg>)
    requires |names| == |lits|
    requires forall k :: 0 <= k < |lits| ==> 0 <= ResolveLit(pos, lits[k]) < p
    ensures forall q :: q in ParamValues(pos, names, lits) ==> 0 <= ParamValues(pos, names, lits)[q] < p
  {
    if names != [] { ParamRange(p, pos, names[..|names| - 1], lits[..|names| - 1]); }
  }

  lemma {:induction false} LiteralRange(p: Modulus, pos: map<string, nat>, inputs: seq<Input>, args: seq<AsmExpr>)
    requires |inputs| <= |args| && HandleInputs(p, inputs, args).Some?
    requires forall l :: l in pos ==> pos[l] < p
    ensures forall k :: 0 <= k < |HandleInputs(p, inputs, args).value.lits| ==>
              0 <= ResolveLit(pos, HandleInputs(p, inputs, args).value.lits[k]) < p
  {
    if inputs != [] { LiteralRange(p, pos, inputs[..|inputs| - 1], args); }
  }

  lemma {:induction false} LabelRange(lines: seq<CodeLine>)
    requires LabelPositions(lines).Some?
    ensures forall l :: l in LabelPositions(lines).value ==> LabelPositions(lines).value[l] < |lines|
  {
    if lines != [] { LabelRange(lines[..|lines| - 1]); }
  }

  lemma RomCanonical(p: Modulus, g: Program, i: nat, c: Column)
    requires Accepted(p, g) && i < |g.rom| <= p
    ensures 0 <= RomEntry(p, g, Labels(p, g), Lines(p, g)[i], c) < p
  {
    var line := Lines(p, g)[i];
    LineFacts(p, g, i);
    LabelRange(Lines(p, g));
    if c.Param? && line.instrs != [] && line.instrs[0].0 == c.instr {
      var act := ActionAt(g, i);
      var d := InstrOf(g, act);
      LiteralRange(p, Labels(p, g), d.inputs, act.args);
      if |LiteralNames(d.inputs)| == |line.instrs[0].1| {
        ParamRange(p, Labels(p, g), LiteralNames(d.inputs), line.instrs[0].1);
      }
    }
  }

  /** The filled row carries its line. */
  lemma FilledCarriesLine(p: Modulus, g: Program, i: nat, cur: Row, nxt: Row)
    requires Accepted(p, g) && i < |g.rom| <= p && InvocationOk(g, ActionAt(g, i))
    requires forall d :: d in Defs(g) ==> cur(InstrFlag(d.name)) == IsActive(ActionAt(g, i), d.name)
    ensures AtLine(p, g, i, FillRow(p, g, i, cur, nxt))
  {
    var cur' := FillRow(p, g, i, cur, nxt);
    LineFacts(p, g, i);
    forall c | IsLookupColumn(g, c) ensures cur'(c) == RomEntry(p, g, Labels(p, g), Lines(p, g)[i], c) {
      RomCanonical(p, g, i, c);
      if c.InstrFlag? {
        var d :| d in Defs(g) && d.name == c.instr;
      } else {
        RepCanonical(p, RomEntry(p, g, Labels(p, g), Lines(p, g)[i], c));
      }
    }
  }

  lemma RepCanonical(p: Modulus, x: int)
    requires 0 <= x < p
    ensures Rep(p, x) == x
  {
  }

  lemma FilledObservable(p: Modulus, g: Program, i: nat, cur: Row, nxt: Row)
    requires Accepted(p, g) && i < |g.rom| && InvocationOk(g, ActionAt(g, i))
    ensures SameObservable(cur, FillRow(p, g, i, cur, nxt))
  {
  }

  lemma {:induction false} RomRhsAgree(p: Modulus, g: Program, pos: map<string, nat>, line: CodeLine, a: string, regs: seq<string>, cur: Row, cur': Row)
    requires SameObservable(cur, cur')
    ensures RomRhs(p, g, pos, line, a, regs, cur) == RomRhs(p, g, pos, line, a, regs, cur')
  {
    if regs != [] {
      RomRhsAgree(p, g, pos, line, a, regs[..|regs| - 1], cur, cur');
      assert Observable(Named(regs[|regs| - 1]));
    }
  }

  lemma AssignFromFree(p: Modulus, g: Program, pos: map<string, nat>, line: CodeLine, a: string, cur: Row, cur': Row, nxt': Row)
    requires CarriesLine(p, g, pos, line, cur') && HasReg(g.m.regs, a, Assignment)
    requires SameObservable(cur, cur') && GoodFree(p, g, pos, line, a, cur, cur'(FreeValue(a)))
    ensures Holds(p, AssignIdentity(g.m, a), cur', nxt')
  {
    RomRhsAgree(p, g, pos, line, a, ReadRegs(g.m), cur, cur');
    assert FixedRhs(p, g, pos, line, a, cur) == FixedRhs(p, g, pos, line, a, cur');
    assert Observable(Named(a));
    AssignIdentityValue(p, g, pos, line, a, cur', nxt');
  }

  lemma FreeExists(p: Modulus, g: Program, i: nat, a: string, cur: Row)
    requires WellFormed(p, g) && i < |g.rom| && InvocationOk(g, ActionAt(g, i)) && AssignOk(p, g, ActionAt(g, i), a, cur)
    ensures var pos, line := Labels(p, g), Lines(p, g)[i];
            GoodFree(p, g, pos, line, a, cur, FreeOf(p, g, pos, line, a, cur))
  {
    var pos, line := Labels(p, g), Lines(p, g)[i];
    LineFacts(p, g, i);
    var free := AssignComplete(p, g, pos, ActionAt(g, i), line, a, cur);
    assert GoodFree(p, g, pos, line, a, cur, free);
  }

  lemma FilledAssign(p: Modulus, g: Program, i: nat, cur: Row, nxt: Row, nxt': Row, a: string)
    requires WellFormed(p, g) && i < |g.rom| && InvocationOk(g, ActionAt(g, i))
    requires AtLine(p, g, i, FillRow(p, g, i, cur, nxt))
    requires HasReg(g.m.regs, a, Assignment) && AssignOk(p, g, ActionAt(g, i), a, cur)
    ensures Holds(p, AssignIdentity(g.m, a), FillRow(p, g, i, cur, nxt), nxt')
  {
    FreeExists(p, g, i, a, cur);
    FilledObservable(p, g, i, cur, nxt);
    AssignFromFree(p, g, Labels(p, g), Lines(p, g)[i], a, cur, FillRow(p, g, i, cur, nxt), nxt');
  }

  lemma FilledPcUpdate(p: Modulus, g: Program, i: nat, cur: Row, nxt: Row, nxt': Row, r: RegDecl)
    requires WellFormed(p, g) && i < |g.rom| && InvocationOk(g, ActionAt(g, i)) && SameObservable(nxt, nxt')
    requires r in g.m.regs && r.ty == Pc
    ensures var cur' := FillRow(p, g, i, cur, nxt);
            Cong(p, cur'(PcUpdate), NewValue(p, g, ActionAt(g, i), r, cur', nxt'))
  {
    OnePc(g.m, r);
    FilledPcFrom(p, g, i, cur, nxt, nxt', r);
  }

  lemma FilledPcFrom(p: Modulus, g: Program, i: nat, cur: Row, nxt: Row, nxt': Row, r: RegDecl)
    requires Accepted(p, g) && i < |g.rom| && InvocationOk(g, ActionAt(g, i)) && SameObservable(nxt, nxt')
    requires (forall d :: d in Defs(g) ==> InstrOk(d)) && r == RegDecl(PcName(g.m), Pc)
    ensures var cur' := FillRow(p, g, i, cur, nxt);
            Cong(p, cur'(PcUpdate), NewValue(p, g, ActionAt(g, i), r, cur', nxt'))
  {
    FilledObservable(p, g, i, cur, nxt);
    NewValueAgree(p, g, ActionAt(g, i), r, cur, nxt, FillRow(p, g, i, cur, nxt), nxt');
  }

  lemma OnePc(m: Machine, r: RegDecl)
    requires |RegNames(m.regs, Pc)| == 1 && r in m.regs && r.ty == Pc
    ensures r == RegDecl(PcName(m), Pc)
  {
    assert HasReg(m.regs, r.name, Pc);
    assert r.name in RegNames(m.regs, Pc);
  }

  lemma FilledRange(p: Modulus, g: Program, i: nat, cur: Row, nxt: Row)
    requires Accepted(p, g) && i < |g.rom| && InvocationOk(g, ActionAt(g, i))
    requires forall c :: Observable(c) ==> 0 <= cur(c) < p
    ensures forall c :: 0 <= FillRow(p, g, i, cur, nxt)(c) < p
  {
    forall c ensures 0 <= FillRow(p, g, i, cur, nxt)(c) < p {
      assert Observable(c) ==> 0 <= cur(c) < p;
    }
  }

  /** A step of the machine, completed with its witness columns, satisfies the constraints. */
  lemma RowComplete(p: Modulus, g: Program, height: nat, cur: Row, nxt: Row, nxt': Row, i: nat, n: nat)
    requires WellFormed(p, g) && |g.rom| <= height && SumStepOk(p, g, cur, nxt, i, n)
    requires SameObservable(nxt, nxt')
    requires nxt(FirstStep) == (if i == n - 1 then 1 else 0)
    requires forall c :: Observable(c) ==> 0 <= nxt(c) < p
    ensures var line := cur(Named(PcName(g.m)));
            RowSatisfies(p, g, height, FillRow(p, g, line, cur, nxt), nxt', i, n)
  {
    var line := cur(Named(PcName(g.m)));
    var cur' := FillRow(p, g, line, cur, nxt);
    FilledObservable(p, g, line, cur, nxt);
    FilledRange(p, g, line, cur, nxt);
    FilledCarriesLine(p, g, line, cur, nxt);
    StepAgree(p, g, cur, nxt, cur', nxt', i, n);
    assert Observable(FirstStep) && Observable(Named(PcName(g.m)));
    RegistersComplete(p, g, line, cur, nxt, nxt', i == n - 1);
    BodiesIff(p, g, line, cur', nxt');
    forall a | HasReg(g.m.regs, a, Assignment) ensures Holds(p, AssignIdentity(g.m, a), cur', nxt') {
      FilledAssign(p, g, line, cur, nxt, nxt', a);
    }
    IdentityGroups(p, g, cur', nxt');
    assert IdentitiesHold(p, g, cur', nxt');
    assert MatchesRom(p, g, cur', line);
  }

  lemma RegistersComplete(p: Modulus, g: Program, line: nat, cur: Row, nxt: Row, nxt': Row, last: bool)
    requires WellFormed(p, g) && line < |g.rom| && InvocationOk(g, ActionAt(g, line)) && SameObservable(nxt, nxt')
    requires var cur' := FillRow(p, g, line, cur, nxt);
             && AtLine(p, g, line, cur')
             && forall r :: r in g.m.regs ==> RegisterSumOk(p, g, ActionAt(g, line), r, cur', nxt', last)
    requires nxt'(FirstStep) == (if last then 1 else 0)
    requires forall c :: Observable(c) ==> 0 <= nxt'(c) < p
    ensures RegistersHold(p, g, FillRow(p, g, line, cur, nxt), nxt')
  {
    var cur' := FillRow(p, g, line, cur, nxt);
    forall r | r in g.m.regs && r.ty == Pc
      ensures Cong(p, cur'(PcUpdate), NewValue(p, g, ActionAt(g, line), r, cur', nxt'))
    {
      FilledPcUpdate(p, g, line, cur, nxt, nxt', r);
    }
    RegistersSound(p, g, line, cur', nxt', last);
  }

  ghost function FillTable(p: Modulus, g: Program, t: seq<Row>): (t': seq<Row>)
    requires WellFormed(p, g) && IsSumRun(p, g, t)
    ensures |t'| == |t|
  {
    seq(|t|, i requires 0 <= i < |t| =>
      assert SumStepOk(p, g, t[i], t[NextIndex(i, |t|)], i, |t|);
      FillRow(p, g, t[i](Named(PcName(g.m))), t[i], t[NextIndex(i, |t|)]))
  }

  /** The two tables agree on everything a run talks about. */
  ghost predicate SameRun(t: seq<Row>, t': seq<Row>) {
    |t| == |t'| && forall i :: 0 <= i < |t| ==> SameObservable(t[i], t'[i])
  }

  lemma FilledRow(p: Modulus, g: Program, t: seq<Row>, i: nat)
    requires WellFormed(p, g) && IsSumRun(p, g, t) && i < |t|
    ensures SumStepOk(p, g, t[i], t[NextIndex(i, |t|)], i, |t|)
    ensures FillTable(p, g, t)[i] == FillRow(p, g, t[i](Named(PcName(g.m))), t[i], t[NextIndex(i, |t|)])
    ensures SameObservable(t[i], FillTable(p, g, t)[i])
  {
    assert SumStepOk(p, g, t[i], t[NextIndex(i, |t|)], i, |t|);
    FilledObservable(p, g, t[i](Named(PcName(g.m))), t[i], t[NextIndex(i, |t|)]);
  }

  lemma FilledRowSatisfies(p: Modulus, g: Program, height: nat, t: seq<Row>, i: nat)
    requires WellFormed(p, g) && |g.rom| <= height && IsSumRun(p, g, t) && i < |t|
    ensures RowSatisfies(p, g, height, FillTable(p, g, t)[i], FillTable(p, g, t)[NextIndex(i, |t|)], i, |t|)
  {
    var j := NextIndex(i, |t|);
    FilledRow(p, g, t, i);
    FilledRow(p, g, t, j);
    FilledPair(p, g, height, t, i, FillTable(p, g, t)[j]);
  }

  lemma {:induction false} FilledPair(p: Modulus, g: Program, height: nat, t: seq<Row>, i: nat, nxt': Row)
    requires WellFormed(p, g) && |g.rom| <= height && IsSumRun(p, g, t) && i < |t|
    requires SameObservable(t[NextIndex(i, |t|)], nxt')
    ensures var j := NextIndex(i, |t|);
            SumStepOk(p, g, t[i], t[j], i, |t|) && RowSatisfies(p, g, height, FillRow(p, g, t[i](Named(PcName(g.m))), t[i], t[j]), nxt', i, |t|)
  {
    RunPair(p, g, t, i);
    RowComplete(p, g, height, t[i], t[NextIndex(i, |t|)], nxt', i, |t|);
  }

  lemma {:induction false} RunPair(p: Modulus, g: Program, t: seq<Row>, i: nat)
    requires IsSumRun(p, g, t) && i < |t|
    ensures var nxt := t[NextIndex(i, |t|)];
            && SumStepOk(p, g, t[i], nxt, i, |t|) && nxt(FirstStep) == (if i == |t| - 1 then 1 else 0)
            && forall c :: Observable(c) ==> 0 <= nxt(c) < p
  {
    var j := NextIndex(i, |t|);
    assert SumStepOk(p, g, t[i], t[j], i, |t|) && SumStepOk(p, g, t[j], t[NextIndex(j, |t|)], j, |t|);
  }

  lemma SumRunHasTable(p: Modulus, g: Program, height: nat, t: seq<Row>)
    requires WellFormed(p, g) && |g.rom| <= height && IsSumRun(p, g, t)
    ensures SameRun(t, FillTable(p, g, t)) && Satisfies(p, g, height, FillTable(p, g, t))
  {
    forall i | 0 <= i < |t| ensures SameObservable(t[i], FillTable(p, g, t)[i]) {
      FilledRow(p, g, t, i);
    }
    forall i | 0 <= i < |t|
      ensures RowSatisfies(p, g, height, FillTable(p, g, t)[i], FillTable(p, g, t)[NextIndex(i, |t|)], i, |t|)
    {
      FilledRowSatisfies(p, g, height, t, i);
    }
  }

  /** Completeness: every run extends to a table that satisfies the compiled constraints. */
  lemma RunHasTable(p: Modulus, g: Program, height: nat, t: seq<Row>)
    requires WellFormed(p, g) && |g.rom| <= height && IsRun(p, g, t) && AllExclusive(p, g, t)
    ensures IsSumRun(p, g, t) && SameRun(t, FillTable(p, g, t)) && Satisfies(p, g, height, FillTable(p, g, t))
  {
    RunIff(p, g, t);
    SumRunHasTable(p, g, height, t);
  }

  lemma RunAgree(p: Modulus, g: Program, t: seq<Row>, t': seq<Row>)
    requires WellFormed(p, g) && SameRun(t, t') && IsSumRun(p, g, t)
    ensures IsSumRun(p, g, t')
  {
    forall i | 0 <= i < |t'| ensures SumStepOk(p, g, t'[i], t'[NextIndex(i, |t'|)], i, |t'|) {
      var j := NextIndex(i, |t|);
      assert SumStepOk(p, g, t[i], t[j], i, |t|);
      assert SameObservable(t[i], t'[i]) && SameObservable(t[j], t'[j]);
      StepAgree(p, g, t[i], t[j], t'[i], t'[j], i, |t|);
    }
  }

  /** Without any condition on the writers: the compiled constraints accept exactly the runs that add up
      the values of all writers. */
  lemma CompilationSums(p: Modulus, g: Program, height: nat, t: seq<Row>)
    requires WellFormed(p, g) && |g.rom| <= height
    ensures IsSumRun(p, g, t) <==> exists t' :: SameRun(t, t') && Satisfies(p, g, height, t')
  {
    if IsSumRun(p, g, t) {
      SumRunHasTable(p, g, height, t);
    }
    if exists t' :: SameRun(t, t') && Satisfies(p, g, height, t') {
      var t' :| SameRun(t, t') && Satisfies(p, g, height, t');
      SatisfyingTableSums(p, g, height, t');
      RunAgree(p, g, t', t);
    }
  }

  /** The compiled constraints accept exactly the runs of the source program: a table is a run iff
      witness columns can be added to it so that all identities and the ROM lookup hold. */
  lemma CompilationCorrect(p: Modulus, g: Program, height: nat, t: seq<Row>)
    requires WellFormed(p, g) && |g.rom| <= height && AllExclusive(p, g, t)
    ensures IsRun(p, g, t) <==> exists t' :: SameRun(t, t') && Satisfies(p, g, height, t')
  {
    RunIff(p, g, t);
    CompilationSums(p, g, height, t);
  }
}
