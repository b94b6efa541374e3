/** The register-update identities: on a row that carries a ROM line, the one-hot update sum gives
    each register exactly the value that the line writes to it. */
module VmRegisters {
  import opened Options
  import opened Collections
  import opened Congruence
  import opened Pil
  import opened Asm
  import opened VmCompile
  import opened VmAffine
  import opened VmTrace

  // ----- expanding intermediate polynomials in update sums -----

  function ExpandAll(ds: seq<Definition>, es: seq<Expr>): seq<Expr> {
    seq(|es|, i requires 0 <= i < |es| => Expand(ds, es[i]))
  }

  function ExpandUpdates(ds: seq<Definition>, us: seq<Update>): seq<Update> {
    seq(|us|, i requires 0 <= i < |us| => Update(Expand(ds, us[i].cond), Expand(ds, us[i].value)))
  }

  lemma {:induction false} ExpandNum(ds: seq<Definition>, n: int)
    ensures Expand(ds, Num(n)) == Num(n)
  {
    if ds != [] { ExpandNum(ds[..|ds| - 1], n); }
  }

  lemma {:induction false} ExpandSum(ds: seq<Definition>, es: seq<Expr>)
    ensures Expand(ds, SumExpr(es)) == SumExpr(ExpandAll(ds, es))
  {
    if es == [] {
      ExpandNum(ds, 0);
    } else if |es| > 1 {
      var k := |es| - 1;
      ExpandSum(ds, es[..k]);
      ExpandHomomorphic(ds, SumExpr(es[..k]), es[k]);
      assert ExpandAll(ds, es)[..k] == ExpandAll(ds, es[..k]);
    }
  }

  lemma ExpandUpdateExpression(ds: seq<Definition>, us: seq<Update>, dflt: Option<Expr>)
    requires UpdateExpression(us, dflt).Some?
    requires dflt.Some? ==> Expand(ds, dflt.value) == dflt.value
    ensures UpdateExpression(ExpandUpdates(ds, us), dflt) == Some(Expand(ds, UpdateExpression(us, dflt).value))
  {
    if |us| > 0 {
      var us' := ExpandUpdates(ds, us);
      ExpandSum(ds, Products(us));
      forall i | 0 <= i < |us| ensures Expand(ds, Products(us)[i]) == Products(us')[i] {
        ExpandHomomorphic(ds, us[i].cond, us[i].value);
      }
      assert ExpandAll(ds, Products(us)) == Products(us');
      if dflt.Some? {
        ExpandSum(ds, Conds(us));
        assert ExpandAll(ds, Conds(us)) == Conds(us');
        var rest := Sub(Num(1), SumExpr(Conds(us)));
        ExpandNum(ds, 1);
        ExpandHomomorphic(ds, Num(1), SumExpr(Conds(us)));
        ExpandHomomorphic(ds, rest, dflt.value);
        ExpandHomomorphic(ds, SumExpr(Products(us)), Mul(rest, dflt.value));
      }
    }
  }

  lemma ExpandUpdatesConcat(ds: seq<Definition>, a: seq<Update>, b: seq<Update>)
    ensures ExpandUpdates(ds, a + b) == ExpandUpdates(ds, a) + ExpandUpdates(ds, b)
  {
  }

  predicate AllInter(ds: seq<Definition>) {
    forall i :: 0 <= i < |ds| ==> ds[i].c.Inter?
  }

  lemma {:induction false} BodyDefinitionsAreInter(d: InstrDef, body: seq<Identity>)
    ensures forall i :: 0 <= i < |BodyDefinitions(d, body)| ==>
              var c := BodyDefinitions(d, body)[i].c; c.Inter? && c.instr == d.name
  {
    if body != [] {
      BodyDefinitionsAreInter(d, body[1..]);
      assert forall c :: c in ItemDefinitions(d, body[0]) ==> c.c.Inter? && c.c.instr == d.name;
    }
  }

  lemma {:induction false} DefinitionsAreInter(defs: seq<InstrDef>)
    ensures AllInter(Definitions(defs))
  {
    if defs != [] {
      BodyDefinitionsAreInter(defs[0], defs[0].body);
      DefinitionsAreInter(defs[1..]);
    }
  }

  lemma Unexpanded(ds: seq<Definition>, e: Expr)
    requires AllInter(ds) && All(e, NotInter)
    ensures Expand(ds, e) == e
  {
    ExpandFresh(ds, e, NotInter);
  }

  // ----- well-formed instruction bodies -----

  predicate NoNextOf(e: Expr, names: seq<string>) {
    match e
    case Next(c) => c.Named? ==> c.name !in names
    case Neg(a) => NoNextOf(a, names)
    case Add(a, b) => NoNextOf(a, names) && NoNextOf(b, names)
    case Sub(a, b) => NoNextOf(a, names) && NoNextOf(b, names)
    case Mul(a, b) => NoNextOf(a, names) && NoNextOf(b, names)
    case _ => true
  }

  predicate BodyExprOk(d: InstrDef, e: Expr) {
    All(e, Observable) && NoNextOf(e, LiteralNames(d.inputs))
  }

  /** An instruction mentions only columns of the machine, and literal parameters only in the
      current row; and no intermediate column of its updates is declared twice. */
  ghost predicate InstrOk(d: InstrDef) {
    && (forall id :: id in d.body ==> BodyExprOk(d, id.rhs) && (TryExtractUpdate(id).None? ==> BodyExprOk(d, id.lhs)))
    && (forall l :: l in d.links ==> All(l.flag, Observable))
    && DistinctDefs(BodyDefinitions(d, d.body))
  }

  lemma {:induction false} SubstBind(e: Expr, d: InstrDef, lits: map<string, int>, cur: Row, nxt: Row)
    requires NoNextOf(e, LiteralNames(d.inputs))
    requires lits.Keys == set n | n in LiteralNames(d.inputs)
    requires forall q :: q in lits ==> cur(Param(d.name, q)) == lits[q]
    ensures Eval(SubstParams(e, d.name, LiteralNames(d.inputs)), cur, nxt) == Eval(BindLiterals(e, lits), cur, nxt)
  {
    match e
    case Num(_) =>
    case Col(c) =>
    case Next(_) =>
    case Neg(a) => SubstBind(a, d, lits, cur, nxt);
    case Add(a, b) => SubstBind(a, d, lits, cur, nxt); SubstBind(b, d, lits, cur, nxt);
    case Sub(a, b) => SubstBind(a, d, lits, cur, nxt); SubstBind(b, d, lits, cur, nxt);
    case Mul(a, b) => SubstBind(a, d, lits, cur, nxt); SubstBind(b, d, lits, cur, nxt);
  }

  lemma {:induction false} SubstNotInter(e: Expr, instr: string, names: seq<string>)
    requires All(e, Observable)
    ensures All(SubstParams(e, instr, names), NotInter)
  {
    match e
    case Num(_) =>
    case Col(_) =>
    case Next(_) =>
    case Neg(a) => SubstNotInter(a, instr, names);
    case Add(a, b) => SubstNotInter(a, instr, names); SubstNotInter(b, instr, names);
    case Sub(a, b) => SubstNotInter(a, instr, names); SubstNotInter(b, instr, names);
    case Mul(a, b) => SubstNotInter(a, instr, names); SubstNotInter(b, instr, names);
  }

  // ----- the update of one register in one instruction body -----

  predicate OtherRegister(ds: seq<Definition>, instr: string, r: string) {
    forall i :: 0 <= i < |ds| ==> ds[i].c.Inter? && !(ds[i].c.instr == instr && ds[i].c.reg == r)
  }

  lemma ItemOfOther(d: InstrDef, id: Identity, r: string)
    requires ItemDefinitions(d, id) == [] || TryExtractUpdate(id).value.0 != r
    ensures OtherRegister(ItemDefinitions(d, id), d.name, r)
  {
  }

  lemma ItemNumbers(d: InstrDef, id: Identity)
    ensures var ds := ItemDefinitions(d, id); ds != [] ==> TryExtractUpdate(id).Some? && ds[0].c == Inter(d.name, TryExtractUpdate(id).value.0, 0)
  {
  }

  lemma OtherConcat(a: seq<Definition>, b: seq<Definition>, instr: string, r: string)
    requires OtherRegister(a, instr, r) && OtherRegister(b, instr, r)
    ensures OtherRegister(a + b, instr, r)
  {
  }

  /** No column is introduced twice. */
  predicate DistinctDefs(ds: seq<Definition>) { forall i, j :: 0 <= i < j < |ds| ==> ds[i].c != ds[j].c }

  predicate Defines(ds: seq<Definition>, c: Column) { exists i :: 0 <= i < |ds| && ds[i].c == c }

  /** The columns of one instruction and register are numbered from zero, so a body that introduces
      none with number zero introduces none at all. */
  lemma {:induction false} NumberedFromZero(d: InstrDef, body: seq<Identity>, r: string)
    requires !Defines(BodyDefinitions(d, body), Inter(d.name, r, 0))
    ensures OtherRegister(BodyDefinitions(d, body), d.name, r)
  {
    if body != [] {
      var front, rest := ItemDefinitions(d, body[0]), BodyDefinitions(d, body[1..]);
      assert forall i :: 0 <= i < |front| ==> (front + rest)[i] == front[i];
      assert forall i :: 0 <= i < |rest| ==> (front + rest)[|front| + i] == rest[i];
      NumberedFromZero(d, body[1..], r);
      ItemNumbers(d, body[0]);
      assert front != [] ==> (front + rest)[0] == front[0];
      ItemOfOther(d, body[0], r);
      OtherConcat(front, rest, d.name, r);
    }
  }

  /** After an update of `r` that introduces columns, the rest of the body introduces none for `r`. */
  lemma RestIsOther(d: InstrDef, front: seq<Definition>, body: seq<Identity>, r: string)
    requires DistinctDefs(front + BodyDefinitions(d, body)) && front != [] && front[0].c == Inter(d.name, r, 0)
    ensures OtherRegister(BodyDefinitions(d, body), d.name, r)
  {
    var rest := BodyDefinitions(d, body);
    forall i | 0 <= i < |rest| ensures rest[i].c != Inter(d.name, r, 0) {
      assert (front + rest)[0] == front[0] && (front + rest)[|front| + i] == rest[i];
    }
    NumberedFromZero(d, body, r);
  }

  predicate InstrNamesDistinct(defs: seq<InstrDef>) {
    forall i, j :: 0 <= i < j < |defs| ==> defs[i].name != defs[j].name
  }

  predicate OtherInstr(ds: seq<Definition>, instr: string) {
    forall i :: 0 <= i < |ds| ==> ds[i].c.Inter? && ds[i].c.instr != instr
  }

  lemma {:induction false} NoSuchInstr(defs: seq<InstrDef>, name: string)
    requires forall d :: d in defs ==> d.name != name
    ensures OtherInstr(Definitions(defs), name)
  {
    if defs != [] {
      NoSuchInstr(defs[1..], name);
      BodyDefinitionsAreInter(defs[0], defs[0].body);
      assert defs[0] in defs;
    }
  }

  lemma {:induction false} SplitDefinitions(defs: seq<InstrDef>, d: InstrDef)
    returns (pre: seq<Definition>, post: seq<Definition>)
    requires InstrNamesDistinct(defs) && d in defs
    ensures Definitions(defs) == pre + BodyDefinitions(d, d.body) + post
    ensures OtherInstr(pre, d.name) && OtherInstr(post, d.name)
  {
    if defs[0] == d {
      pre, post := [], Definitions(defs[1..]);
      NoSuchInstr(defs[1..], d.name);
      NoPrefix(BodyDefinitions(d, d.body));
    } else {
      pre, post := SplitDefinitions(defs[1..], d);
      var k :| 0 <= k < |defs| && defs[k] == d;
      PrependBody(defs, d, pre, post);
      pre := BodyDefinitions(defs[0], defs[0].body) + pre;
    }
  }

  lemma NoPrefix<T>(a: seq<T>)
    ensures [] + a == a
  {
  }

  lemma PrependBody(defs: seq<InstrDef>, d: InstrDef, pre: seq<Definition>, post: seq<Definition>)
    requires defs != [] && defs[0].name != d.name && OtherInstr(pre, d.name)
    requires Definitions(defs[1..]) == pre + BodyDefinitions(d, d.body) + post
    ensures var front := BodyDefinitions(defs[0], defs[0].body);
            Definitions(defs) == (front + pre) + BodyDefinitions(d, d.body) + post && OtherInstr(front + pre, d.name)
  {
    var front := BodyDefinitions(defs[0], defs[0].body);
    BodyDefinitionsAreInter(defs[0], defs[0].body);
    OtherInstrConcat(front, pre, d.name);
    Regroup(front, pre, BodyDefinitions(d, d.body), post);
  }

  lemma OtherInstrConcat(a: seq<Definition>, b: seq<Definition>, instr: string)
    requires OtherInstr(a, instr) && OtherInstr(b, instr)
    ensures OtherInstr(a + b, instr)
  {
  }

  lemma Regroup<T>(a: seq<T>, b: seq<T>, c: seq<T>, d: seq<T>)
    ensures a + (b + c + d) == (a + b) + c + d
  {
  }

  /** Expanding all intermediate polynomials undoes the linearization of one update. */
  lemma ExpandLinearized(pre: seq<Definition>, post: seq<Definition>, instr: string, r: string, e: Expr)
    requires All(e, NotInter) && AllInter(pre) && OtherRegister(post, instr, r)
    ensures var lin := Linearize(instr, r, e); Expand(pre + lin.defs + post, lin.e) == e
  {
    var lin := Linearize(instr, r, e);
    LinearizeScope(instr, r, 0, e);
    LinearizeExpands(instr, r, 0, e);
    ExpandConcat(pre + lin.defs, post, lin.e);
    ExpandConcat(pre, lin.defs, lin.e);
    ExpandFresh(post, lin.e, c => InterBelow(instr, r, 0, lin.counter, c));
    Unexpanded(pre, e);
  }

  // ----- deviation contributed by each kind of writer -----

  function WriterDeviation(w: Writer, r: string, x: int, cur: Row, nxt: Row): int {
    match w
    case FromAssign(a) => cur(Named(a)) - x
    case Computed(e) => Eval(e, cur, nxt) - x
    case AnyIf(f) => Eval(f, cur, nxt) * (nxt(Named(r)) - x)
  }

  lemma OneDeviation(u: Update, x: int, cur: Row, nxt: Row)
    ensures Deviation([u], x, cur, nxt) == Eval(u.cond, cur, nxt) * (Eval(u.value, cur, nxt) - x)
  {
    assert [u][..0] == [];
  }

  /** What all writers of a list add to the default value `x` of register `r`. */
  function WritersSum(ws: seq<Writer>, r: string, x: int, cur: Row, nxt: Row): int {
    if ws == [] then 0 else WriterDeviation(ws[0], r, x, cur, nxt) + WritersSum(ws[1..], r, x, cur, nxt)
  }

  lemma {:induction false} WritersSumConcat(a: seq<Writer>, b: seq<Writer>, r: string, x: int, cur: Row, nxt: Row)
    ensures WritersSum(a + b, r, x, cur, nxt) == WritersSum(a, r, x, cur, nxt) + WritersSum(b, r, x, cur, nxt)
    decreases |a|
  {
    if a == [] {
      assert a + b == b;
    } else {
      assert (a + b)[1..] == a[1..] + b;
      WritersSumConcat(a[1..], b, r, x, cur, nxt);
    }
  }

  lemma {:induction false} NoLinkWriter(flag: Expr, links: seq<LinkDecl>, r: string)
    ensures LinkWriters(links, r) == [] <==> LinkUpdates(flag, links, r) == []
  {
    if links != [] { NoLinkWriter(flag, links[1..], r); }
  }

  lemma CombinedFlagValue(instr: string, f: Expr, cur: Row, nxt: Row)
    ensures Eval(CombineFlags(Some(Col(InstrFlag(instr))), f), cur, nxt) == cur(InstrFlag(instr)) * Eval(f, cur, nxt)
  {
  }

  /** Deviation of an update followed by others, after expansion. */
  lemma DeviationCons(ds: seq<Definition>, u: Update, us: seq<Update>, x: int, cur: Row, nxt: Row)
    ensures Deviation(ExpandUpdates(ds, [u] + us), x, cur, nxt)
            == Eval(Expand(ds, u.cond), cur, nxt) * (Eval(Expand(ds, u.value), cur, nxt) - x)
             + Deviation(ExpandUpdates(ds, us), x, cur, nxt)
  {
    var v := Update(Expand(ds, u.cond), Expand(ds, u.value));
    assert ExpandUpdates(ds, [u]) == [v];
    ExpandUpdatesConcat(ds, [u], us);
    DeviationConcat([v], ExpandUpdates(ds, us), x, cur, nxt);
    OneDeviation(v, x, cur, nxt);
  }

  /** Every link of the active instruction that mentions `R'` contributes. */
  lemma {:induction false} LinkDeviation(ds: seq<Definition>, instr: string, links: seq<LinkDecl>, r: string, x: int, cur: Row, nxt: Row)
    requires AllInter(ds) && cur(InstrFlag(instr)) == 1 && forall l :: l in links ==> All(l.flag, Observable)
    ensures Deviation(ExpandUpdates(ds, LinkUpdates(Col(InstrFlag(instr)), links, r)), x, cur, nxt)
            == WritersSum(LinkWriters(links, r), r, x, cur, nxt)
    decreases |links|
  {
    var flag := Col(InstrFlag(instr));
    if links == [] {
      assert ExpandUpdates(ds, LinkUpdates(flag, links, r)) == [];
    } else {
      LinkDeviation(ds, instr, links[1..], r, x, cur, nxt);
      if r in links[0].nextRegs {
        OneLink(ds, instr, links[0].flag, r, x, cur, nxt);
        JoinItem(ds, Update(CombineFlags(Some(flag), links[0].flag), Next(Named(r))), LinkUpdates(flag, links[1..], r),
                 AnyIf(links[0].flag), LinkWriters(links[1..], r), r, x, cur, nxt);
      } else {
        assert [] + LinkUpdates(flag, links[1..], r) == LinkUpdates(flag, links[1..], r);
        assert [] + LinkWriters(links[1..], r) == LinkWriters(links[1..], r);
      }
    }
  }

  lemma OneLink(ds: seq<Definition>, instr: string, f: Expr, r: string, x: int, cur: Row, nxt: Row)
    requires AllInter(ds) && cur(InstrFlag(instr)) == 1 && All(f, Observable)
    ensures var c := Expand(ds, CombineFlags(Some(Col(InstrFlag(instr))), f)); var v := Expand(ds, Next(Named(r)));
            Eval(c, cur, nxt) * (Eval(v, cur, nxt) - x) == WriterDeviation(AnyIf(f), r, x, cur, nxt)
  {
    var c := CombineFlags(Some(Col(InstrFlag(instr))), f);
    AllMono(f, Observable, NotInter);
    Unexpanded(ds, c);
    Unexpanded(ds, Next(Named(r)));
    CombinedFlagValue(instr, f, cur, nxt);
  }

  /** Expanding the definitions around a linearized update gives the update back. */
  lemma ItemExpansion(pre: seq<Definition>, mid: seq<Definition>, rest: seq<Definition>, post: seq<Definition>, instr: string, r: string, e: Expr)
    requires AllInter(pre) && AllInter(rest) && OtherInstr(post, instr) && All(e, NotInter) && mid == Linearize(instr, r, e).defs
    requires mid != [] ==> OtherRegister(rest, instr, r)
    ensures Expand(pre + (mid + rest) + post, Linearize(instr, r, e).e) == e
  {
    var lin := Linearize(instr, r, e);
    if mid == [] {
      LinearizeExpands(instr, r, 0, e);
      assert lin.e == e;
      Unexpanded(pre + (mid + rest) + post, e);
    } else {
      assert pre + (mid + rest) + post == pre + mid + (rest + post);
      ExpandLinearized(pre, rest + post, instr, r, e);
    }
  }

  /** The parameters of an instruction hold the literals it was called with. */
  ghost predicate ParamsHold(d: InstrDef, lits: map<string, int>, cur: Row) {
    lits.Keys == (set n | n in LiteralNames(d.inputs)) && forall q :: q in lits ==> cur(Param(d.name, q)) == lits[q]
  }

  lemma ItemValue(d: InstrDef, lits: map<string, int>, r: string, rhs: Expr, cur: Row, nxt: Row,
                  pre: seq<Definition>, rest: seq<Definition>, post: seq<Definition>)
    requires BodyExprOk(d, rhs) && ParamsHold(d, lits, cur) && AllInter(pre) && AllInter(rest) && OtherInstr(post, d.name)
    requires var mid := LinearizedUpdate(d, r, rhs).defs; mid != [] ==> OtherRegister(rest, d.name, r)
    ensures var lin := LinearizedUpdate(d, r, rhs);
            Eval(Expand(pre + (lin.defs + rest) + post, lin.e), cur, nxt) == Eval(BindLiterals(rhs, lits), cur, nxt)
  {
    var e := SubstParams(rhs, d.name, LiteralNames(d.inputs));
    SubstNotInter(rhs, d.name, LiteralNames(d.inputs));
    ItemExpansion(pre, LinearizedUpdate(d, r, rhs).defs, rest, post, d.name, r, e);
    SubstBind(rhs, d, lits, cur, nxt);
  }

  lemma DistinctTail(a: seq<Definition>, b: seq<Definition>)
    requires DistinctDefs(a + b)
    ensures DistinctDefs(b)
  {
    assert forall i :: 0 <= i < |b| ==> (a + b)[|a| + i] == b[i];
  }

  lemma AllInterConcat(a: seq<Definition>, b: seq<Definition>)
    ensures AllInter(a + b) <==> AllInter(a) && AllInter(b)
  {
    assert forall i :: 0 <= i < |a| ==> (a + b)[i] == a[i];
    assert forall i :: 0 <= i < |b| ==> (a + b)[|a| + i] == b[i];
  }

  /** Every update in the body of the active instruction contributes. */
  lemma {:induction false} BodyDeviation(ds: seq<Definition>, d: InstrDef, body: seq<Identity>, lits: map<string, int>, r: string,
                                         x: int, cur: Row, nxt: Row, pre: seq<Definition>, post: seq<Definition>)
    requires cur(InstrFlag(d.name)) == 1 && ParamsHold(d, lits, cur) && forall id :: id in body ==> BodyExprOk(d, id.rhs)
    requires ds == pre + BodyDefinitions(d, body) + post && AllInter(pre) && OtherInstr(post, d.name)
    requires DistinctDefs(BodyDefinitions(d, body))
    ensures Deviation(ExpandUpdates(ds, BodyUpdates(d, body, r)), x, cur, nxt) == WritersSum(BodyWriters(body, lits, r), r, x, cur, nxt)
    decreases |body|
  {
    if body == [] {
      assert ExpandUpdates(ds, BodyUpdates(d, body, r)) == [];
    } else {
      assert body[0] in body;
      FirstItem(ds, d, body, pre, post);
      BodyDeviation(ds, d, body[1..], lits, r, x, cur, nxt, pre + ItemDefinitions(d, body[0]), post);
      if body[0].lhs == Next(Named(r)) {
        OneItem(ds, d, body, lits, r, x, cur, nxt, pre, post);
      } else {
        NoItem(d, body, lits, r);
      }
    }
  }

  /** Moves the definitions of the first item to the front part. */
  lemma {:induction false} FirstItem(ds: seq<Definition>, d: InstrDef, body: seq<Identity>, pre: seq<Definition>, post: seq<Definition>)
    requires body != [] && ds == pre + BodyDefinitions(d, body) + post && AllInter(pre) && DistinctDefs(BodyDefinitions(d, body))
    ensures ds == (pre + ItemDefinitions(d, body[0])) + BodyDefinitions(d, body[1..]) + post
    ensures AllInter(pre + ItemDefinitions(d, body[0])) && AllInter(BodyDefinitions(d, body[1..])) && DistinctDefs(BodyDefinitions(d, body[1..]))
  {
    var front, rest := ItemDefinitions(d, body[0]), BodyDefinitions(d, body[1..]);
    BodyDefinitionsAreInter(d, body);
    AllInterConcat(front, rest);
    AllInterConcat(pre, front);
    DistinctTail(front, rest);
    assert pre + (front + rest) + post == (pre + front) + rest + post;
  }

  lemma NoItem(d: InstrDef, body: seq<Identity>, lits: map<string, int>, r: string)
    requires body != [] && body[0].lhs != Next(Named(r))
    ensures BodyUpdates(d, body, r) == BodyUpdates(d, body[1..], r) && BodyWriters(body, lits, r) == BodyWriters(body[1..], lits, r)
  {
  }

  lemma {:induction false} OneItem(ds: seq<Definition>, d: InstrDef, body: seq<Identity>, lits: map<string, int>, r: string, x: int, cur: Row, nxt: Row,
                                   pre: seq<Definition>, post: seq<Definition>)
    requires cur(InstrFlag(d.name)) == 1 && ParamsHold(d, lits, cur) && body != [] && BodyExprOk(d, body[0].rhs)
    requires body[0].lhs == Next(Named(r))
    requires ds == pre + BodyDefinitions(d, body) + post && AllInter(pre) && OtherInstr(post, d.name)
    requires DistinctDefs(BodyDefinitions(d, body)) && AllInter(BodyDefinitions(d, body[1..]))
    requires Deviation(ExpandUpdates(ds, BodyUpdates(d, body[1..], r)), x, cur, nxt)
             == WritersSum(BodyWriters(body[1..], lits, r), r, x, cur, nxt)
    ensures Deviation(ExpandUpdates(ds, BodyUpdates(d, body, r)), x, cur, nxt) == WritersSum(BodyWriters(body, lits, r), r, x, cur, nxt)
  {
    var lin := LinearizedUpdate(d, r, body[0].rhs);
    ItemHolds(ds, d, r, body[0].rhs, lits, cur, nxt, pre, body[1..], post);
    JoinItem(ds, Update(Col(InstrFlag(d.name)), lin.e), BodyUpdates(d, body[1..], r), Computed(BindLiterals(body[0].rhs, lits)),
             BodyWriters(body[1..], lits, r), r, x, cur, nxt);
  }

  /** The update of one body item, after expansion: its condition is the instruction flag and its
      value that of the right-hand side. */
  lemma {:induction false} ItemHolds(ds: seq<Definition>, d: InstrDef, r: string, rhs: Expr, lits: map<string, int>, cur: Row, nxt: Row,
                                     pre: seq<Definition>, body: seq<Identity>, post: seq<Definition>)
    requires cur(InstrFlag(d.name)) == 1 && ParamsHold(d, lits, cur) && BodyExprOk(d, rhs)
    requires var front := LinearizedUpdate(d, r, rhs).defs; var rest := BodyDefinitions(d, body);
             ds == pre + (front + rest) + post && DistinctDefs(front + rest) && AllInter(rest)
    requires AllInter(pre) && OtherInstr(post, d.name)
    ensures Eval(Expand(ds, Col(InstrFlag(d.name))), cur, nxt) == 1
    ensures Eval(Expand(ds, LinearizedUpdate(d, r, rhs).e), cur, nxt) == Eval(BindLiterals(rhs, lits), cur, nxt)
  {
    var front, rest := LinearizedUpdate(d, r, rhs).defs, BodyDefinitions(d, body);
    if front != [] { RestIsOther(d, front, body, r); }
    ItemValue(d, lits, r, rhs, cur, nxt, pre, rest, post);
    OtherIsInter(post, d.name);
    AllInterConcat(front, rest);
    AllInterConcat(pre, front + rest);
    AllInterConcat(pre + (front + rest), post);
    Unexpanded(ds, Col(InstrFlag(d.name)));
  }

  lemma JoinItem(ds: seq<Definition>, u: Update, us: seq<Update>, w: Writer, ws: seq<Writer>, r: string, x: int, cur: Row, nxt: Row)
    requires Eval(Expand(ds, u.cond), cur, nxt) * (Eval(Expand(ds, u.value), cur, nxt) - x) == WriterDeviation(w, r, x, cur, nxt)
    requires Deviation(ExpandUpdates(ds, us), x, cur, nxt) == WritersSum(ws, r, x, cur, nxt)
    ensures Deviation(ExpandUpdates(ds, [u] + us), x, cur, nxt) == WritersSum([w] + ws, r, x, cur, nxt)
  {
    DeviationCons(ds, u, us, x, cur, nxt);
    assert ([w] + ws)[1..] == ws;
  }

  lemma OtherIsInter(ds: seq<Definition>, instr: string)
    requires OtherInstr(ds, instr)
    ensures AllInter(ds)
  {
  }

  /** The active instruction contributes the deviations of all its writers. */
  lemma ActiveDeviation(ds: seq<Definition>, defs: seq<InstrDef>, d: InstrDef, lits: map<string, int>, r: string, x: int, cur: Row, nxt: Row)
    requires InstrNamesDistinct(defs) && d in defs && ds == Definitions(defs)
    requires InstrOk(d) && cur(InstrFlag(d.name)) == 1 && ParamsHold(d, lits, cur)
    ensures Deviation(ExpandUpdates(ds, UpdatesOf(d, r)), x, cur, nxt)
            == WritersSum(LinkWriters(d.links, r) + BodyWriters(d.body, lits, r), r, x, cur, nxt)
  {
    var flag := Col(InstrFlag(d.name));
    DefinitionsAreInter(defs);
    LinkDeviation(ds, d.name, d.links, r, x, cur, nxt);
    var pre, post := SplitDefinitions(defs, d);
    OtherIsInter(pre, d.name);
    BodyDeviation(ds, d, d.body, lits, r, x, cur, nxt, pre, post);
    ExpandUpdatesConcat(ds, LinkUpdates(flag, d.links, r), BodyUpdates(d, d.body, r));
    DeviationConcat(ExpandUpdates(ds, LinkUpdates(flag, d.links, r)), ExpandUpdates(ds, BodyUpdates(d, d.body, r)), x, cur, nxt);
    WritersSumConcat(LinkWriters(d.links, r), BodyWriters(d.body, lits, r), r, x, cur, nxt);
  }

  lemma {:induction false} UpdateConds(d: InstrDef, body: seq<Identity>, links: seq<LinkDecl>, r: string, i: nat)
    requires i < |LinkUpdates(Col(InstrFlag(d.name)), links, r) + BodyUpdates(d, body, r)|
    ensures var c := (LinkUpdates(Col(InstrFlag(d.name)), links, r) + BodyUpdates(d, body, r))[i].cond;
            || c == Col(InstrFlag(d.name))
            || (exists l :: l in links && c == Mul(Col(InstrFlag(d.name)), l.flag))
  {
    var flag := Col(InstrFlag(d.name));
    if links != [] && r in links[0].nextRegs {
      if i > 0 {
        UpdateConds(d, body, links[1..], r, i - 1);
      } else {
        assert links[0] in links;
      }
    } else if links != [] {
      UpdateConds(d, body, links[1..], r, i);
    } else if body != [] {
      var u := TryExtractUpdate(body[0]);
      if u.Some? && u.value.0 == r {
        if i > 0 { UpdateConds(d, body[1..], [], r, i - 1); }
      } else {
        UpdateConds(d, body[1..], [], r, i);
      }
    }
  }

  lemma InactiveDeviation(p: Modulus, ds: seq<Definition>, d: InstrDef, r: string, x: int, cur: Row, nxt: Row)
    requires InstrOk(d) && AllInter(ds) && cur(InstrFlag(d.name)) == 0
    ensures Cong(p, Deviation(ExpandUpdates(ds, UpdatesOf(d, r)), x, cur, nxt), 0)
  {
    var us := ExpandUpdates(ds, UpdatesOf(d, r));
    forall i | 0 <= i < |us| ensures Cong(p, Eval(us[i].cond, cur, nxt), 0) {
      UpdateConds(d, d.body, d.links, r, i);
      InactiveCond(ds, d.name, d.links, UpdatesOf(d, r)[i].cond, cur, nxt);
    }
    DeviationInactive(p, us, x, cur, nxt);
  }

  lemma InactiveCond(ds: seq<Definition>, instr: string, links: seq<LinkDecl>, c: Expr, cur: Row, nxt: Row)
    requires AllInter(ds) && cur(InstrFlag(instr)) == 0 && forall l :: l in links ==> All(l.flag, Observable)
    requires c == Col(InstrFlag(instr)) || exists l :: l in links && c == Mul(Col(InstrFlag(instr)), l.flag)
    ensures Eval(Expand(ds, c), cur, nxt) == 0
  {
    if c != Col(InstrFlag(instr)) {
      var l :| l in links && c == Mul(Col(InstrFlag(instr)), l.flag);
      AllMono(l.flag, Observable, NotInter);
    }
    Unexpanded(ds, c);
  }

  function PartDeviation(ds: seq<Definition>, d: InstrDef, r: string, x: int, cur: Row, nxt: Row): int {
    Deviation(ExpandUpdates(ds, UpdatesOf(d, r)), x, cur, nxt)
  }

  function ListDeviation(ds: seq<Definition>, defs: seq<InstrDef>, r: string, x: int, cur: Row, nxt: Row): int {
    Deviation(ExpandUpdates(ds, InstrUpdates(defs, r)), x, cur, nxt)
  }

  lemma ListDeviationCons(ds: seq<Definition>, defs: seq<InstrDef>, r: string, x: int, cur: Row, nxt: Row)
    requires defs != []
    ensures ListDeviation(ds, defs, r, x, cur, nxt)
            == PartDeviation(ds, defs[0], r, x, cur, nxt) + ListDeviation(ds, defs[1..], r, x, cur, nxt)
  {
    ExpandUpdatesConcat(ds, UpdatesOf(defs[0], r), InstrUpdates(defs[1..], r));
    DeviationConcat(ExpandUpdates(ds, UpdatesOf(defs[0], r)), ExpandUpdates(ds, InstrUpdates(defs[1..], r)), x, cur, nxt);
  }

  /** The part of the active instruction, if it is in the list. */
  function ActivePart(ds: seq<Definition>, defs: seq<InstrDef>, act: Option<InstrDef>, r: string, x: int, cur: Row, nxt: Row): int {
    if act.Some? && act.value in defs then PartDeviation(ds, act.value, r, x, cur, nxt) else 0
  }

  lemma ActivePartCons(ds: seq<Definition>, defs: seq<InstrDef>, act: Option<InstrDef>, r: string, x: int, cur: Row, nxt: Row)
    requires InstrNamesDistinct(defs) && defs != []
    ensures ActivePart(ds, defs, act, r, x, cur, nxt)
            == (if act == Some(defs[0]) then PartDeviation(ds, defs[0], r, x, cur, nxt) else 0) + ActivePart(ds, defs[1..], act, r, x, cur, nxt)
  {
    assert defs[0] !in defs[1..];
  }

  /** Of all instructions, only the active one contributes. */
  lemma {:induction false} InstrDeviation(p: Modulus, ds: seq<Definition>, defs: seq<InstrDef>, act: Option<InstrDef>, r: string,
                                          x: int, cur: Row, nxt: Row)
    requires InstrNamesDistinct(defs) && AllInter(ds)
    requires forall d :: d in defs ==> InstrOk(d) && cur(InstrFlag(d.name)) == (if act == Some(d) then 1 else 0)
    ensures Cong(p, ListDeviation(ds, defs, r, x, cur, nxt), ActivePart(ds, defs, act, r, x, cur, nxt))
  {
    if defs == [] {
      assert ExpandUpdates(ds, InstrUpdates(defs, r)) == [];
    } else {
      var d := defs[0];
      assert d in defs;
      InstrDeviation(p, ds, defs[1..], act, r, x, cur, nxt);
      if act != Some(d) { InactiveDeviation(p, ds, d, r, x, cur, nxt); }
      ConsDeviation(p, ds, defs, act, r, x, cur, nxt);
    }
  }

  lemma {:induction false} ConsDeviation(p: Modulus, ds: seq<Definition>, defs: seq<InstrDef>, act: Option<InstrDef>, r: string, x: int, cur: Row, nxt: Row)
    requires InstrNamesDistinct(defs) && defs != []
    requires act != Some(defs[0]) ==> Cong(p, PartDeviation(ds, defs[0], r, x, cur, nxt), 0)
    requires Cong(p, ListDeviation(ds, defs[1..], r, x, cur, nxt), ActivePart(ds, defs[1..], act, r, x, cur, nxt))
    ensures Cong(p, ListDeviation(ds, defs, r, x, cur, nxt), ActivePart(ds, defs, act, r, x, cur, nxt))
  {
    var a, b := PartDeviation(ds, defs[0], r, x, cur, nxt), ListDeviation(ds, defs[1..], r, x, cur, nxt);
    CongAdd(p, a, if act == Some(defs[0]) then a else 0, b, ActivePart(ds, defs[1..], act, r, x, cur, nxt));
    ListDeviationCons(ds, defs, r, x, cur, nxt);
    ActivePartCons(ds, defs, act, r, x, cur, nxt);
  }

  // ----- write flags -----

  /** The sum over the assignment registers in `active`. */
  function AssignSum(assigns: seq<string>, active: set<string>, x: int, cur: Row): int {
    if assigns == [] then 0
    else (if assigns[0] in active then cur(Named(assigns[0])) - x else 0) + AssignSum(assigns[1..], active, x, cur)
  }

  lemma {:induction false} WriteDeviation(ds: seq<Definition>, assigns: seq<string>, active: set<string>, r: string, x: int, cur: Row, nxt: Row)
    requires AllInter(ds) && forall a :: a in assigns ==> cur(WriteFlag(a, r)) == (if a in active then 1 else 0)
    ensures Deviation(ExpandUpdates(ds, WriteUpdates(assigns, r)), x, cur, nxt) == AssignSum(assigns, active, x, cur)
    decreases |assigns|
  {
    if assigns == [] {
      assert ExpandUpdates(ds, WriteUpdates(assigns, r)) == [];
    } else {
      var a := assigns[0];
      var u := Update(Col(WriteFlag(a, r)), Col(Named(a)));
      assert a in assigns;
      Unexpanded(ds, u.cond);
      Unexpanded(ds, u.value);
      DeviationCons(ds, u, WriteUpdates(assigns[1..], r), x, cur, nxt);
      WriteDeviation(ds, assigns[1..], active, r, x, cur, nxt);
    }
  }

  lemma {:induction false} AssignSumNone(assigns: seq<string>, x: int, cur: Row)
    ensures AssignSum(assigns, {}, x, cur) == 0
    decreases |assigns|
  {
    if assigns != [] { AssignSumNone(assigns[1..], x, cur); }
  }

  lemma {:induction false} AssignSumSame(assigns: seq<string>, s: set<string>, t: set<string>, x: int, cur: Row)
    requires forall a :: a in assigns ==> (a in s <==> a in t)
    ensures AssignSum(assigns, s, x, cur) == AssignSum(assigns, t, x, cur)
    decreases |assigns|
  {
    if assigns != [] {
      assert assigns[0] in assigns;
      AssignSumSame(assigns[1..], s, t, x, cur);
    }
  }

  lemma {:induction false} AssignSumAdd(assigns: seq<string>, active: set<string>, a: string, x: int, cur: Row)
    requires Distinct(assigns) && a in assigns && a !in active
    ensures AssignSum(assigns, active + {a}, x, cur) == AssignSum(assigns, active, x, cur) + cur(Named(a)) - x
    decreases |assigns|
  {
    if assigns[0] == a {
      assert a !in assigns[1..];
      AssignSumSame(assigns[1..], active + {a}, active, x, cur);
    } else {
      AssignSumAdd(assigns[1..], active, a, x, cur);
    }
  }
}
