/** Every value that an evaluation builds is one that the round trip covers. */
module BuildableRuns {
  import opened Congruence
  import opened Options
  import opened Types
  import opened PilLang
  import opened BigStep
  import opened PolyIds
  import opened Relation
  import opened Expressionizer
  import opened RoundTrip
  import opened Simulation

  predicate AllBuildable(x: Context, vs: seq<Value>) { forall y :: y in vs ==> Buildable(x, y) }

  /** The enum variants the evaluator itself creates are declared. */
  predicate PreludeDeclared(x: Context) {
    && ("std::prelude::Option", "None") in x.plain && ("std::prelude::Option", "Some") in x.withData
    && ("std::prelude::SelectedExprs", "SelectedExprs") in x.withData
    && ("std::prelude::Constr", "Identity") in x.withData && ("std::prelude::Constr", "Lookup") in x.withData
    && ("std::prelude::Constr", "Permutation") in x.withData && ("std::prelude::Constr", "Connection") in x.withData
  }

  // ----- pattern matching -----

  lemma {:induction false} PatternBuilds(x: Context, v: Value, p: Pattern)
    requires Buildable(x, v)
    ensures var m := MatchPattern(v, p); m.Matched? ==> AllBuildable(x, m.vars)
    decreases p, 2
  {
    match p
    case TupleP(items) => if v.VTuple? && |v.items| == |items| { AllBuild(x, p, v.items, items); }
    case ArrayP(items) => ArrayBuilds(x, v, p);
    case EnumP(_, fields) =>
      if v.VEnum? && v.data.Data? && fields.Fields? && |v.data.items| == |fields.items| { AllBuild(x, p, v.data.items, fields.items); }
    case _ =>
  }

  lemma {:induction false} ArrayBuilds(x: Context, v: Value, p: Pattern)
    requires Buildable(x, v) && p.ArrayP?
    ensures var m := MatchPattern(v, p); m.Matched? ==> AllBuildable(x, m.vars)
    decreases p, 1
  {
    if v.VArray? {
      var a := ArrayParts(v.items, p.items);
      if a.Some? {
        assert AllBuildable(x, a.value);
        AllBuild(x, p, a.value, WithoutEllipsis(p.items));
      }
    }
  }

  lemma {:induction false} AllBuild(x: Context, parent: Pattern, vs: seq<Value>, ps: seq<Pattern>)
    requires AllBuildable(x, vs) && forall q :: q in ps ==> q < parent
    ensures var m := MatchAll(parent, vs, ps); m.Matched? ==> AllBuildable(x, m.vars)
    decreases parent, 0, |ps|
  {
    if vs != [] && ps != [] {
      assert ps[0] in ps && forall q :: q in ps[1..] ==> q in ps;
      PatternBuilds(x, vs[0], ps[0]);
      AllBuild(x, parent, vs[1..], ps[1..]);
    }
  }

  lemma {:induction false} ParamsBuild(x: Context, vs: seq<Value>, ps: seq<Pattern>)
    requires AllBuildable(x, vs) && |vs| == |ps|
    ensures var r := BindParams(vs, ps); r.Ok? ==> AllBuildable(x, r.value)
    decreases ps
  {
    if ps != [] {
      PatternBuilds(x, vs[0], ps[0]);
      ParamsBuild(x, vs[1..], ps[1..]);
    }
  }

  lemma {:induction false} ArmsBuild(x: Context, v: Value, arms: seq<Arm>)
    requires Buildable(x, v)
    ensures var r := FindArm(v, arms); r.Ok? ==> AllBuildable(x, r.value.vars)
    decreases arms
  {
    if arms != [] {
      PatternBuilds(x, v, arms[0].pattern);
      ArmsBuild(x, v, arms[1..]);
    }
  }

  // ----- operators -----

  ghost predicate OutcomeBuildable(x: Context, o: Outcome<Value>) { o.Ok? ==> Buildable(x, o.value) }

  lemma {:induction false} NextBuilds(x: Context, a: Alg)
    requires BuildableAlg(x, a)
    ensures NextAlg(a).Some? ==> BuildableAlg(x, NextAlg(a).value) && (NextAlg(a).value.AlgNum? <==> a.AlgNum?)
    decreases a
  {
    match a
    case AlgRef(name, t, id, next) =>
      var i :| 0 <= i < |x.symbols| && ElementOf(x.symbols[i], name, t, id);
    case AlgBin(_, l, r) => NextBuilds(x, l); NextBuilds(x, r);
    case AlgNeg(e) => NextBuilds(x, e);
    case _ =>
  }

  lemma UnaryBuilds(x: Context, op: UnOp, v: Value)
    requires Buildable(x, v)
    ensures OutcomeBuildable(x, UnaryOp(x.p, op, v))
  {
    if op.NextOp? && v.VExpr? { NextBuilds(x, v.alg); }
  }

  lemma PairsBuild(x: Context, a: seq<Value>, b: seq<Value>)
    requires AllBuildable(x, a) && AllBuildable(x, b) && |a| == |b|
    ensures AllBuildable(x, PairUp(a, b))
  {
  }

  lemma SelectedBuilds(x: Context, v: Value)
    requires Buildable(x, v) && PreludeDeclared(x)
    ensures var r := ToSelectedExprs(v); r.Ok? ==> Buildable(x, r.value.selector) && AllBuildable(x, r.value.exprs)
  {
    if v.VEnum? && v.data.Data? && |v.data.items| == 2 {
      assert v.data.items[0] in v.data.items && v.data.items[1] in v.data.items;
    }
  }

  lemma LookupBuilds(x: Context, variant: string, v: Value, w: Value)
    requires Buildable(x, v) && Buildable(x, w) && PreludeDeclared(x) && ("std::prelude::Constr", variant) in x.withData
    ensures OutcomeBuildable(x, LookupConstr(variant, v, w))
  {
    SelectedBuilds(x, v);
    SelectedBuilds(x, w);
    var a, b := ToSelectedExprs(v), ToSelectedExprs(w);
    if a.Ok? && b.Ok? && |a.value.exprs| == |b.value.exprs| {
      PairsBuild(x, a.value.exprs, b.value.exprs);
      assert Buildable(x, VTuple([a.value.selector, b.value.selector]));
      assert Buildable(x, VArray(PairUp(a.value.exprs, b.value.exprs)));
    }
  }

  lemma LookupOpBuilds(x: Context, lib: IntLib, v: Value, op: BinOp, w: Value)
    requires Buildable(x, v) && Buildable(x, w) && PreludeDeclared(x) && (op.InOp? || op.IsOp?)
    ensures OutcomeBuildable(x, BinaryOp(x.p, lib, v, op, w))
  {
    LookupBuilds(x, if op.InOp? then "Lookup" else "Permutation", v, w);
  }

  lemma ArrayOpBuilds(x: Context, lib: IntLib, v: Value, op: BinOp, w: Value)
    requires Buildable(x, v) && Buildable(x, w) && PreludeDeclared(x) && v.VArray? && w.VArray? && !op.InOp? && !op.IsOp?
    ensures OutcomeBuildable(x, BinaryOp(x.p, lib, v, op, w))
  {
    if op.ConnectOp? && |v.items| == |w.items| { PairsBuild(x, v.items, w.items); }
  }

  lemma AlgebraicOpBuilds(x: Context, lib: IntLib, v: Value, op: BinOp, w: Value)
    requires Buildable(x, v) && Buildable(x, w) && PreludeDeclared(x) && v.VExpr? && !op.InOp? && !op.IsOp?
    ensures OutcomeBuildable(x, BinaryOp(x.p, lib, v, op, w))
  {
    if w.VExpr? {
      if op.IdentityOp? { assert Buildable(x, Constr("Identity", [v, w])); } else { FoldBuilds(x, v.alg, op, w.alg); }
    } else if op.SelectOp? && w.VArray? {
      assert Buildable(x, VEnum("std::prelude::SelectedExprs", "SelectedExprs", Data([v, w])));
    } else if op.PowOp? && w.VInt? && 0 <= w.n {
      assert BuildableAlg(x, AlgNum(Rep(x.p, Pow(if v.alg.AlgNum? then v.alg.n else 0, w.n))));
      assert w.n < x.p ==> BuildableAlg(x, AlgNum(w.n));
    }
  }

  lemma FoldBuilds(x: Context, a: Alg, op: BinOp, b: Alg)
    requires BuildableAlg(x, a) && BuildableAlg(x, b)
    ensures OutcomeBuildable(x, AlgebraicOp(x.p, a, op, b))
  {
  }

  lemma BinaryBuilds(x: Context, lib: IntLib, v: Value, op: BinOp, w: Value)
    requires Buildable(x, v) && Buildable(x, w) && PreludeDeclared(x)
    ensures OutcomeBuildable(x, BinaryOp(x.p, lib, v, op, w))
  {
    if op.InOp? || op.IsOp? { LookupOpBuilds(x, lib, v, op, w); }
    else if v.VArray? && w.VArray? { ArrayOpBuilds(x, lib, v, op, w); }
    else if v.VExpr? { AlgebraicOpBuilds(x, lib, v, op, w); }
  }

  // ----- how evaluation changes the symbol state -----

  /** `rel` relates the state before and after every answer of the symbol table. */
  ghost predicate AnswersBy<S>(sy: Symbols<S>, rel: (S, S) -> bool, s: S) {
    && (forall n, ts :: AnswerBy(rel, s, sy.lookup(s, n, ts)))
    && (forall n, ty, v :: AnswerBy(rel, s, sy.newColumn(s, n, ty, v)))
    && (forall n, vs :: AnswerBy(rel, s, sy.builtin(s, n, vs)))
    && (forall v :: ItemsBy(rel, s, sy.addProofItems(s, v)))
  }

  predicate AnswerBy<S>(rel: (S, S) -> bool, s: S, o: Outcome<(Value, S)>) { o.Ok? ==> rel(s, o.value.1) }

  predicate ItemsBy<S>(rel: (S, S) -> bool, s: S, o: Outcome<S>) { o.Ok? ==> rel(s, o.value) }

  ghost predicate Preorder<S(!new)>(rel: (S, S) -> bool) {
    (forall s :: rel(s, s)) && forall a, b, c :: rel(a, b) && rel(b, c) ==> rel(a, c)
  }

  ghost predicate StepsBy<S(!new)>(sy: Symbols<S>, rel: (S, S) -> bool) { Preorder(rel) && forall s :: AnswersBy(sy, rel, s) }

  predicate ResBy<T, S>(rel: (S, S) -> bool, s: S, r: Res<T, S>) { r.Done? ==> rel(s, r.sym) }

  lemma {:induction false} LeafBy<S(!new)>(fuel: nat, sy: Symbols<S>, rel: (S, S) -> bool, e: PExpr, l: seq<Value>, targs: map<string, Type>, s: S)
    requires StepsBy(sy, rel) && IsLeaf(e)
    ensures ResBy(rel, s, Eval(fuel, sy, e, l, targs, s))
  {
    assert AnswersBy(sy, rel, s);
    match e
    case Global(n, ts) => assert AnswerBy(rel, s, sy.lookup(s, n, SubstTypeArgs(targs, ts)));
    case _ =>
  }

  /** What holds of every answer of the symbol table holds of whole evaluations. */
  lemma {:induction false} EvalBy<S(!new)>(fuel: nat, sy: Symbols<S>, rel: (S, S) -> bool, e: PExpr, l: seq<Value>, targs: map<string, Type>, s: S)
    requires StepsBy(sy, rel)
    ensures ResBy(rel, s, Eval(fuel, sy, e, l, targs, s))
    decreases fuel, e, 2
  {
    match e
    case TupleE(items) => ListBy(fuel, sy, rel, items, l, targs, s);
    case ArrayE(items) => ListBy(fuel, sy, rel, items, l, targs, s);
    case Binary(_, a, b) =>
      EvalBy(fuel, sy, rel, a, l, targs, s);
      var r := Eval(fuel, sy, a, l, targs, s);
      if r.Done? { EvalBy(fuel, sy, rel, b, l, targs, r.sym); }
    case IndexE(a, b) =>
      EvalBy(fuel, sy, rel, a, l, targs, s);
      var r := Eval(fuel, sy, a, l, targs, s);
      if r.Done? { EvalBy(fuel, sy, rel, b, l, targs, r.sym); }
    case Unary(_, a) => EvalBy(fuel, sy, rel, a, l, targs, s);
    case Call(_, _) => CallBy(fuel, sy, rel, e, l, targs, s);
    case MatchE(sc, arms) =>
      EvalBy(fuel, sy, rel, sc, l, targs, s);
      var r := Eval(fuel, sy, sc, l, targs, s);
      if r.Done? {
        var sel := FindArm(r.value, arms);
        if sel.Ok? { EvalBy(fuel, sy, rel, arms[sel.value.arm].value, l + sel.value.vars, targs, r.sym); }
      }
    case IfE(c, t, f) =>
      EvalBy(fuel, sy, rel, c, l, targs, s);
      var r := Eval(fuel, sy, c, l, targs, s);
      if r.Done? && r.value.VBool? { EvalBy(fuel, sy, rel, if r.value.b then t else f, l, targs, r.sym); }
    case Block(stmts, result) =>
      StmtsBy(fuel, sy, rel, stmts, l, targs, s);
      var r := EvalStmts(fuel, sy, stmts, l, targs, s);
      if r.Done? && result.Some? { EvalBy(fuel, sy, rel, result.value, r.value, targs, r.sym); }
    case _ => LeafBy(fuel, sy, rel, e, l, targs, s);
  }

  lemma {:induction false} ListBy<S(!new)>(fuel: nat, sy: Symbols<S>, rel: (S, S) -> bool, es: seq<PExpr>, l: seq<Value>, targs: map<string, Type>, s: S)
    requires StepsBy(sy, rel)
    ensures ResBy(rel, s, EvalList(fuel, sy, es, l, targs, s))
    decreases fuel, es, 0
  {
    if es != [] {
      EvalBy(fuel, sy, rel, es[0], l, targs, s);
      var r := Eval(fuel, sy, es[0], l, targs, s);
      if r.Done? { ListBy(fuel, sy, rel, es[1..], l, targs, r.sym); }
    }
  }

  lemma {:induction false} CallBy<S(!new)>(fuel: nat, sy: Symbols<S>, rel: (S, S) -> bool, e: PExpr, l: seq<Value>, targs: map<string, Type>, s: S)
    requires StepsBy(sy, rel) && e.Call?
    ensures ResBy(rel, s, Eval(fuel, sy, e, l, targs, s))
    decreases fuel, e, 1
  {
    EvalBy(fuel, sy, rel, e.f, l, targs, s);
    var f := Eval(fuel, sy, e.f, l, targs, s);
    if f.Done? {
      ListBy(fuel, sy, rel, e.args, l, targs, f.sym);
      var vs := EvalList(fuel, sy, e.args, l, targs, f.sym);
      if vs.Done? {
        EnterBy(fuel, sy, rel, f.value, vs.value, vs.sym);
        var c := Prepare(sy, f.value, vs.value, vs.sym);
        if c.Enter? && fuel > 0 { EvalBy(fuel - 1, sy, rel, c.body, c.env, c.targs, vs.sym); }
      }
    }
  }

  lemma EnterBy<S(!new)>(fuel: nat, sy: Symbols<S>, rel: (S, S) -> bool, f: Value, args: seq<Value>, s: S)
    requires StepsBy(sy, rel)
    ensures var c := Prepare(sy, f, args, s); c.Immediate? ==> ResBy(rel, s, c.r)
  {
    assert AnswersBy(sy, rel, s);
    if f.VBuiltin? { assert AnswerBy(rel, s, sy.builtin(s, f.name, args)); }
  }

  lemma {:induction false} StmtsBy<S(!new)>(fuel: nat, sy: Symbols<S>, rel: (S, S) -> bool, stmts: seq<Stmt>, l: seq<Value>, targs: map<string, Type>, s: S)
    requires StepsBy(sy, rel)
    ensures ResBy(rel, s, EvalStmts(fuel, sy, stmts, l, targs, s))
    decreases fuel, stmts, 0
  {
    if stmts != [] {
      StmtBy(fuel, sy, rel, stmts[0], l, targs, s);
      var r := EvalStmt(fuel, sy, stmts[0], l, targs, s);
      if r.Done? { StmtsBy(fuel, sy, rel, stmts[1..], r.value, targs, r.sym); }
    }
  }

  lemma {:induction false} StmtBy<S(!new)>(fuel: nat, sy: Symbols<S>, rel: (S, S) -> bool, st: Stmt, l: seq<Value>, targs: map<string, Type>, s: S)
    requires StepsBy(sy, rel)
    ensures ResBy(rel, s, EvalStmt(fuel, sy, st, l, targs, s))
    decreases fuel, st, 0
  {
    match st
    case Do(e) =>
      EvalBy(fuel, sy, rel, e, l, targs, s);
      var r := Eval(fuel, sy, e, l, targs, s);
      if r.Done? { ItemBy(sy, rel, r.value, r.sym); }
    case Let(p, ty, None) => LetBy(sy, rel, p, ty, None, s);
    case Let(p, ty, Some(e)) =>
      EvalBy(fuel, sy, rel, e, l, targs, s);
      var r := Eval(fuel, sy, e, l, targs, s);
      if r.Done? { LetBy(sy, rel, p, ty, Some(r.value), r.sym); }
  }

  lemma ItemBy<S(!new)>(sy: Symbols<S>, rel: (S, S) -> bool, v: Value, s: S)
    requires StepsBy(sy, rel)
    ensures ItemsBy(rel, s, ProofItem(sy, v, s))
  {
    assert AnswersBy(sy, rel, s);
    assert ItemsBy(rel, s, sy.addProofItems(s, v));
  }

  lemma LetBy<S(!new)>(sy: Symbols<S>, rel: (S, S) -> bool, p: Pattern, ty: Option<Type>, v: Option<Value>, s: S)
    requires StepsBy(sy, rel)
    ensures ResBy(rel, s, LetVars(sy, p, ty, v, s))
  {
    assert AnswersBy(sy, rel, s);
    if p.VariableP? { assert AnswerBy(rel, s, sy.newColumn(s, p.name, ty, v)); }
  }

  // ----- evaluation -----

  ghost predicate ResBuildable<S>(x: Context, inside: S -> bool, r: Res<Value, S>) { r.Done? && inside(r.sym) ==> Buildable(x, r.value) }

  ghost predicate ListBuildable<S>(x: Context, inside: S -> bool, r: Res<seq<Value>, S>) { r.Done? && inside(r.sym) ==> AllBuildable(x, r.value) }

  /** In state `s`, symbols return buildable values, given buildable arguments, if they end inside. */
  ghost predicate BuildAt<S>(x: Context, sy: Symbols<S>, inside: S -> bool, s: S) {
    && (forall n, ts :: ResBuildable(x, inside, LiftPair(sy.lookup(s, n, ts))))
    && (forall n :: inside(s) ==> OutcomeBuildable(x, sy.publicRef(s, n)))
    && (forall n, ty, v: Option<Value> :: (v.Some? ==> Buildable(x, v.value)) ==> ResBuildable(x, inside, LiftPair(sy.newColumn(s, n, ty, v))))
    && (forall n, vs :: AllBuildable(x, vs) ==> ResBuildable(x, inside, LiftPair(sy.builtin(s, n, vs))))
  }

  /** Whatever ends inside started inside. */
  function Back<S>(inside: S -> bool): (S, S) -> bool { (a: S, b: S) => inside(b) ==> inside(a) }

  /** `inside` are the states in which all columns created so far are known to `x`. Columns are only
      ever added, and answers that end inside are buildable. */
  ghost predicate SymbolsBuild<S(!new)>(x: Context, sy: Symbols<S>, inside: S -> bool) {
    sy.p == x.p && PreludeDeclared(x) && (forall s :: AnswersBy(sy, Back(inside), s)) && forall s :: BuildAt(x, sy, inside, s)
  }

  lemma StepsBack<S(!new)>(x: Context, sy: Symbols<S>, inside: S -> bool)
    requires SymbolsBuild(x, sy, inside)
    ensures StepsBy(sy, Back(inside))
  {
  }

  lemma EvalBack<S(!new)>(fuel: nat, x: Context, sy: Symbols<S>, inside: S -> bool, e: PExpr, l: seq<Value>, targs: map<string, Type>, s: S)
    requires SymbolsBuild(x, sy, inside)
    ensures var r := Eval(fuel, sy, e, l, targs, s); r.Done? && inside(r.sym) ==> inside(s)
  {
    StepsBack(x, sy, inside);
    EvalBy(fuel, sy, Back(inside), e, l, targs, s);
  }

  lemma ListBack<S(!new)>(fuel: nat, x: Context, sy: Symbols<S>, inside: S -> bool, es: seq<PExpr>, l: seq<Value>, targs: map<string, Type>, s: S)
    requires SymbolsBuild(x, sy, inside)
    ensures var r := EvalList(fuel, sy, es, l, targs, s); r.Done? && inside(r.sym) ==> inside(s)
  {
    StepsBack(x, sy, inside);
    ListBy(fuel, sy, Back(inside), es, l, targs, s);
  }

  lemma StmtsBack<S(!new)>(fuel: nat, x: Context, sy: Symbols<S>, inside: S -> bool, stmts: seq<Stmt>, l: seq<Value>, targs: map<string, Type>, s: S)
    requires SymbolsBuild(x, sy, inside)
    ensures var r := EvalStmts(fuel, sy, stmts, l, targs, s); r.Done? && inside(r.sym) ==> inside(s)
  {
    StepsBack(x, sy, inside);
    StmtsBy(fuel, sy, Back(inside), stmts, l, targs, s);
  }

  lemma EnterBack<S(!new)>(fuel: nat, x: Context, sy: Symbols<S>, inside: S -> bool, f: Value, args: seq<Value>, s: S)
    requires SymbolsBuild(x, sy, inside)
    ensures var r := Apply(fuel, sy, f, args, s); r.Done? && inside(r.sym) ==> inside(s)
  {
    StepsBack(x, sy, inside);
    EnterBy(fuel, sy, Back(inside), f, args, s);
    var c := Prepare(sy, f, args, s);
    if c.Enter? && fuel > 0 { EvalBy(fuel - 1, sy, Back(inside), c.body, c.env, c.targs, s); }
  }

  lemma LetBack<S(!new)>(x: Context, sy: Symbols<S>, inside: S -> bool, p: Pattern, ty: Option<Type>, v: Option<Value>, s: S)
    requires SymbolsBuild(x, sy, inside)
    ensures var r := LetVars(sy, p, ty, v, s); r.Done? && inside(r.sym) ==> inside(s)
  {
    StepsBack(x, sy, inside);
    LetBy(sy, Back(inside), p, ty, v, s);
  }

  lemma LeafBuilds<S(!new)>(fuel: nat, x: Context, sy: Symbols<S>, inside: S -> bool, e: PExpr, l: seq<Value>, targs: map<string, Type>, s: S)
    requires SymbolsBuild(x, sy, inside) && (inside(s) ==> AllBuildable(x, l)) && IsLeaf(e)
    ensures ResBuildable(x, inside, Eval(fuel, sy, e, l, targs, s))
  {
    EvalBack(fuel, x, sy, inside, e, l, targs, s);
    assert BuildAt(x, sy, inside, s);
  }

  /** Every value that an evaluation returns is buildable over the columns known in the end. */
  lemma {:induction false} EvalBuilds<S(!new)>(fuel: nat, x: Context, sy: Symbols<S>, inside: S -> bool, e: PExpr, l: seq<Value>, targs: map<string, Type>, s: S)
    requires SymbolsBuild(x, sy, inside) && (inside(s) ==> AllBuildable(x, l))
    ensures ResBuildable(x, inside, Eval(fuel, sy, e, l, targs, s))
    decreases fuel, e, 2
  {
    match e
    case TupleE(items) => ListBuilds(fuel, x, sy, inside, items, l, targs, s);
    case ArrayE(items) => ListBuilds(fuel, x, sy, inside, items, l, targs, s);
    case Binary(_, _, _) => OperationBuilds(fuel, x, sy, inside, e, l, targs, s);
    case IndexE(_, _) => OperationBuilds(fuel, x, sy, inside, e, l, targs, s);
    case Unary(op, a) =>
      EvalBuilds(fuel, x, sy, inside, a, l, targs, s);
      var r := Eval(fuel, sy, a, l, targs, s);
      if r.Done? && inside(r.sym) { UnaryBuilds(x, op, r.value); }
    case Call(_, _) => CallBuilds(fuel, x, sy, inside, e, l, targs, s);
    case MatchE(_, _) => MatchBuilds(fuel, x, sy, inside, e, l, targs, s);
    case IfE(c, t, f) =>
      EvalBack(fuel, x, sy, inside, c, l, targs, s);
      var r := Eval(fuel, sy, c, l, targs, s);
      if r.Done? && r.value.VBool? { EvalBuilds(fuel, x, sy, inside, if r.value.b then t else f, l, targs, r.sym); }
    case Block(stmts, result) =>
      StmtsBuild(fuel, x, sy, inside, stmts, l, targs, s);
      var r := EvalStmts(fuel, sy, stmts, l, targs, s);
      if r.Done? && result.Some? { EvalBuilds(fuel, x, sy, inside, result.value, r.value, targs, r.sym); }
    case _ => LeafBuilds(fuel, x, sy, inside, e, l, targs, s);
  }

  lemma {:induction false} MatchBuilds<S(!new)>(fuel: nat, x: Context, sy: Symbols<S>, inside: S -> bool, e: PExpr, l: seq<Value>, targs: map<string, Type>, s: S)
    requires SymbolsBuild(x, sy, inside) && (inside(s) ==> AllBuildable(x, l)) && e.MatchE?
    ensures ResBuildable(x, inside, Eval(fuel, sy, e, l, targs, s))
    decreases fuel, e, 1
  {
    EvalBuilds(fuel, x, sy, inside, e.scrutinee, l, targs, s);
    EvalBack(fuel, x, sy, inside, e.scrutinee, l, targs, s);
    var r := Eval(fuel, sy, e.scrutinee, l, targs, s);
    if r.Done? {
      if inside(r.sym) { ArmsBuild(x, r.value, e.arms); }
      var sel := FindArm(r.value, e.arms);
      if sel.Ok? { EvalBuilds(fuel, x, sy, inside, e.arms[sel.value.arm].value, l + sel.value.vars, targs, r.sym); }
    }
  }

  lemma {:induction false} ListBuilds<S(!new)>(fuel: nat, x: Context, sy: Symbols<S>, inside: S -> bool, es: seq<PExpr>, l: seq<Value>, targs: map<string, Type>, s: S)
    requires SymbolsBuild(x, sy, inside) && (inside(s) ==> AllBuildable(x, l))
    ensures ListBuildable(x, inside, EvalList(fuel, sy, es, l, targs, s))
    decreases fuel, es, 0
  {
    if es != [] {
      EvalBuilds(fuel, x, sy, inside, es[0], l, targs, s);
      EvalBack(fuel, x, sy, inside, es[0], l, targs, s);
      var r := Eval(fuel, sy, es[0], l, targs, s);
      if r.Done? {
        ListBuilds(fuel, x, sy, inside, es[1..], l, targs, r.sym);
        ListBack(fuel, x, sy, inside, es[1..], l, targs, r.sym);
      }
    }
  }

  lemma {:induction false} OperationBuilds<S(!new)>(fuel: nat, x: Context, sy: Symbols<S>, inside: S -> bool, e: PExpr, l: seq<Value>, targs: map<string, Type>, s: S)
    requires SymbolsBuild(x, sy, inside) && (inside(s) ==> AllBuildable(x, l)) && (e.Binary? || e.IndexE?)
    ensures ResBuildable(x, inside, Eval(fuel, sy, e, l, targs, s))
    decreases fuel, e, 1
  {
    var a, b := if e.Binary? then e.l else e.arr, if e.Binary? then e.r else e.index;
    EvalBuilds(fuel, x, sy, inside, a, l, targs, s);
    EvalBack(fuel, x, sy, inside, a, l, targs, s);
    var r := Eval(fuel, sy, a, l, targs, s);
    if r.Done? {
      EvalBuilds(fuel, x, sy, inside, b, l, targs, r.sym);
      EvalBack(fuel, x, sy, inside, b, l, targs, r.sym);
      var q := Eval(fuel, sy, b, l, targs, r.sym);
      if q.Done? && inside(q.sym) && e.Binary? { BinaryBuilds(x, sy.lib, r.value, e.op, q.value); }
    }
  }

  ghost predicate CalleeBuildable<S>(x: Context, inside: S -> bool, c: Callee<S>) {
    match c
    case Immediate(r) => ResBuildable(x, inside, r)
    case Enter(_, env, _) => AllBuildable(x, env)
  }

  lemma CalleeBuilds<S(!new)>(x: Context, sy: Symbols<S>, inside: S -> bool, f: Value, args: seq<Value>, s: S)
    requires SymbolsBuild(x, sy, inside) && Buildable(x, f) && AllBuildable(x, args)
    ensures CalleeBuildable(x, inside, Prepare(sy, f, args, s))
  {
    assert BuildAt(x, sy, inside, s);
    if f.VClosure? && |f.code.params| == |args| { ParamsBuild(x, args, f.code.params); }
  }

  lemma {:induction false} CallBuilds<S(!new)>(fuel: nat, x: Context, sy: Symbols<S>, inside: S -> bool, e: PExpr, l: seq<Value>, targs: map<string, Type>, s: S)
    requires SymbolsBuild(x, sy, inside) && (inside(s) ==> AllBuildable(x, l)) && e.Call?
    ensures ResBuildable(x, inside, Eval(fuel, sy, e, l, targs, s))
    decreases fuel, e, 1
  {
    EvalBuilds(fuel, x, sy, inside, e.f, l, targs, s);
    EvalBack(fuel, x, sy, inside, e.f, l, targs, s);
    var f := Eval(fuel, sy, e.f, l, targs, s);
    if f.Done? {
      ListBuilds(fuel, x, sy, inside, e.args, l, targs, f.sym);
      ListBack(fuel, x, sy, inside, e.args, l, targs, f.sym);
      var vs := EvalList(fuel, sy, e.args, l, targs, f.sym);
      if vs.Done? {
        EnterBack(fuel, x, sy, inside, f.value, vs.value, vs.sym);
        if inside(vs.sym) {
          CalleeBuilds(x, sy, inside, f.value, vs.value, vs.sym);
          var c := Prepare(sy, f.value, vs.value, vs.sym);
          if c.Enter? && fuel > 0 { EvalBuilds(fuel - 1, x, sy, inside, c.body, c.env, c.targs, vs.sym); }
        }
      }
    }
  }

  lemma {:induction false} StmtsBuild<S(!new)>(fuel: nat, x: Context, sy: Symbols<S>, inside: S -> bool, stmts: seq<Stmt>, l: seq<Value>, targs: map<string, Type>, s: S)
    requires SymbolsBuild(x, sy, inside) && (inside(s) ==> AllBuildable(x, l))
    ensures ListBuildable(x, inside, EvalStmts(fuel, sy, stmts, l, targs, s))
    decreases fuel, stmts, 0
  {
    if stmts != [] {
      StmtBuilds(fuel, x, sy, inside, stmts[0], l, targs, s);
      var r := EvalStmt(fuel, sy, stmts[0], l, targs, s);
      if r.Done? { StmtsBuild(fuel, x, sy, inside, stmts[1..], r.value, targs, r.sym); }
    }
  }

  lemma {:induction false} StmtBuilds<S(!new)>(fuel: nat, x: Context, sy: Symbols<S>, inside: S -> bool, st: Stmt, l: seq<Value>, targs: map<string, Type>, s: S)
    requires SymbolsBuild(x, sy, inside) && (inside(s) ==> AllBuildable(x, l))
    ensures ListBuildable(x, inside, EvalStmt(fuel, sy, st, l, targs, s))
    decreases fuel, st, 0
  {
    StepsBack(x, sy, inside);
    StmtBy(fuel, sy, Back(inside), st, l, targs, s);
    match st
    case Do(_) =>
    case Let(p, ty, None) => LetBuilds(x, sy, inside, p, ty, None, s);
    case Let(p, ty, Some(e)) =>
      EvalBuilds(fuel, x, sy, inside, e, l, targs, s);
      var r := Eval(fuel, sy, e, l, targs, s);
      if r.Done? { LetBuilds(x, sy, inside, p, ty, Some(r.value), r.sym); }
  }

  lemma LetBuilds<S(!new)>(x: Context, sy: Symbols<S>, inside: S -> bool, p: Pattern, ty: Option<Type>, v: Option<Value>, s: S)
    requires SymbolsBuild(x, sy, inside) && (inside(s) && v.Some? ==> Buildable(x, v.value))
    ensures ListBuildable(x, inside, LetVars(sy, p, ty, v, s))
  {
    LetBack(x, sy, inside, p, ty, v, s);
    assert BuildAt(x, sy, inside, s);
    var r := LetValue(sy, p, ty, v, s);
    if r.Done? && inside(r.sym) && inside(s) { PatternBuilds(x, r.value, p); }
  }

  // ----- runtime closures as source -----

  /** A value computed by any evaluation that converts to an expression is recomputed by that
      expression over the columns known in the end: the new value equals the old one up to the
      numbering of captured variables, and if it is a function it gives related results on all
      arguments. */
  lemma EvaluatedValueRoundTrips<S(!new)>(w: World<S>, inside: S -> bool, table: Table, fuel: nat, e: PExpr, targs: map<string, Type>, s: S)
    requires Knows(w) && SymbolsBuild(w.x, w.sy, inside) && Decodes(w.x.symbols, table)
    requires var r := Eval(fuel, w.sy, e, [], targs, s); r.Done? && inside(r.sym) && w.ready(r.sym) && ToExpr(w.x.p, table, r.value).Ok?
    ensures var r := Eval(fuel, w.sy, e, [], targs, s);
            var q := Eval(0, w.sy, ToExpr(w.x.p, table, r.value).value, [], map[], r.sym);
            && q.Done? && w.ready(q.sym) && VRel(r.value, q.value)
  {
    EvalBuilds(fuel, w.x, w.sy, inside, e, [], targs, s);
    var r := Eval(fuel, w.sy, e, [], targs, s);
    RoundTripCorrect(w, table, 0, r.value, r.sym);
  }

  lemma RecreatedFunctionBehaves<S(!new)>(w: World<S>, k: Setting<S>, table: Table, v: Value, s: S,
                                          fuel: nat, args: seq<Value>, s1: S, s2: S)
    requires Knows(w) && w.ready(s) && Decodes(w.x.symbols, table) && Buildable(w.x, v) && ToExpr(w.x.p, table, v).Ok?
    requires k.sy == w.sy && Congruent(k) && k.rel(s1, s2)
    ensures var q := Eval(0, w.sy, ToExpr(w.x.p, table, v).value, [], map[], s);
            q.Done? && ResRel(k, Apply(fuel, w.sy, v, args, s1), Apply(fuel, w.sy, q.value, args, s2))
  {
    RoundTripCorrect(w, table, 0, v, s);
    ReflexiveAll(args);
    ClosuresAgree(fuel, k, v, Eval(0, w.sy, ToExpr(w.x.p, table, v).value, [], map[], s).value, args, args, s1, s2);
  }
}
