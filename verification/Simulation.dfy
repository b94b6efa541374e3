/** Related expressions evaluate to related results, so closures that differ only in the numbering of
    captured variables cannot be told apart by calling them. */
module Simulation {
  import opened Congruence
  import opened Options
  import opened Types
  import opened PilLang
  import opened BigStep
  import opened Relation

  // ----- pattern matching -----

  ghost predicate MatchRel(a: MatchResult<Code>, b: MatchResult<Code>) {
    match a
    case Matched(vs) => b.Matched? && VRelAll(vs, b.vars)
    case NoMatch => b.NoMatch?
    case MatchPanic => b.MatchPanic?
  }

  lemma RelConcat(a: seq<Value>, b: seq<Value>, x: seq<Value>, y: seq<Value>)
    requires VRelAll(a, b) && VRelAll(x, y)
    ensures VRelAll(a + x, b + y)
  {
  }

  lemma {:induction false} PatternsAgree(v: Value, w: Value, p: Pattern)
    requires VRel(v, w)
    ensures MatchRel(MatchPattern(v, p), MatchPattern(w, p))
    decreases p, 2
  {
    match p
    case TupleP(items) => if v.VTuple? && |v.items| == |items| { AllAgree(p, v.items, w.items, items); }
    case ArrayP(items) => ArraysAgree(v, w, p);
    case EnumP(_, fields) =>
      if v.VEnum? && v.data.Data? && fields.Fields? && |v.data.items| == |fields.items| {
        AllAgree(p, v.data.items, w.data.items, fields.items);
      }
    case _ =>
  }

  lemma {:induction false} ArraysAgree(v: Value, w: Value, p: Pattern)
    requires VRel(v, w) && p.ArrayP?
    ensures MatchRel(MatchPattern(v, p), MatchPattern(w, p))
    decreases p, 1
  {
    if v.VArray? {
      var a, b := ArrayParts(v.items, p.items), ArrayParts(w.items, p.items);
      if a.Some? {
        assert VRelAll(a.value, b.value);
        AllAgree(p, a.value, b.value, WithoutEllipsis(p.items));
      }
    }
  }

  lemma {:induction false} AllAgree(parent: Pattern, vs: seq<Value>, ws: seq<Value>, ps: seq<Pattern>)
    requires VRelAll(vs, ws) && forall q :: q in ps ==> q < parent
    ensures MatchRel(MatchAll(parent, vs, ps), MatchAll(parent, ws, ps))
    decreases parent, 0, |ps|
  {
    if vs != [] && ps != [] {
      assert ps[0] in ps && forall q :: q in ps[1..] ==> q in ps;
      PatternsAgree(vs[0], ws[0], ps[0]);
      assert VRelAll(vs[1..], ws[1..]);
      AllAgree(parent, vs[1..], ws[1..], ps[1..]);
      var a, b := MatchPattern(vs[0], ps[0]), MatchPattern(ws[0], ps[0]);
      var c, d := MatchAll(parent, vs[1..], ps[1..]), MatchAll(parent, ws[1..], ps[1..]);
      if a.Matched? && c.Matched? { RelConcat(a.vars, b.vars, c.vars, d.vars); }
    }
  }

  lemma {:induction false} ParamsAgree(vs: seq<Value>, ws: seq<Value>, ps: seq<Pattern>)
    requires VRelAll(vs, ws) && |vs| == |ps|
    ensures var a, b := BindParams(vs, ps), BindParams(ws, ps);
            if a.Ok? then b.Ok? && VRelAll(a.value, b.value) else b == Err(a.error)
    decreases ps
  {
    if ps != [] {
      PatternsAgree(vs[0], ws[0], ps[0]);
      assert VRelAll(vs[1..], ws[1..]);
      ParamsAgree(vs[1..], ws[1..], ps[1..]);
      var a, b := MatchPattern(vs[0], ps[0]), MatchPattern(ws[0], ps[0]);
      var c, d := BindParams(vs[1..], ps[1..]), BindParams(ws[1..], ps[1..]);
      if a.Matched? && c.Ok? { RelConcat(a.vars, b.vars, c.value, d.value); }
    }
  }

  lemma {:induction false} ArmsAgree(v: Value, w: Value, arms: seq<Arm>, brms: seq<Arm>)
    requires VRel(v, w) && |arms| == |brms| && forall i :: 0 <= i < |arms| ==> arms[i].pattern == brms[i].pattern
    ensures var a, b := FindArm(v, arms), FindArm(w, brms);
            if a.Ok? then b.Ok? && a.value.arm == b.value.arm && VRelAll(a.value.vars, b.value.vars) else b == Err(a.error)
    decreases arms
  {
    if arms != [] {
      PatternsAgree(v, w, arms[0].pattern);
      ArmsAgree(v, w, arms[1..], brms[1..]);
    }
  }

  // ----- operators -----

  ghost predicate OutcomeRel(a: Outcome<Value>, b: Outcome<Value>) {
    if a.Ok? then b.Ok? && VRel(a.value, b.value) else b == Err(a.error)
  }

  /** Values of these kinds are related only to themselves. */
  predicate Plain(v: Value) { v.VBool? || v.VInt? || v.VFe? || v.VStr? || v.VExpr? || v.VBuiltin? || v.VConstructor? }

  lemma PairsAgree(a: seq<Value>, b: seq<Value>, x: seq<Value>, y: seq<Value>)
    requires VRelAll(a, x) && VRelAll(b, y) && |a| == |b|
    ensures |x| == |y| && VRelAll(PairUp(a, b), PairUp(x, y))
  {
    forall i | 0 <= i < |a| ensures VRel(PairUp(a, b)[i], PairUp(x, y)[i]) {
      assert VRelAll([a[i], b[i]], [x[i], y[i]]);
    }
  }

  lemma SelectedAgree(v: Value, w: Value)
    requires VRel(v, w)
    ensures var a, b := ToSelectedExprs(v), ToSelectedExprs(w);
            if a.Ok? then b.Ok? && VRel(a.value.selector, b.value.selector) && VRelAll(a.value.exprs, b.value.exprs) else b == Err(a.error)
  {
    if v.VEnum? && v.data.Data? && |v.data.items| == 2 {
      assert VRel(v.data.items[0], w.data.items[0]) && VRel(v.data.items[1], w.data.items[1]);
      assert VRelAll([v.data.items[0]], [w.data.items[0]]);
    }
  }

  lemma LookupsAgree(variant: string, v: Value, y: Value, w: Value, z: Value)
    requires VRel(v, w) && VRel(y, z)
    ensures OutcomeRel(LookupConstr(variant, v, y), LookupConstr(variant, w, z))
  {
    SelectedAgree(v, w);
    SelectedAgree(y, z);
    var a, b, c, d := ToSelectedExprs(v), ToSelectedExprs(y), ToSelectedExprs(w), ToSelectedExprs(z);
    if a.Ok? && b.Ok? && |a.value.exprs| == |b.value.exprs| {
      LookupDataAgree(variant, a.value, b.value, c.value, d.value);
    }
  }

  lemma LookupDataAgree(variant: string, a: SelectedExprs<Code>, b: SelectedExprs<Code>, c: SelectedExprs<Code>, d: SelectedExprs<Code>)
    requires |a.exprs| == |b.exprs| && |c.exprs| == |d.exprs|
    requires VRel(a.selector, c.selector) && VRel(b.selector, d.selector) && VRelAll(a.exprs, c.exprs) && VRelAll(b.exprs, d.exprs)
    ensures VRel(Constr(variant, [VTuple([a.selector, b.selector]), VArray(PairUp(a.exprs, b.exprs))]),
                 Constr(variant, [VTuple([c.selector, d.selector]), VArray(PairUp(c.exprs, d.exprs))]))
  {
    PairsAgree(a.exprs, b.exprs, c.exprs, d.exprs);
    var x, y := [a.selector, b.selector], [c.selector, d.selector];
    assert VRelAll(x, y);
    var s: seq<Value> := [VTuple(x), VArray(PairUp(a.exprs, b.exprs))];
    var t: seq<Value> := [VTuple(y), VArray(PairUp(c.exprs, d.exprs))];
    assert VRel(s[0], t[0]) && VRel(s[1], t[1]);
    assert VRelAll(s, t);
  }

  lemma ArrayOpsAgree(p: Modulus, lib: IntLib, v: Value, op: BinOp, y: Value, w: Value, z: Value)
    requires VRel(v, w) && VRel(y, z) && v.VArray? && y.VArray? && !op.InOp? && !op.IsOp?
    ensures OutcomeRel(BinaryOp(p, lib, v, op, y), BinaryOp(p, lib, w, op, z))
  {
    if op.AddOp? { RelConcat(v.items, w.items, y.items, z.items); }
    if op.ConnectOp? && |v.items| == |y.items| {
      PairsAgree(v.items, y.items, w.items, z.items);
      var s: seq<Value> := [VArray(PairUp(v.items, y.items))];
      var t: seq<Value> := [VArray(PairUp(w.items, z.items))];
      assert VRel(s[0], t[0]) && VRelAll(s, t);
    }
  }

  /** A binary operation with an operand that is not an array. */
  lemma OtherOpsAgree(p: Modulus, lib: IntLib, v: Value, op: BinOp, y: Value, w: Value, z: Value)
    requires VRel(v, w) && VRel(y, z) && !(v.VArray? && y.VArray?) && !op.InOp? && !op.IsOp? && !op.SelectOp?
    ensures OutcomeRel(BinaryOp(p, lib, v, op, y), BinaryOp(p, lib, w, op, z))
  {
    if Plain(v) && Plain(y) {
      assert v == w && y == z;
      var r := BinaryOp(p, lib, v, op, y);
      if r.Ok? { SelfRelated(p, lib, v, op, y); }
    }
  }

  /** The result of an operation on plain values is related to itself. */
  lemma SelfRelated(p: Modulus, lib: IntLib, v: Value, op: BinOp, y: Value)
    requires Plain(v) && Plain(y) && BinaryOp(p, lib, v, op, y).Ok?
    ensures VRel(BinaryOp(p, lib, v, op, y).value, BinaryOp(p, lib, v, op, y).value)
  {
    var r := BinaryOp(p, lib, v, op, y).value;
    if r.VEnum? { assert VRel(v, v) && VRel(y, y) && VRelAll([v, y], [v, y]); }
  }

  lemma LookupOpsAgree(p: Modulus, lib: IntLib, v: Value, op: BinOp, y: Value, w: Value, z: Value)
    requires VRel(v, w) && VRel(y, z) && (op.InOp? || op.IsOp?)
    ensures OutcomeRel(BinaryOp(p, lib, v, op, y), BinaryOp(p, lib, w, op, z))
  {
    LookupsAgree(if op.InOp? then "Lookup" else "Permutation", v, y, w, z);
  }

  lemma SelectOpAgrees(p: Modulus, lib: IntLib, v: Value, op: BinOp, y: Value, w: Value, z: Value)
    requires VRel(v, w) && VRel(y, z) && op.SelectOp? && !(v.VArray? && y.VArray?)
    ensures OutcomeRel(BinaryOp(p, lib, v, op, y), BinaryOp(p, lib, w, op, z))
  {
    if v.VExpr? && y.VArray? { assert VRelAll([v, y], [w, z]); }
  }

  lemma BinaryAgree(p: Modulus, lib: IntLib, v: Value, op: BinOp, y: Value, w: Value, z: Value)
    requires VRel(v, w) && VRel(y, z)
    ensures OutcomeRel(BinaryOp(p, lib, v, op, y), BinaryOp(p, lib, w, op, z))
  {
    if op.InOp? || op.IsOp? {
      LookupOpsAgree(p, lib, v, op, y, w, z);
    } else if v.VArray? && y.VArray? {
      ArrayOpsAgree(p, lib, v, op, y, w, z);
    } else if op.SelectOp? {
      SelectOpAgrees(p, lib, v, op, y, w, z);
    } else {
      OtherOpsAgree(p, lib, v, op, y, w, z);
    }
  }

  lemma UnaryAgree(p: Modulus, op: UnOp, v: Value, w: Value)
    requires VRel(v, w)
    ensures OutcomeRel(UnaryOp(p, op, v), UnaryOp(p, op, w))
  {
  }

  lemma IndexAgree(v: Value, i: Value, w: Value, j: Value)
    requires VRel(v, w) && VRel(i, j)
    ensures OutcomeRel(IndexOp(v, i), IndexOp(w, j))
  {
  }

  // ----- evaluation -----

  /** A symbol table and a relation on its states that ignores the numbering of captured variables. */
  datatype Setting<!S> = Setting(sy: Symbols<S>, rel: (S, S) -> bool)

  ghost predicate ResRel<S>(k: Setting<S>, a: Res<Value, S>, b: Res<Value, S>) {
    match a
    case OutOfFuel => b.OutOfFuel?
    case Fail(e) => b == Fail(e)
    case Done(v, s) => b.Done? && VRel(v, b.value) && k.rel(s, b.sym)
  }

  ghost predicate ListRel<S>(k: Setting<S>, a: Res<seq<Value>, S>, b: Res<seq<Value>, S>) {
    match a
    case OutOfFuel => b.OutOfFuel?
    case Fail(e) => b == Fail(e)
    case Done(vs, s) => b.Done? && VRelAll(vs, b.value) && k.rel(s, b.sym)
  }

  /** Both runs of a block extend their locals by related values. */
  ghost predicate LocalsRel<S>(k: Setting<S>, l: seq<Value>, m: seq<Value>, a: Res<seq<Value>, S>, b: Res<seq<Value>, S>) {
    match a
    case OutOfFuel => b.OutOfFuel?
    case Fail(e) => b == Fail(e)
    case Done(vs, s) => b.Done? && k.rel(s, b.sym) && exists x, y :: vs == l + x && b.value == m + y && VRelAll(x, y)
  }

  ghost predicate ItemRel<S>(k: Setting<S>, a: Outcome<S>, b: Outcome<S>) {
    if a.Ok? then b.Ok? && k.rel(a.value, b.value) else b == Err(a.error)
  }

  /** In related states, symbols answer alike on related values. */
  ghost predicate CongruentAt<S>(k: Setting<S>, s: S, t: S) {
    && (forall n, ts :: ResRel(k, LiftPair(k.sy.lookup(s, n, ts)), LiftPair(k.sy.lookup(t, n, ts))))
    && (forall n :: OutcomeRel(k.sy.publicRef(s, n), k.sy.publicRef(t, n)))
    && (forall n, ty :: ResRel(k, LiftPair(k.sy.newColumn(s, n, ty, None)), LiftPair(k.sy.newColumn(t, n, ty, None))))
    && (forall n, ty, v, w :: VRel(v, w) ==>
          ResRel(k, LiftPair(k.sy.newColumn(s, n, ty, Some(v))), LiftPair(k.sy.newColumn(t, n, ty, Some(w)))))
    && (forall v, w :: VRel(v, w) ==> ItemRel(k, k.sy.addProofItems(s, v), k.sy.addProofItems(t, w)))
    && (forall n, vs, ws :: VRelAll(vs, ws) ==>
          ResRel(k, LiftPair(k.sy.builtin(s, n, vs)), LiftPair(k.sy.builtin(t, n, ws))))
  }

  ghost predicate Congruent<S(!new)>(k: Setting<S>) {
    forall s, t {:trigger CongruentAt(k, s, t)} :: k.rel(s, t) ==> CongruentAt(k, s, t)
  }

  ghost predicate Simulates<S>(fuel: nat, k: Setting<S>, e: PExpr, d: PExpr, l: seq<Value>, m: seq<Value>, targs: map<string, Type>, s: S, t: S) {
    ResRel(k, Eval(fuel, k.sy, e, l, targs, s), Eval(fuel, k.sy, d, m, targs, t))
  }

  lemma LeavesAgree<S(!new)>(fuel: nat, k: Setting<S>, e: PExpr, d: PExpr, l: seq<Value>, m: seq<Value>, targs: map<string, Type>, s: S, t: S)
    requires Congruent(k) && k.rel(s, t) && ERel(l, m, e, d) && IsLeaf(e)
    ensures Simulates(fuel, k, e, d, l, m, targs, s, t)
  {
    assert CongruentAt(k, s, t);
  }

  lemma {:induction false} ExpressionsAgree<S(!new)>(fuel: nat, k: Setting<S>, e: PExpr, d: PExpr, l: seq<Value>, m: seq<Value>,
                                                     targs: map<string, Type>, s: S, t: S)
    requires Congruent(k) && k.rel(s, t) && ERel(l, m, e, d)
    ensures Simulates(fuel, k, e, d, l, m, targs, s, t)
    decreases fuel, e, 2
  {
    match e
    case TupleE(items) => ListsAgree(fuel, k, items, d.items, l, m, targs, s, t);
    case ArrayE(items) => ListsAgree(fuel, k, items, d.items, l, m, targs, s, t);
    case Binary(_, _, _) => BinariesAgree(fuel, k, e, d, l, m, targs, s, t);
    case Unary(_, _) => UnariesAgree(fuel, k, e, d, l, m, targs, s, t);
    case IndexE(_, _) => IndexesAgree(fuel, k, e, d, l, m, targs, s, t);
    case Call(_, _) => CallsAgree(fuel, k, e, d, l, m, targs, s, t);
    case MatchE(_, _) => MatchesAgree(fuel, k, e, d, l, m, targs, s, t);
    case IfE(_, _, _) => IfsAgree(fuel, k, e, d, l, m, targs, s, t);
    case Block(_, _) => BlocksAgree(fuel, k, e, d, l, m, targs, s, t);
    case _ => LeavesAgree(fuel, k, e, d, l, m, targs, s, t);
  }

  lemma {:induction false} ListsAgree<S(!new)>(fuel: nat, k: Setting<S>, es: seq<PExpr>, ds: seq<PExpr>, l: seq<Value>, m: seq<Value>,
                                               targs: map<string, Type>, s: S, t: S)
    requires Congruent(k) && k.rel(s, t) && |es| == |ds| && forall i :: 0 <= i < |es| ==> ERel(l, m, es[i], ds[i])
    ensures ListRel(k, EvalList(fuel, k.sy, es, l, targs, s), EvalList(fuel, k.sy, ds, m, targs, t))
    decreases fuel, es, 0
  {
    if es != [] {
      ExpressionsAgree(fuel, k, es[0], ds[0], l, m, targs, s, t);
      var a, b := Eval(fuel, k.sy, es[0], l, targs, s), Eval(fuel, k.sy, ds[0], m, targs, t);
      if a.Done? {
        ListsAgree(fuel, k, es[1..], ds[1..], l, m, targs, a.sym, b.sym);
        var x, y := EvalList(fuel, k.sy, es[1..], l, targs, a.sym), EvalList(fuel, k.sy, ds[1..], m, targs, b.sym);
        if x.Done? { RelConcat([a.value], [b.value], x.value, y.value); }
      }
    }
  }

  lemma {:induction false} BinariesAgree<S(!new)>(fuel: nat, k: Setting<S>, e: PExpr, d: PExpr, l: seq<Value>, m: seq<Value>,
                                                  targs: map<string, Type>, s: S, t: S)
    requires Congruent(k) && k.rel(s, t) && ERel(l, m, e, d) && e.Binary?
    ensures Simulates(fuel, k, e, d, l, m, targs, s, t)
    decreases fuel, e, 1
  {
    ExpressionsAgree(fuel, k, e.l, d.l, l, m, targs, s, t);
    var a, b := Eval(fuel, k.sy, e.l, l, targs, s), Eval(fuel, k.sy, d.l, m, targs, t);
    if a.Done? {
      ExpressionsAgree(fuel, k, e.r, d.r, l, m, targs, a.sym, b.sym);
      var x, y := Eval(fuel, k.sy, e.r, l, targs, a.sym), Eval(fuel, k.sy, d.r, m, targs, b.sym);
      if x.Done? { BinaryAgree(k.sy.p, k.sy.lib, a.value, e.op, x.value, b.value, y.value); }
    }
  }

  lemma {:induction false} UnariesAgree<S(!new)>(fuel: nat, k: Setting<S>, e: PExpr, d: PExpr, l: seq<Value>, m: seq<Value>,
                                                 targs: map<string, Type>, s: S, t: S)
    requires Congruent(k) && k.rel(s, t) && ERel(l, m, e, d) && e.Unary?
    ensures Simulates(fuel, k, e, d, l, m, targs, s, t)
    decreases fuel, e, 1
  {
    ExpressionsAgree(fuel, k, e.e, d.e, l, m, targs, s, t);
    var a, b := Eval(fuel, k.sy, e.e, l, targs, s), Eval(fuel, k.sy, d.e, m, targs, t);
    if a.Done? { UnaryAgree(k.sy.p, e.uop, a.value, b.value); }
  }

  lemma {:induction false} IndexesAgree<S(!new)>(fuel: nat, k: Setting<S>, e: PExpr, d: PExpr, l: seq<Value>, m: seq<Value>,
                                                 targs: map<string, Type>, s: S, t: S)
    requires Congruent(k) && k.rel(s, t) && ERel(l, m, e, d) && e.IndexE?
    ensures Simulates(fuel, k, e, d, l, m, targs, s, t)
    decreases fuel, e, 1
  {
    ExpressionsAgree(fuel, k, e.arr, d.arr, l, m, targs, s, t);
    var a, b := Eval(fuel, k.sy, e.arr, l, targs, s), Eval(fuel, k.sy, d.arr, m, targs, t);
    if a.Done? {
      ExpressionsAgree(fuel, k, e.index, d.index, l, m, targs, a.sym, b.sym);
      var x, y := Eval(fuel, k.sy, e.index, l, targs, a.sym), Eval(fuel, k.sy, d.index, m, targs, b.sym);
      if x.Done? { IndexAgree(a.value, x.value, b.value, y.value); }
    }
  }

  lemma {:induction false} IfsAgree<S(!new)>(fuel: nat, k: Setting<S>, e: PExpr, d: PExpr, l: seq<Value>, m: seq<Value>,
                                             targs: map<string, Type>, s: S, t: S)
    requires Congruent(k) && k.rel(s, t) && ERel(l, m, e, d) && e.IfE?
    ensures Simulates(fuel, k, e, d, l, m, targs, s, t)
    decreases fuel, e, 1
  {
    ExpressionsAgree(fuel, k, e.cond, d.cond, l, m, targs, s, t);
    var a, b := Eval(fuel, k.sy, e.cond, l, targs, s), Eval(fuel, k.sy, d.cond, m, targs, t);
    if a.Done? && a.value.VBool? {
      ExpressionsAgree(fuel, k, if a.value.b then e.thn else e.els, if a.value.b then d.thn else d.els, l, m, targs, a.sym, b.sym);
    }
  }

  lemma {:induction false} MatchesAgree<S(!new)>(fuel: nat, k: Setting<S>, e: PExpr, d: PExpr, l: seq<Value>, m: seq<Value>,
                                                 targs: map<string, Type>, s: S, t: S)
    requires Congruent(k) && k.rel(s, t) && ERel(l, m, e, d) && e.MatchE?
    ensures Simulates(fuel, k, e, d, l, m, targs, s, t)
    decreases fuel, e, 1
  {
    ExpressionsAgree(fuel, k, e.scrutinee, d.scrutinee, l, m, targs, s, t);
    var a, b := Eval(fuel, k.sy, e.scrutinee, l, targs, s), Eval(fuel, k.sy, d.scrutinee, m, targs, t);
    if a.Done? {
      ArmsAgree(a.value, b.value, e.arms, d.arms);
      var x, y := FindArm(a.value, e.arms), FindArm(b.value, d.arms);
      if x.Ok? {
        var i := x.value.arm;
        Extended(l, m, x.value.vars, y.value.vars, e.arms[i].value, d.arms[i].value);
        ExpressionsAgree(fuel, k, e.arms[i].value, d.arms[i].value, l + x.value.vars, m + y.value.vars, targs, a.sym, b.sym);
      }
    }
  }

  /** Calling related functions on related arguments either gives related results right away, or
      enters related bodies. */
  ghost predicate CalleeRel<S>(k: Setting<S>, a: Callee<S>, b: Callee<S>) {
    match a
    case Immediate(r) => b.Immediate? && ResRel(k, r, b.r)
    case Enter(body, env, ta) => b.Enter? && b.targs == ta && ERel(env, b.env, body, b.body)
  }

  lemma CalleesAgree<S(!new)>(k: Setting<S>, f: Value, g: Value, vs: seq<Value>, ws: seq<Value>, s: S, t: S)
    requires Congruent(k) && k.rel(s, t) && VRel(f, g) && VRelAll(vs, ws)
    ensures CalleeRel(k, Prepare(k.sy, f, vs, s), Prepare(k.sy, g, ws, t))
  {
    match f
    case VClosure(c, env) =>
      if |c.params| == |vs| {
        ParamsAgree(vs, ws, c.params);
        var a, b := BindParams(vs, c.params), BindParams(ws, c.params);
        if a.Ok? { Extended(env, g.env, a.value, b.value, c.body, g.code.body); }
      }
    case VBuiltin(_) => assert CongruentAt(k, s, t);
    case _ =>
  }

  lemma {:induction false} CallsAgree<S(!new)>(fuel: nat, k: Setting<S>, e: PExpr, d: PExpr, l: seq<Value>, m: seq<Value>,
                                               targs: map<string, Type>, s: S, t: S)
    requires Congruent(k) && k.rel(s, t) && ERel(l, m, e, d) && e.Call?
    ensures Simulates(fuel, k, e, d, l, m, targs, s, t)
    decreases fuel, e, 1
  {
    ExpressionsAgree(fuel, k, e.f, d.f, l, m, targs, s, t);
    var f, g := Eval(fuel, k.sy, e.f, l, targs, s), Eval(fuel, k.sy, d.f, m, targs, t);
    if f.Done? {
      ListsAgree(fuel, k, e.args, d.args, l, m, targs, f.sym, g.sym);
      var vs, ws := EvalList(fuel, k.sy, e.args, l, targs, f.sym), EvalList(fuel, k.sy, d.args, m, targs, g.sym);
      if vs.Done? {
        CalleesAgree(k, f.value, g.value, vs.value, ws.value, vs.sym, ws.sym);
        var a, b := Prepare(k.sy, f.value, vs.value, vs.sym), Prepare(k.sy, g.value, ws.value, ws.sym);
        if a.Enter? && fuel > 0 { ExpressionsAgree(fuel - 1, k, a.body, b.body, a.env, b.env, a.targs, vs.sym, ws.sym); }
      }
    }
  }

  lemma {:induction false} BlocksAgree<S(!new)>(fuel: nat, k: Setting<S>, e: PExpr, d: PExpr, l: seq<Value>, m: seq<Value>,
                                                targs: map<string, Type>, s: S, t: S)
    requires Congruent(k) && k.rel(s, t) && ERel(l, m, e, d) && e.Block?
    ensures Simulates(fuel, k, e, d, l, m, targs, s, t)
    decreases fuel, e, 1
  {
    StatementsAgree(fuel, k, e.stmts, d.stmts, l, m, targs, s, t);
    var a, b := EvalStmts(fuel, k.sy, e.stmts, l, targs, s), EvalStmts(fuel, k.sy, d.stmts, m, targs, t);
    if a.Done? && e.result.Some? {
      var x, y :| a.value == l + x && b.value == m + y && VRelAll(x, y);
      Extended(l, m, x, y, e.result.value, d.result.value);
      ExpressionsAgree(fuel, k, e.result.value, d.result.value, a.value, b.value, targs, a.sym, b.sym);
    }
  }

  lemma {:induction false} StatementsAgree<S(!new)>(fuel: nat, k: Setting<S>, ss: seq<Stmt>, ts: seq<Stmt>, l: seq<Value>, m: seq<Value>,
                                                    targs: map<string, Type>, s: S, t: S)
    requires Congruent(k) && k.rel(s, t) && |ss| == |ts| && forall i :: 0 <= i < |ss| ==> SRel(l, m, ss[i], ts[i])
    ensures LocalsRel(k, l, m, EvalStmts(fuel, k.sy, ss, l, targs, s), EvalStmts(fuel, k.sy, ts, m, targs, t))
    decreases fuel, ss, 0
  {
    if ss == [] {
      assert l == l + [] && m == m + [] && VRelAll([], []);
    } else {
      StatementAgrees(fuel, k, ss[0], ts[0], l, m, targs, s, t);
      var a, b := EvalStmt(fuel, k.sy, ss[0], l, targs, s), EvalStmt(fuel, k.sy, ts[0], m, targs, t);
      if a.Done? {
        var x, y :| a.value == l + x && b.value == m + y && VRelAll(x, y);
        forall i | 0 <= i < |ss[1..]| ensures SRel(a.value, b.value, ss[1..][i], ts[1..][i]) {
          ExtendedStmt(l, m, x, y, ss[1..][i], ts[1..][i]);
        }
        StatementsAgree(fuel, k, ss[1..], ts[1..], a.value, b.value, targs, a.sym, b.sym);
        LocalsChain(k, l, m, x, y, EvalStmts(fuel, k.sy, ss[1..], a.value, targs, a.sym), EvalStmts(fuel, k.sy, ts[1..], b.value, targs, b.sym));
      }
    }
  }

  lemma LocalsChain<S>(k: Setting<S>, l: seq<Value>, m: seq<Value>, x: seq<Value>, y: seq<Value>, a: Res<seq<Value>, S>, b: Res<seq<Value>, S>)
    requires VRelAll(x, y) && LocalsRel(k, l + x, m + y, a, b)
    ensures LocalsRel(k, l, m, a, b)
  {
    if a.Done? {
      var u, v :| a.value == l + x + u && b.value == m + y + v && VRelAll(u, v);
      RelConcat(x, y, u, v);
      assert l + x + u == l + (x + u) && m + y + v == m + (y + v);
    }
  }

  lemma {:induction false} StatementAgrees<S(!new)>(fuel: nat, k: Setting<S>, st: Stmt, tt: Stmt, l: seq<Value>, m: seq<Value>,
                                                    targs: map<string, Type>, s: S, t: S)
    requires Congruent(k) && k.rel(s, t) && SRel(l, m, st, tt)
    ensures LocalsRel(k, l, m, EvalStmt(fuel, k.sy, st, l, targs, s), EvalStmt(fuel, k.sy, tt, m, targs, t))
    decreases fuel, st, 0
  {
    match st
    case Do(e) =>
      ExpressionsAgree(fuel, k, e, tt.e, l, m, targs, s, t);
      var a, b := Eval(fuel, k.sy, e, l, targs, s), Eval(fuel, k.sy, tt.e, m, targs, t);
      if a.Done? { ItemsAgree(k, a.value, b.value, a.sym, b.sym); }
      assert l == l + [] && m == m + [] && VRelAll([], []);
    case Let(p, ty, None) => LetsAgree(k, p, ty, None, None, l, m, s, t);
    case Let(p, ty, Some(e)) =>
      ExpressionsAgree(fuel, k, e, tt.value.value, l, m, targs, s, t);
      var a, b := Eval(fuel, k.sy, e, l, targs, s), Eval(fuel, k.sy, tt.value.value, m, targs, t);
      if a.Done? { LetsAgree(k, p, ty, Some(a.value), Some(b.value), l, m, a.sym, b.sym); }
  }

  lemma ItemsAgree<S(!new)>(k: Setting<S>, v: Value, w: Value, s: S, t: S)
    requires Congruent(k) && k.rel(s, t) && VRel(v, w)
    ensures ItemRel(k, ProofItem(k.sy, v, s), ProofItem(k.sy, w, t))
  {
    assert CongruentAt(k, s, t);
    assert v == VTuple([]) <==> w == VTuple([]);
  }

  lemma LetsAgree<S(!new)>(k: Setting<S>, p: Pattern, ty: Option<Type>, v: Option<Value>, w: Option<Value>, l: seq<Value>, m: seq<Value>, s: S, t: S)
    requires Congruent(k) && k.rel(s, t) && v.Some? == w.Some? && (v.Some? ==> VRel(v.value, w.value))
    ensures LocalsRel(k, l, m, Extend(l, LetVars(k.sy, p, ty, v, s)), Extend(m, LetVars(k.sy, p, ty, w, t)))
  {
    LetValuesAgree(k, p, ty, v, w, s, t);
    var a, b := LetValue(k.sy, p, ty, v, s), LetValue(k.sy, p, ty, w, t);
    if a.Done? { PatternsAgree(a.value, b.value, p); }
  }

  lemma LetValuesAgree<S(!new)>(k: Setting<S>, p: Pattern, ty: Option<Type>, v: Option<Value>, w: Option<Value>, s: S, t: S)
    requires Congruent(k) && k.rel(s, t) && v.Some? == w.Some? && (v.Some? ==> VRel(v.value, w.value))
    ensures ResRel(k, LetValue(k.sy, p, ty, v, s), LetValue(k.sy, p, ty, w, t))
  {
    assert CongruentAt(k, s, t);
    if v.Some? { assert v == Some(v.value) && w == Some(w.value); }
  }

  /** Related functions give related results on related arguments, with any amount of fuel. */
  lemma ClosuresAgree<S(!new)>(fuel: nat, k: Setting<S>, f: Value, g: Value, vs: seq<Value>, ws: seq<Value>, s: S, t: S)
    requires Congruent(k) && k.rel(s, t) && VRel(f, g) && VRelAll(vs, ws)
    ensures ResRel(k, Apply(fuel, k.sy, f, vs, s), Apply(fuel, k.sy, g, ws, t))
  {
    CalleesAgree(k, f, g, vs, ws, s, t);
    var a, b := Prepare(k.sy, f, vs, s), Prepare(k.sy, g, ws, t);
    if a.Enter? && fuel > 0 { ExpressionsAgree(fuel - 1, k, a.body, b.body, a.env, b.env, a.targs, s, t); }
  }
}
