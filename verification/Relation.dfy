/** Values that are equal up to the numbering of captured variables. Two closures are related if
    their bodies differ only in the ids of local variables, and corresponding ids either refer to
    related captured values or are both bound at the same depth inside the closure. */
module Relation {
  import opened Options
  import opened Types
  import opened PilLang

  ghost predicate VRel(v: Value, w: Value)
    decreases v
  {
    match v
    case VTuple(items) => w.VTuple? && VRelAll(items, w.items)
    case VArray(items) => w.VArray? && VRelAll(items, w.items)
    case VEnum(e, x, Data(items)) =>
      w.VEnum? && w.enumName == e && w.variant == x && w.data.Data? && VRelAll(items, w.data.items)
    case VClosure(c, env) =>
      w.VClosure? && w.code.params == c.params && w.code.typeArgs == c.typeArgs && ERel(env, w.env, c.body, w.code.body)
    case _ => v == w
  }

  ghost predicate VRelAll(vs: seq<Value>, ws: seq<Value>)
    decreases vs
  {
    |vs| == |ws| && forall i :: 0 <= i < |vs| ==> VRel(vs[i], ws[i])
  }

  /** `e` over the locals `l` and `d` over the locals `m` differ only in the ids of related locals. */
  ghost predicate ERel(l: seq<Value>, m: seq<Value>, e: PExpr, d: PExpr)
    decreases l, e
  {
    match e
    case LocalVar(i) => d.LocalVar? && (if i < |l| then d.id < |m| && VRel(l[i], m[d.id]) else i - |l| == d.id - |m|)
    case TupleE(items) =>
      d.TupleE? && |d.items| == |items| && forall i :: 0 <= i < |items| ==> ERel(l, m, items[i], d.items[i])
    case ArrayE(items) =>
      d.ArrayE? && |d.items| == |items| && forall i :: 0 <= i < |items| ==> ERel(l, m, items[i], d.items[i])
    case Binary(op, x, y) => d.Binary? && d.op == op && ERel(l, m, x, d.l) && ERel(l, m, y, d.r)
    case Unary(op, x) => d.Unary? && d.uop == op && ERel(l, m, x, d.e)
    case Lambda(ps, b) => d.Lambda? && d.params == ps && ERel(l, m, b, d.body)
    case IndexE(x, y) => d.IndexE? && ERel(l, m, x, d.arr) && ERel(l, m, y, d.index)
    case Call(f, args) =>
      d.Call? && ERel(l, m, f, d.f) && |d.args| == |args| && forall i :: 0 <= i < |args| ==> ERel(l, m, args[i], d.args[i])
    case MatchE(x, arms) =>
      && d.MatchE? && ERel(l, m, x, d.scrutinee) && |d.arms| == |arms|
      && forall i :: 0 <= i < |arms| ==> d.arms[i].pattern == arms[i].pattern && ERel(l, m, arms[i].value, d.arms[i].value)
    case IfE(x, y, z) => d.IfE? && ERel(l, m, x, d.cond) && ERel(l, m, y, d.thn) && ERel(l, m, z, d.els)
    case Block(stmts, r) =>
      && d.Block? && |d.stmts| == |stmts| && (forall i :: 0 <= i < |stmts| ==> SRel(l, m, stmts[i], d.stmts[i]))
      && d.result.Some? == r.Some? && (r.Some? ==> ERel(l, m, r.value, d.result.value))
    case _ => e == d
  }

  ghost predicate SRel(l: seq<Value>, m: seq<Value>, s: Stmt, t: Stmt)
    decreases l, s
  {
    match s
    case Do(e) => t.Do? && ERel(l, m, e, t.e)
    case Let(p, ty, v) =>
      t.Let? && t.pattern == p && t.ty == ty && t.value.Some? == v.Some? && (v.Some? ==> ERel(l, m, v.value, t.value.value))
  }

  /** Level `i` over the locals `l` and level `j` over the locals `m` mean the same. */
  ghost predicate LevelRel(l: seq<Value>, m: seq<Value>, i: nat, j: nat)
  {
    if i < |l| then j < |m| && VRel(l[i], m[j]) else i - |l| == j - |m|
  }

  // ----- the relation survives new local variables -----

  lemma {:induction false} Extended(l: seq<Value>, m: seq<Value>, x: seq<Value>, y: seq<Value>, e: PExpr, d: PExpr)
    requires ERel(l, m, e, d) && VRelAll(x, y)
    ensures ERel(l + x, m + y, e, d)
    decreases e
  {
    match e
    case TupleE(items) =>
      forall i | 0 <= i < |items| ensures ERel(l + x, m + y, items[i], d.items[i]) { Extended(l, m, x, y, items[i], d.items[i]); }
    case ArrayE(items) =>
      forall i | 0 <= i < |items| ensures ERel(l + x, m + y, items[i], d.items[i]) { Extended(l, m, x, y, items[i], d.items[i]); }
    case Binary(_, a, b) => Extended(l, m, x, y, a, d.l); Extended(l, m, x, y, b, d.r);
    case Unary(_, a) => Extended(l, m, x, y, a, d.e);
    case Lambda(_, b) => Extended(l, m, x, y, b, d.body);
    case IndexE(a, b) => Extended(l, m, x, y, a, d.arr); Extended(l, m, x, y, b, d.index);
    case Call(f, args) =>
      Extended(l, m, x, y, f, d.f);
      forall i | 0 <= i < |args| ensures ERel(l + x, m + y, args[i], d.args[i]) { Extended(l, m, x, y, args[i], d.args[i]); }
    case MatchE(a, arms) =>
      Extended(l, m, x, y, a, d.scrutinee);
      forall i | 0 <= i < |arms| ensures ERel(l + x, m + y, arms[i].value, d.arms[i].value) {
        Extended(l, m, x, y, arms[i].value, d.arms[i].value);
      }
    case IfE(a, b, c) => Extended(l, m, x, y, a, d.cond); Extended(l, m, x, y, b, d.thn); Extended(l, m, x, y, c, d.els);
    case Block(stmts, r) =>
      forall i | 0 <= i < |stmts| ensures SRel(l + x, m + y, stmts[i], d.stmts[i]) { ExtendedStmt(l, m, x, y, stmts[i], d.stmts[i]); }
      if r.Some? { Extended(l, m, x, y, r.value, d.result.value); }
    case _ =>
  }

  lemma {:induction false} ExtendedStmt(l: seq<Value>, m: seq<Value>, x: seq<Value>, y: seq<Value>, s: Stmt, t: Stmt)
    requires SRel(l, m, s, t) && VRelAll(x, y)
    ensures SRel(l + x, m + y, s, t)
    decreases s
  {
    match s
    case Do(e) => Extended(l, m, x, y, e, t.e);
    case Let(_, _, v) => if v.Some? { Extended(l, m, x, y, v.value, t.value.value); }
  }

  // ----- every value is related to itself -----

  lemma {:induction false} Reflexive(v: Value)
    ensures VRel(v, v)
    decreases v
  {
    match v
    case VTuple(items) => ReflexiveAll(items);
    case VArray(items) => ReflexiveAll(items);
    case VEnum(_, _, Data(items)) => ReflexiveAll(items);
    case VClosure(c, env) => ReflexiveExpr(env, c.body);
    case _ =>
  }

  lemma {:induction false} ReflexiveAll(vs: seq<Value>)
    ensures VRelAll(vs, vs)
    decreases vs
  {
    forall i | 0 <= i < |vs| ensures VRel(vs[i], vs[i]) { Reflexive(vs[i]); }
  }

  lemma {:induction false} ReflexiveExpr(l: seq<Value>, e: PExpr)
    ensures ERel(l, l, e, e)
    decreases l, e
  {
    match e
    case LocalVar(i) => if i < |l| { Reflexive(l[i]); }
    case TupleE(items) => forall i | 0 <= i < |items| ensures ERel(l, l, items[i], items[i]) { ReflexiveExpr(l, items[i]); }
    case ArrayE(items) => forall i | 0 <= i < |items| ensures ERel(l, l, items[i], items[i]) { ReflexiveExpr(l, items[i]); }
    case Binary(_, x, y) => ReflexiveExpr(l, x); ReflexiveExpr(l, y);
    case Unary(_, x) => ReflexiveExpr(l, x);
    case Lambda(_, b) => ReflexiveExpr(l, b);
    case IndexE(x, y) => ReflexiveExpr(l, x); ReflexiveExpr(l, y);
    case Call(f, args) =>
      ReflexiveExpr(l, f);
      forall i | 0 <= i < |args| ensures ERel(l, l, args[i], args[i]) { ReflexiveExpr(l, args[i]); }
    case MatchE(x, arms) =>
      ReflexiveExpr(l, x);
      forall i | 0 <= i < |arms| ensures ERel(l, l, arms[i].value, arms[i].value) { ReflexiveExpr(l, arms[i].value); }
    case IfE(x, y, z) => ReflexiveExpr(l, x); ReflexiveExpr(l, y); ReflexiveExpr(l, z);
    case Block(stmts, r) =>
      forall i | 0 <= i < |stmts| ensures SRel(l, l, stmts[i], stmts[i]) { ReflexiveStmt(l, stmts[i]); }
      if r.Some? { ReflexiveExpr(l, r.value); }
    case _ =>
  }

  lemma {:induction false} ReflexiveStmt(l: seq<Value>, s: Stmt)
    ensures SRel(l, l, s, s)
    decreases l, s
  {
    match s
    case Do(e) => ReflexiveExpr(l, e);
    case Let(_, _, v) => if v.Some? { ReflexiveExpr(l, v.value); }
  }

  // ----- values without functions -----

  /** There is no closure in the value. */
  predicate FirstOrder(v: Value)
    decreases v
  {
    match v
    case VTuple(items) => forall x :: x in items ==> FirstOrder(x)
    case VArray(items) => forall x :: x in items ==> FirstOrder(x)
    case VEnum(_, _, Data(items)) => forall x :: x in items ==> FirstOrder(x)
    case VClosure(_, _) => false
    case _ => true
  }

  /** Values without functions are related only to themselves. */
  lemma {:induction false} RelatedIsEqual(v: Value, w: Value)
    requires FirstOrder(v)
    ensures VRel(v, w) <==> v == w
    decreases v
  {
    if v == w { Reflexive(v); }
    match v
    case VTuple(items) => if VRel(v, w) { RelatedAreEqual(items, w.items); }
    case VArray(items) => if VRel(v, w) { RelatedAreEqual(items, w.items); }
    case VEnum(_, _, Data(items)) => if VRel(v, w) { RelatedAreEqual(items, w.data.items); }
    case _ =>
  }

  lemma {:induction false} RelatedAreEqual(vs: seq<Value>, ws: seq<Value>)
    requires VRelAll(vs, ws) && forall x :: x in vs ==> FirstOrder(x)
    ensures vs == ws
    decreases vs
  {
    forall i | 0 <= i < |vs| ensures vs[i] == ws[i] { RelatedIsEqual(vs[i], ws[i]); }
  }
}
