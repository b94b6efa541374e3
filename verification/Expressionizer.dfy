/** Turning runtime values back into source expressions. */
module Expressionizer {
  import opened Congruence
  import opened Options
  import opened Types
  import opened PilLang
  import opened PolyIds

  // ----- local variable references -----

  /** Replaces the ids of all local variable references. */
  function Rename(f: nat -> nat, e: PExpr): PExpr
    decreases e
  {
    match e
    case LocalVar(i) => LocalVar(f(i))
    case TupleE(items) => TupleE(RenameAll(f, items))
    case ArrayE(items) => ArrayE(RenameAll(f, items))
    case Binary(op, l, r) => Binary(op, Rename(f, l), Rename(f, r))
    case Unary(op, x) => Unary(op, Rename(f, x))
    case Lambda(ps, b) => Lambda(ps, Rename(f, b))
    case IndexE(x, y) => IndexE(Rename(f, x), Rename(f, y))
    case Call(g, args) => Call(Rename(f, g), RenameAll(f, args))
    case MatchE(x, arms) => MatchE(Rename(f, x), RenameArms(f, arms))
    case IfE(x, y, z) => IfE(Rename(f, x), Rename(f, y), Rename(f, z))
    case Block(stmts, None) => Block(RenameStmts(f, stmts), None)
    case Block(stmts, Some(r)) => Block(RenameStmts(f, stmts), Some(Rename(f, r)))
    case _ => e
  }

  function RenameAll(f: nat -> nat, es: seq<PExpr>): (r: seq<PExpr>)
    ensures |r| == |es| && forall i :: 0 <= i < |es| ==> r[i] == Rename(f, es[i])
    decreases es
  {
    if es == [] then [] else [Rename(f, es[0])] + RenameAll(f, es[1..])
  }

  function RenameArm(f: nat -> nat, a: Arm): Arm
    decreases a
  {
    Arm(a.pattern, Rename(f, a.value))
  }

  function RenameArms(f: nat -> nat, arms: seq<Arm>): (r: seq<Arm>)
    ensures |r| == |arms| && forall i :: 0 <= i < |arms| ==> r[i] == RenameArm(f, arms[i])
    decreases arms
  {
    if arms == [] then [] else [RenameArm(f, arms[0])] + RenameArms(f, arms[1..])
  }

  function RenameStmt(f: nat -> nat, s: Stmt): Stmt
    decreases s
  {
    match s
    case Do(e) => Do(Rename(f, e))
    case Let(p, ty, None) => s
    case Let(p, ty, Some(v)) => Let(p, ty, Some(Rename(f, v)))
  }

  function RenameStmts(f: nat -> nat, stmts: seq<Stmt>): (r: seq<Stmt>)
    ensures |r| == |stmts| && forall i :: 0 <= i < |stmts| ==> r[i] == RenameStmt(f, stmts[i])
    decreases stmts
  {
    if stmts == [] then [] else [RenameStmt(f, stmts[0])] + RenameStmts(f, stmts[1..])
  }

  /** The local variable with id `i` is referenced somewhere in `e`. */
  predicate Occurs(i: nat, e: PExpr)
    decreases e
  {
    match e
    case LocalVar(j) => i == j
    case TupleE(items) => exists x :: x in items && Occurs(i, x)
    case ArrayE(items) => exists x :: x in items && Occurs(i, x)
    case Binary(_, l, r) => Occurs(i, l) || Occurs(i, r)
    case Unary(_, x) => Occurs(i, x)
    case Lambda(_, b) => Occurs(i, b)
    case IndexE(x, y) => Occurs(i, x) || Occurs(i, y)
    case Call(g, args) => Occurs(i, g) || exists x :: x in args && Occurs(i, x)
    case MatchE(x, arms) => Occurs(i, x) || exists a :: a in arms && OccursArm(i, a)
    case IfE(x, y, z) => Occurs(i, x) || Occurs(i, y) || Occurs(i, z)
    case Block(stmts, r) => (exists s :: s in stmts && OccursStmt(i, s)) || (r.Some? && Occurs(i, r.value))
    case _ => false
  }

  predicate OccursArm(i: nat, a: Arm)
    decreases a
  {
    Occurs(i, a.value)
  }

  predicate OccursStmt(i: nat, s: Stmt)
    decreases s
  {
    match s
    case Do(e) => Occurs(i, e)
    case Let(_, _, v) => v.Some? && Occurs(i, v.value)
  }

  /** Adds `k` to the ids of all local variable references. */
  function Shift(e: PExpr, k: nat): PExpr { Rename((i: nat) => i + k, e) }

  /** The variables below `n` that `body` references, in ascending order. */
  function Captured(body: PExpr, n: nat): (ids: seq<nat>)
    ensures forall i :: 0 <= i < |ids| ==> ids[i] < n && Occurs(ids[i], body)
  {
    if n == 0 then [] else Captured(body, n - 1) + if Occurs(n - 1, body) then [n - 1] else []
  }

  /** The new id of a variable: captured variables are numbered from zero in their old order, and the
      closure's own variables follow. */
  function NewId(body: PExpr, n: nat, i: nat): nat {
    if i >= n then i - n + |Captured(body, n)| else |Captured(body, i)|
  }

  function ConvertBody(body: PExpr, n: nat): PExpr { Rename((i: nat) => NewId(body, n, i), body) }

  // ----- values -----

  const LET_NAME := "captured"

  /** An expression with the given value, if there is one. */
  ghost function ToExpr(p: Modulus, table: Table, v: Value): Outcome<PExpr>
    decreases v
  {
    match v
    case VInt(n) => Ok(if n < 0 then Unary(Minus, Number(0 - n, Some(Int))) else Number(n, Some(Int)))
    case VFe(n) => Ok(Number(Rep(p, n), Some(Fe)))
    case VStr(s) => Ok(Str(s))
    case VBool(b) => Ok(Global(if b then "std::prelude::true" else "std::prelude::false", None))
    case VTuple(items) =>
      var r := ToExprs(p, table, items);
      if r.Err? then Err(r.error) else Ok(TupleE(r.value))
    case VArray(items) =>
      var r := ToExprs(p, table, items);
      if r.Err? then Err(r.error) else Ok(ArrayE(r.value))
    case VClosure(c, env) =>
      if c.typeArgs != map[] then Err(TypeError)
      else
        var ids := Captured(c.body, |env|);
        var r := LetStmts(p, table, env, ids, 0);
        var lambda := Lambda(c.params, ConvertBody(c.body, |env|));
        if r.Err? then Err(r.error)
        else if r.value == [] then Ok(lambda)
        else Ok(Block(r.value, Some(lambda)))
    case VConstructor(_, _) => Err(TypeError)
    case VEnum(e, x, NoData) => Ok(Global(VariantName(e, x), None))
    case VEnum(e, x, Data(items)) =>
      var r := ToExprs(p, table, items);
      if r.Err? then Err(r.error) else Ok(Call(Global(VariantName(e, x), None), r.value))
    case VBuiltin(_) => Err(TypeError)
    case VExpr(a) => AlgToExpr(p, table, a)
  }

  ghost function ToExprs(p: Modulus, table: Table, vs: seq<Value>): (r: Outcome<seq<PExpr>>)
    ensures r.Ok? ==> |r.value| == |vs|
    decreases vs
  {
    if vs == [] then Ok([])
    else
      var h := ToExpr(p, table, vs[0]);
      var t := ToExprs(p, table, vs[1..]);
      if h.Err? then Err(h.error) else if t.Err? then Err(t.error) else Ok([h.value] + t.value)
  }

  /** Let statements for the captured variables from the `k`-th on. A value converts to an expression
      for a fresh environment, so its references are shifted past the statements before it. */
  ghost function LetStmts(p: Modulus, table: Table, env: seq<Value>, ids: seq<nat>, k: nat): (r: Outcome<seq<Stmt>>)
    requires k <= |ids| && forall i :: 0 <= i < |ids| ==> ids[i] < |env|
    ensures r.Ok? ==> |r.value| == |ids| - k
    decreases env, |ids| - k
  {
    if k == |ids| then Ok([])
    else
      var h := ToExpr(p, table, env[ids[k]]);
      var t := LetStmts(p, table, env, ids, k + 1);
      if h.Err? then Err(h.error)
      else if t.Err? then Err(t.error)
      else Ok([Let(VariableP(LET_NAME), None, Some(Shift(h.value, k)))] + t.value)
  }

  function VariantName(e: string, x: string): string { e + "::" + x }

  /** The path of a variant is that of its enum, followed by the name of the variant. */
  lemma VariantPath(e: string, x: string)
    ensures e <= VariantName(e, x) && VariantName(e, x)[|e|..] == "::" + x
  {
  }

  // ----- algebraic expressions -----

  ghost function AlgToExpr(p: Modulus, table: Table, a: Alg): Outcome<PExpr> {
    match a
    case AlgRef(name, t, id, next) =>
      var r := RefToExpr(table, name, t, id);
      if r.Err? || !next then r else Ok(Unary(NextOp, r.value))
    case AlgBin(op, l, r) =>
      var x := AlgToExpr(p, table, l);
      var y := AlgToExpr(p, table, r);
      if x.Err? then x else if y.Err? then y else Ok(Binary(op, x.value, y.value))
    case AlgNeg(e) =>
      var x := AlgToExpr(p, table, e);
      if x.Err? then x else Ok(Unary(Minus, x.value))
    case AlgChallenge(id, stage) => Ok(Call(Global("std::prelude::challenge", None), [Number(stage, None), Number(id, None)]))
    case AlgNum(n) => Ok(Number(Rep(p, n), Some(Expression)))
    case AlgPublic(name) => Ok(PublicRef(name))
  }

  /** A column is referred to by its name, an element of a column array by the name of the array and an index. */
  ghost function RefToExpr(table: Table, name: string, t: PolyType, id: nat): Outcome<PExpr> {
    var key := Floor(table, (t, id));
    if key.None? then Err(Panic)
    else
      var (_, start) := key.value;
      if start == id && table[key.value] == name then Ok(Global(name, None))
      else if id < start then Err(Panic)
      else Ok(IndexE(Global(table[key.value], None), Number(id - start, Some(Int))))
  }
}
