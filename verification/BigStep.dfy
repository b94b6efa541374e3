/** A recursive, fuel-indexed semantics of the constraint language. Fuel is spent on function calls
    only; running out of it is a result of its own. */
module BigStep {
  import opened Congruence
  import opened Options
  import opened Types
  import opened PilLang

  /** The evaluator's view of the symbol table. Its operations may change the symbol state `S`, which
      holds in particular the constraints and columns created so far. */
  datatype GSymbols<!S, !C> = Symbols(
    p: Modulus,
    lib: IntLib,
    builtins: set<string>,
    lookup: (S, string, Option<seq<Type>>) -> Outcome<(GValue<C>, S)>,
    publicRef: (S, string) -> Outcome<GValue<C>>,
    newColumn: (S, string, Option<Type>, Option<GValue<C>>) -> Outcome<(GValue<C>, S)>,
    addProofItems: (S, GValue<C>) -> Outcome<S>,
    builtin: (S, string, seq<GValue<C>>) -> Outcome<(GValue<C>, S)>)

  type Symbols<!S> = GSymbols<S, Code>

  datatype Res<+T, +S> = OutOfFuel | Done(value: T, sym: S) | Fail(error: Error)

  function Lift<T, S>(o: Outcome<T>, s: S): Res<T, S> {
    match o
    case Ok(v) => Done(v, s)
    case Err(e) => Fail(e)
  }

  function LiftPair<T, S>(o: Outcome<(T, S)>): Res<T, S> {
    match o
    case Ok((v, s)) => Done(v, s)
    case Err(e) => Fail(e)
  }

  // ----- pieces shared with the stack machine -----

  /** Leaf expressions. */
  predicate IsLeaf(e: PExpr) {
    e.LocalVar? || e.Global? || e.PublicRef? || e.Number? || e.Str? || e.Lambda? || e.FreeInput?
  }

  function SubstTypeArgs(targs: map<string, Type>, ts: Option<seq<Type>>): Option<seq<Type>> {
    if ts.None? then None else Some(SubstituteAll(targs, ts.value))
  }

  function EvalLeaf<S>(sy: Symbols<S>, e: PExpr, locals: seq<Value>, targs: map<string, Type>, s: S): Res<Value, S>
    requires IsLeaf(e)
  {
    match e
    case LocalVar(i) => if i < |locals| then Done(locals[i], s) else Fail(Panic)
    case Global(n, ts) =>
      if n in sy.builtins then Done(VBuiltin(n), s) else LiftPair(sy.lookup(s, n, SubstTypeArgs(targs, ts)))
    case PublicRef(n) => Lift(sy.publicRef(s, n), s)
    case Number(n, ty) => Lift(Literal(sy.p, n, ty, targs), s)
    case Str(x) => Done(VStr(x), s)
    case Lambda(ps, body) => Done(VClosure(Code(ps, body, targs), locals), s)
    case FreeInput => Fail(Unsupported)
  }

  /** Let statements without a value, or of column type, create a column. */
  predicate CreatesColumn(ty: Option<Type>, hasValue: bool) {
    || !hasValue
    || (ty.Some? && (ty.value.Column? || ty.value.Inter?))
    || (ty.Some? && ty.value.Array? && (ty.value.base.Column? || ty.value.base.Inter?))
  }

  function LetValue<S, C>(sy: GSymbols<S, C>, pattern: Pattern, ty: Option<Type>, v: Option<GValue<C>>, s: S): Res<GValue<C>, S> {
    if CreatesColumn(ty, v.Some?) then
      if !pattern.VariableP? then Fail(Panic)
      else LiftPair(sy.newColumn(s, pattern.name, ty, v))
    else Done(v.value, s)
  }

  /** The values a let statement adds to the local variables. */
  function LetVars<S, C>(sy: GSymbols<S, C>, pattern: Pattern, ty: Option<Type>, v: Option<GValue<C>>, s: S): Res<seq<GValue<C>>, S> {
    match LetValue(sy, pattern, ty, v, s)
    case OutOfFuel => OutOfFuel
    case Fail(e) => Fail(e)
    case Done(x, s') =>
      var m := MatchPattern(x, pattern);
      if m.Matched? then Done(m.vars, s') else Fail(Panic)
  }

  function ProofItem<S, C(==)>(sy: GSymbols<S, C>, v: GValue<C>, s: S): Outcome<S> {
    if v == VTuple([]) then Ok(s) else sy.addProofItems(s, v)
  }

  /** What calling a function value leads to: a result right away, or a body to be entered. */
  datatype Callee<+S> = Immediate(r: Res<Value, S>) | Enter(body: PExpr, env: seq<Value>, targs: map<string, Type>)

  function Prepare<S>(sy: Symbols<S>, f: Value, args: seq<Value>, s: S): Callee<S> {
    match f
    case VBuiltin(n) => Immediate(LiftPair(sy.builtin(s, n, args)))
    case VConstructor(en, variant) => Immediate(Done(VEnum(en, variant, Data(args)), s))
    case VClosure(Code(ps, body, ta), env) =>
      if |ps| != |args| then Immediate(Fail(Panic))
      else
        (match BindParams(args, ps)
         case Err(x) => Immediate(Fail(x))
         case Ok(vars) => Enter(body, env + vars, ta))
    case _ => Immediate(Fail(Panic))
  }

  // ----- the recursive evaluator -----

  function Eval<S>(fuel: nat, sy: Symbols<S>, e: PExpr, locals: seq<Value>, targs: map<string, Type>, s: S): Res<Value, S>
    decreases fuel, e, 1
  {
    if IsLeaf(e) then EvalLeaf(sy, e, locals, targs, s)
    else match e
      case TupleE(items) =>
        (match EvalList(fuel, sy, items, locals, targs, s)
         case OutOfFuel => OutOfFuel
         case Fail(x) => Fail(x)
         case Done(vs, s') => Done(VTuple(vs), s'))
      case ArrayE(items) =>
        (match EvalList(fuel, sy, items, locals, targs, s)
         case OutOfFuel => OutOfFuel
         case Fail(x) => Fail(x)
         case Done(vs, s') => Done(VArray(vs), s'))
      case Binary(op, l, r) =>
        (match Eval(fuel, sy, l, locals, targs, s)
         case OutOfFuel => OutOfFuel
         case Fail(x) => Fail(x)
         case Done(a, s1) =>
           match Eval(fuel, sy, r, locals, targs, s1)
           case OutOfFuel => OutOfFuel
           case Fail(x) => Fail(x)
           case Done(b, s2) => Lift(BinaryOp(sy.p, sy.lib, a, op, b), s2))
      case Unary(op, a) =>
        (match Eval(fuel, sy, a, locals, targs, s)
         case OutOfFuel => OutOfFuel
         case Fail(x) => Fail(x)
         case Done(v, s1) => Lift(UnaryOp(sy.p, op, v), s1))
      case IndexE(a, i) =>
        (match Eval(fuel, sy, a, locals, targs, s)
         case OutOfFuel => OutOfFuel
         case Fail(x) => Fail(x)
         case Done(v, s1) =>
           match Eval(fuel, sy, i, locals, targs, s1)
           case OutOfFuel => OutOfFuel
           case Fail(x) => Fail(x)
           case Done(j, s2) => Lift(IndexOp(v, j), s2))
      case Call(f, args) =>
        (match Eval(fuel, sy, f, locals, targs, s)
         case OutOfFuel => OutOfFuel
         case Fail(x) => Fail(x)
         case Done(fv, s1) =>
           match EvalList(fuel, sy, args, locals, targs, s1)
           case OutOfFuel => OutOfFuel
           case Fail(x) => Fail(x)
           case Done(vs, s2) =>
             match Prepare(sy, fv, vs, s2)
             case Immediate(r) => r
             case Enter(body, env, ta) => if fuel == 0 then OutOfFuel else Eval(fuel - 1, sy, body, env, ta, s2))
      case MatchE(sc, arms) =>
        (match Eval(fuel, sy, sc, locals, targs, s)
         case OutOfFuel => OutOfFuel
         case Fail(x) => Fail(x)
         case Done(v, s1) =>
           match FindArm(v, arms)
           case Err(x) => Fail(x)
           case Ok(sel) => Eval(fuel, sy, arms[sel.arm].value, locals + sel.vars, targs, s1))
      case IfE(c, t, f) =>
        (match Eval(fuel, sy, c, locals, targs, s)
         case OutOfFuel => OutOfFuel
         case Fail(x) => Fail(x)
         case Done(v, s1) =>
           if !v.VBool? then Fail(TypeError)
           else Eval(fuel, sy, if v.b then t else f, locals, targs, s1))
      case Block(stmts, result) =>
        match EvalStmts(fuel, sy, stmts, locals, targs, s)
        case OutOfFuel => OutOfFuel
        case Fail(x) => Fail(x)
        case Done(locals', s1) =>
          if result.None? then Done(EMPTY_TUPLE, s1) else Eval(fuel, sy, result.value, locals', targs, s1)
  }

  /** Evaluates expressions from left to right. */
  function EvalList<S>(fuel: nat, sy: Symbols<S>, es: seq<PExpr>, locals: seq<Value>, targs: map<string, Type>, s: S): (r: Res<seq<Value>, S>)
    ensures r.Done? ==> |r.value| == |es|
    decreases fuel, es, 0
  {
    if es == [] then Done([], s)
    else match Eval(fuel, sy, es[0], locals, targs, s)
      case OutOfFuel => OutOfFuel
      case Fail(x) => Fail(x)
      case Done(v, s1) =>
        match EvalList(fuel, sy, es[1..], locals, targs, s1)
        case OutOfFuel => OutOfFuel
        case Fail(x) => Fail(x)
        case Done(vs, s2) => Done([v] + vs, s2)
  }

  /** Runs the statements of a block and returns the extended local variables. */
  function EvalStmts<S>(fuel: nat, sy: Symbols<S>, stmts: seq<Stmt>, locals: seq<Value>, targs: map<string, Type>, s: S): Res<seq<Value>, S>
    decreases fuel, stmts, 0
  {
    if stmts == [] then Done(locals, s)
    else match EvalStmt(fuel, sy, stmts[0], locals, targs, s)
      case OutOfFuel => OutOfFuel
      case Fail(x) => Fail(x)
      case Done(locals', s1) => EvalStmts(fuel, sy, stmts[1..], locals', targs, s1)
  }

  function EvalStmt<S>(fuel: nat, sy: Symbols<S>, st: Stmt, locals: seq<Value>, targs: map<string, Type>, s: S): Res<seq<Value>, S>
    decreases fuel, st, 0
  {
    match st
    case Do(e) =>
      (match Eval(fuel, sy, e, locals, targs, s)
       case OutOfFuel => OutOfFuel
       case Fail(x) => Fail(x)
       case Done(v, s1) =>
         match ProofItem(sy, v, s1)
         case Err(x) => Fail(x)
         case Ok(s2) => Done(locals, s2))
    case Let(_, _, None) => Extend(locals, LetVars(sy, st.pattern, st.ty, None, s))
    case Let(_, _, Some(e)) =>
      match Eval(fuel, sy, e, locals, targs, s)
      case OutOfFuel => OutOfFuel
      case Fail(x) => Fail(x)
      case Done(v, s1) => Extend(locals, LetVars(sy, st.pattern, st.ty, Some(v), s1))
  }

  function Extend<S, T>(locals: seq<T>, r: Res<seq<T>, S>): Res<seq<T>, S> {
    if r.Done? then Done(locals + r.value, r.sym) else r
  }

  /** Applies a function value. */
  function Apply<S>(fuel: nat, sy: Symbols<S>, f: Value, args: seq<Value>, s: S): Res<Value, S> {
    match Prepare(sy, f, args, s)
    case Immediate(r) => r
    case Enter(body, env, ta) => if fuel == 0 then OutOfFuel else Eval(fuel - 1, sy, body, env, ta, s)
  }
}
