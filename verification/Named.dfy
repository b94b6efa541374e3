/** Source expressions with named variables: the name resolver, and a reference semantics that looks
    variables up by name. */
module Named {
  import opened Congruence
  import opened Options
  import opened Types
  import opened PilLang
  import opened BigStep

  datatype NExpr =
    | NRef(path: string, typeArgs: Option<seq<Type>>)
    | NPublicRef(name: string)
    | NNumber(n: nat, ty: Option<Type>)
    | NStr(s: string)
    | NTuple(items: seq<NExpr>)
    | NArray(items: seq<NExpr>)
    | NBinary(op: BinOp, l: NExpr, r: NExpr)
    | NUnary(uop: UnOp, e: NExpr)
    | NLambda(params: seq<Pattern>, body: NExpr)
    | NIndex(arr: NExpr, index: NExpr)
    | NCall(f: NExpr, args: seq<NExpr>)
    | NMatch(scrutinee: NExpr, arms: seq<NArm>)
    | NIf(cond: NExpr, thn: NExpr, els: NExpr)
    | NBlock(stmts: seq<NStmt>, result: Option<NExpr>)
    | NFreeInput

  datatype NArm = NArm(pattern: Pattern, value: NExpr)

  datatype NStmt =
    | NLet(pattern: Pattern, ty: Option<Type>, value: Option<NExpr>)
    | NDo(e: NExpr)

  /** Access to module-level symbols. In source patterns the `variant` of an enum pattern is a path. */
  datatype Driver = Driver(
    constructorVariant: string -> Option<string>,   // variant name, if the path names a type constructor
    valueVariant: string -> Option<string>,         // variant name of a path with fields, if it resolves
    isIdentifier: string -> bool,
    resolveValue: string -> Option<string>)

  // ----- patterns -----

  /** Enum patterns that are a single identifier and do not name a variant are variables. */
  function ProcessPattern(d: Driver, names: seq<string>, p: Pattern): Option<(Pattern, seq<string>)>
    decreases p
  {
    match p
    case CatchAll | Ellipsis | NumberP(_) | StringP(_) => Some((p, names))
    case ArrayP(items) =>
      if EllipsisCount(items) > 1 then None
      else
        var r := ProcessPatterns(d, names, items);
        if r.None? then None else Some((ArrayP(r.value.0), r.value.1))
    case TupleP(items) =>
      var r := ProcessPatterns(d, names, items);
      if r.None? then None else Some((TupleP(r.value.0), r.value.1))
    case VariableP(x) => ProcessVariable(names, x)
    case EnumP(path, NoFields) =>
      if d.constructorVariant(path).Some? then Some((EnumP(d.constructorVariant(path).value, NoFields), names))
      else if d.isIdentifier(path) then ProcessVariable(names, path)
      else None
    case EnumP(path, Fields(fs)) =>
      if d.valueVariant(path).None? then None
      else
        var r := ProcessPatterns(d, names, fs);
        if r.None? then None else Some((EnumP(d.valueVariant(path).value, Fields(r.value.0)), r.value.1))
  }

  function ProcessPatterns(d: Driver, names: seq<string>, ps: seq<Pattern>): (r: Option<(seq<Pattern>, seq<string>)>)
    ensures r.Some? ==> |r.value.0| == |ps|
    decreases ps
  {
    if ps == [] then Some(([], names))
    else
      var h := ProcessPattern(d, names, ps[0]);
      if h.None? then None
      else
        var t := ProcessPatterns(d, h.value.1, ps[1..]);
        if t.None? then None else Some(([h.value.0] + t.value.0, t.value.1))
  }

  /** A variable gets the next level; redefinition is an error. */
  function ProcessVariable(names: seq<string>, x: string): Option<(Pattern, seq<string>)> {
    if x in names then None else Some((VariableP(x), names + [x]))
  }

  function EllipsisCount(ps: seq<Pattern>): nat {
    if ps == [] then 0 else (if ps[0].Ellipsis? then 1 else 0) + EllipsisCount(ps[1..])
  }

  predicate Irrefutable(p: Pattern) {
    match p
    case CatchAll => true
    case VariableP(_) => true
    case ArrayP(items) => |items| == 1 && items[0].Ellipsis?
    case TupleP(items) => forall q :: q in items ==> Irrefutable(q)
    case _ => false
  }

  // ----- the resolver -----

  function IndexOf(names: seq<string>, x: string): (i: nat)
    requires x in names
    ensures i < |names| && names[i] == x
  {
    if names[0] == x then 0 else 1 + IndexOf(names[1..], x)
  }

  /** Local names become level numbers; everything else is a module-level symbol. */
  function Process(d: Driver, names: seq<string>, e: NExpr): Option<PExpr>
    decreases e
  {
    match e
    case NRef(path, ts) =>
      if d.isIdentifier(path) && path in names then Some(LocalVar(IndexOf(names, path)))
      else if d.resolveValue(path).Some? then Some(Global(d.resolveValue(path).value, ts))
      else None
    case NPublicRef(n) => Some(PublicRef(n))
    case NNumber(n, ty) => Some(Number(n, ty))
    case NStr(s) => Some(Str(s))
    case NTuple(items) =>
      var r := ProcessAll(d, names, items);
      if r.None? then None else Some(TupleE(r.value))
    case NArray(items) =>
      var r := ProcessAll(d, names, items);
      if r.None? then None else Some(ArrayE(r.value))
    case NBinary(op, l, r) =>
      var a := Process(d, names, l);
      var b := Process(d, names, r);
      if a.None? || b.None? then None else Some(Binary(op, a.value, b.value))
    case NUnary(op, x) =>
      var a := Process(d, names, x);
      if a.None? then None else Some(Unary(op, a.value))
    case NLambda(ps, body) =>
      var q := ProcessPatterns(d, names, ps);
      if q.None? || (exists p :: p in q.value.0 && !Irrefutable(p)) then None
      else
        var b := Process(d, q.value.1, body);
        if b.None? then None else Some(Lambda(q.value.0, b.value))
    case NIndex(x, i) =>
      var a := Process(d, names, x);
      var b := Process(d, names, i);
      if a.None? || b.None? then None else Some(IndexE(a.value, b.value))
    case NCall(f, args) =>
      var a := Process(d, names, f);
      var r := ProcessAll(d, names, args);
      if a.None? || r.None? then None else Some(Call(a.value, r.value))
    case NMatch(sc, arms) =>
      var a := Process(d, names, sc);
      var r := ProcessArms(d, names, arms);
      if a.None? || r.None? then None else Some(MatchE(a.value, r.value))
    case NIf(c, t, f) =>
      var a := Process(d, names, c);
      var b := Process(d, names, t);
      var x := Process(d, names, f);
      if a.None? || b.None? || x.None? then None else Some(IfE(a.value, b.value, x.value))
    case NBlock(stmts, result) =>
      var q := ProcessStmts(d, names, stmts);
      if q.None? then None
      else if result.None? then Some(Block(q.value.0, None))
      else
        var b := Process(d, q.value.1, result.value);
        if b.None? then None else Some(Block(q.value.0, Some(b.value)))
    case NFreeInput => None
  }

  function ProcessAll(d: Driver, names: seq<string>, es: seq<NExpr>): (r: Option<seq<PExpr>>)
    ensures r.Some? ==> |r.value| == |es|
    decreases es
  {
    if es == [] then Some([])
    else
      var h := Process(d, names, es[0]);
      var t := ProcessAll(d, names, es[1..]);
      if h.None? || t.None? then None else Some([h.value] + t.value)
  }

  /** Every arm has its own scope. */
  function ProcessArm(d: Driver, names: seq<string>, a: NArm): Option<Arm>
    decreases a
  {
    var q := ProcessPattern(d, names, a.pattern);
    if q.None? then None
    else
      var v := Process(d, q.value.1, a.value);
      if v.None? then None else Some(Arm(q.value.0, v.value))
  }

  function ProcessArms(d: Driver, names: seq<string>, arms: seq<NArm>): (r: Option<seq<Arm>>)
    ensures r.Some? ==> |r.value| == |arms|
    decreases arms
  {
    if arms == [] then Some([])
    else
      var h := ProcessArm(d, names, arms[0]);
      var t := ProcessArms(d, names, arms[1..]);
      if h.None? || t.None? then None else Some([h.value] + t.value)
  }

  /** Statements extend the scope of the statements after them. */
  function ProcessStmts(d: Driver, names: seq<string>, stmts: seq<NStmt>): Option<(seq<Stmt>, seq<string>)>
    decreases stmts
  {
    if stmts == [] then Some(([], names))
    else
      var h := ProcessStmt(d, names, stmts[0]);
      if h.None? then None
      else
        var t := ProcessStmts(d, h.value.1, stmts[1..]);
        if t.None? then None else Some(([h.value.0] + t.value.0, t.value.1))
  }

  function ProcessStmt(d: Driver, names: seq<string>, st: NStmt): Option<(Stmt, seq<string>)>
    decreases st
  {
    match st
    case NDo(e) =>
      var a := Process(d, names, e);
      if a.None? then None else Some((Do(a.value), names))
    case NLet(p, ty, value) =>
      var v := if value.None? then None else Process(d, names, value.value);
      if value.Some? && v.None? then None
      else
        var q := ProcessPattern(d, names, p);
        if q.None? || (value.None? && !q.value.0.VariableP?) || !Irrefutable(q.value.0) then None
        else Some((Let(q.value.0, ty, v), q.value.1))
  }

  // ----- reference semantics with named variables -----

  /** Code whose free variables are looked up by name. */
  datatype NCode = NCode(params: seq<Pattern>, body: NExpr, names: seq<string>, typeArgs: map<string, Type>)

  type NValue = GValue<NCode>
  type NSymbols<!S> = GSymbols<S, NCode>

  /** An environment: names and their values, in the order of binding. */
  datatype Env = Env(names: seq<string>, vals: seq<NValue>)

  predicate Bound(env: Env, x: string) { x in env.names && |env.names| == |env.vals| }

  /** The innermost binding of a name. */
  function Lookup(env: Env, x: string): NValue
    requires Bound(env, x)
    decreases |env.names|
  {
    var n := |env.names| - 1;
    if env.names[n] == x then env.vals[n] else Lookup(Env(env.names[..n], env.vals[..n]), x)
  }

  datatype Bindings = Bindings(names: seq<string>, vals: seq<NValue>) | NoBindings | BindPanic

  function Join(b: Bindings, c: Bindings): Bindings {
    if b.Bindings? && c.Bindings? then Bindings(b.names + c.names, b.vals + c.vals)
    else if b.Bindings? then c else b
  }

  /** Matches a value against a source pattern and binds its variables by name. */
  function MatchNamed(d: Driver, v: NValue, p: Pattern): Bindings
    decreases p
  {
    match p
    case Ellipsis => BindPanic
    case CatchAll => Bindings([], [])
    case NumberP(n) => if (v.VInt? && v.n == n) || (v.VFe? && v.fe == n) then Bindings([], []) else NoBindings
    case StringP(s) => if v.VStr? && v.s == s then Bindings([], []) else NoBindings
    case VariableP(x) => Bindings([x], [v])
    case TupleP(items) => if v.VTuple? && |v.items| == |items| then MatchNamedAll(d, v.items, items) else BindPanic
    case ArrayP(items) =>
      if !v.VArray? then BindPanic
      else if EllipsisPos(items).None? then
        if |v.items| == |items| then MatchNamedAll(d, v.items, items) else NoBindings
      else if |v.items| < |items| - 1 then NoBindings
      else
        var pos := EllipsisPos(items).value;
        Join(MatchNamedAll(d, v.items[..pos], items[..pos]),
             MatchNamedAll(d, v.items[|v.items| - (|items| - pos - 1)..], items[pos + 1..]))
    case EnumP(path, fields) =>
      if fields.NoFields? && d.constructorVariant(path).None? then Bindings([path], [v])
      else if !v.VEnum? then BindPanic
      else
        var variant := if fields.NoFields? then d.constructorVariant(path) else d.valueVariant(path);
        if variant.None? then BindPanic
        else if variant.value != v.variant then NoBindings
        else if fields.NoFields? then Bindings([], [])
        else if v.data.NoData? || |v.data.items| != |fields.items| then BindPanic
        else MatchNamedAll(d, v.data.items, fields.items)
  }

  function MatchNamedAll(d: Driver, vs: seq<NValue>, ps: seq<Pattern>): Bindings
    requires |vs| == |ps|
    decreases ps
  {
    if ps == [] then Bindings([], [])
    else
      var b := MatchNamed(d, vs[0], ps[0]);
      if b.Bindings? then Join(b, MatchNamedAll(d, vs[1..], ps[1..])) else b
  }

  function Bind(env: Env, b: Bindings): Env
    requires b.Bindings?
  {
    Env(env.names + b.names, env.vals + b.vals)
  }

  datatype NSelected = NSelected(b: Bindings, arm: nat)

  function FindArmNamed(d: Driver, v: NValue, arms: seq<NArm>): (r: Outcome<NSelected>)
    ensures r.Ok? ==> r.value.arm < |arms| && r.value.b.Bindings?
  {
    if arms == [] then Err(NoMatchError)
    else
      var b := MatchNamed(d, v, arms[0].pattern);
      match b
      case Bindings(_, _) => Ok(NSelected(b, 0))
      case BindPanic => Err(Panic)
      case NoBindings =>
        var r := FindArmNamed(d, v, arms[1..]);
        if r.Err? then r else Ok(NSelected(r.value.b, r.value.arm + 1))
  }

  function BindParamsNamed(d: Driver, vs: seq<NValue>, ps: seq<Pattern>): Outcome<Bindings>
    requires |vs| == |ps|
  {
    var b := MatchNamedAll(d, vs, ps);
    if b.Bindings? then Ok(b) else Err(Panic)
  }

  datatype NCallee<+S> = NImmediate(r: Res<NValue, S>) | NEnter(body: NExpr, env: Env, targs: map<string, Type>)

  function NPrepare<S>(d: Driver, sy: NSymbols<S>, f: NValue, args: seq<NValue>, s: S): NCallee<S> {
    match f
    case VBuiltin(n) => NImmediate(LiftPair(sy.builtin(s, n, args)))
    case VConstructor(en, variant) => NImmediate(Done(VEnum(en, variant, Data(args)), s))
    case VClosure(NCode(ps, body, names, ta), env) =>
      if |ps| != |args| then NImmediate(Fail(Panic))
      else
        (match BindParamsNamed(d, args, ps)
         case Err(x) => NImmediate(Fail(x))
         case Ok(b) => if b.Bindings? then NEnter(body, Bind(Env(names, env), b), ta) else NImmediate(Fail(Panic)))
    case _ => NImmediate(Fail(Panic))
  }

  function LetNamedValue<S>(d: Driver, sy: NSymbols<S>, p: Pattern, ty: Option<Type>, v: Option<NValue>, s: S): Res<NValue, S> {
    if !CreatesColumn(ty, v.Some?) then Done(v.value, s)
    else if p.VariableP? then LiftPair(sy.newColumn(s, p.name, ty, v))
    else if p.EnumP? && p.fields.NoFields? && d.constructorVariant(p.variant).None? then
      LiftPair(sy.newColumn(s, p.variant, ty, v))
    else Fail(Panic)
  }

  /** A let statement binds the variables of its pattern. */
  function LetNamed<S>(d: Driver, sy: NSymbols<S>, p: Pattern, ty: Option<Type>, v: Option<NValue>, env: Env, s: S): Res<Env, S> {
    match LetNamedValue(d, sy, p, ty, v, s)
    case OutOfFuel => OutOfFuel
    case Fail(e) => Fail(e)
    case Done(w, s') =>
      var b := MatchNamed(d, w, p);
      if b.Bindings? then Done(Bind(env, b), s') else Fail(Panic)
  }

  function NEval<S>(fuel: nat, d: Driver, sy: NSymbols<S>, e: NExpr, env: Env, targs: map<string, Type>, s: S): Res<NValue, S>
    decreases fuel, e, 1
  {
    match e
    case NRef(path, ts) =>
      if d.isIdentifier(path) && Bound(env, path) then Done(Lookup(env, path), s)
      else if d.resolveValue(path).None? then Fail(SymbolNotFound)
      else
        var n := d.resolveValue(path).value;
        if n in sy.builtins then Done(VBuiltin(n), s) else LiftPair(sy.lookup(s, n, SubstTypeArgs(targs, ts)))
    case NPublicRef(n) => Lift(sy.publicRef(s, n), s)
    case NNumber(n, ty) => Lift(Literal(sy.p, n, ty, targs), s)
    case NStr(x) => Done(VStr(x), s)
    case NFreeInput => Fail(Unsupported)
    case NLambda(ps, body) => Done(VClosure(NCode(ps, body, env.names, targs), env.vals), s)
    case NTuple(items) =>
      (match NEvalList(fuel, d, sy, items, env, targs, s)
       case OutOfFuel => OutOfFuel
       case Fail(x) => Fail(x)
       case Done(vs, s') => Done(VTuple(vs), s'))
    case NArray(items) =>
      (match NEvalList(fuel, d, sy, items, env, targs, s)
       case OutOfFuel => OutOfFuel
       case Fail(x) => Fail(x)
       case Done(vs, s') => Done(VArray(vs), s'))
    case NBinary(op, l, r) =>
      (match NEval(fuel, d, sy, l, env, targs, s)
       case OutOfFuel => OutOfFuel
       case Fail(x) => Fail(x)
       case Done(a, s1) =>
         match NEval(fuel, d, sy, r, env, targs, s1)
         case OutOfFuel => OutOfFuel
         case Fail(x) => Fail(x)
         case Done(b, s2) => Lift(BinaryOp(sy.p, sy.lib, a, op, b), s2))
    case NUnary(op, a) =>
      (match NEval(fuel, d, sy, a, env, targs, s)
       case OutOfFuel => OutOfFuel
       case Fail(x) => Fail(x)
       case Done(v, s1) => Lift(UnaryOp(sy.p, op, v), s1))
    case NIndex(a, i) =>
      (match NEval(fuel, d, sy, a, env, targs, s)
       case OutOfFuel => OutOfFuel
       case Fail(x) => Fail(x)
       case Done(v, s1) =>
         match NEval(fuel, d, sy, i, env, targs, s1)
         case OutOfFuel => OutOfFuel
         case Fail(x) => Fail(x)
         case Done(j, s2) => Lift(IndexOp(v, j), s2))
    case NCall(f, args) =>
      (match NEval(fuel, d, sy, f, env, targs, s)
       case OutOfFuel => OutOfFuel
       case Fail(x) => Fail(x)
       case Done(fv, s1) =>
         match NEvalList(fuel, d, sy, args, env, targs, s1)
         case OutOfFuel => OutOfFuel
         case Fail(x) => Fail(x)
         case Done(vs, s2) =>
           match NPrepare(d, sy, fv, vs, s2)
           case NImmediate(r) => r
           case NEnter(body, env', ta) => if fuel == 0 then OutOfFuel else NEval(fuel - 1, d, sy, body, env', ta, s2))
    case NMatch(sc, arms) =>
      (match NEval(fuel, d, sy, sc, env, targs, s)
       case OutOfFuel => OutOfFuel
       case Fail(x) => Fail(x)
       case Done(v, s1) =>
         match FindArmNamed(d, v, arms)
         case Err(x) => Fail(x)
         case Ok(sel) => NEval(fuel, d, sy, arms[sel.arm].value, Bind(env, sel.b), targs, s1))
    case NIf(c, t, f) =>
      (match NEval(fuel, d, sy, c, env, targs, s)
       case OutOfFuel => OutOfFuel
       case Fail(x) => Fail(x)
       case Done(v, s1) =>
         if !v.VBool? then Fail(TypeError)
         else NEval(fuel, d, sy, if v.b then t else f, env, targs, s1))
    case NBlock(stmts, result) =>
      match NEvalStmts(fuel, d, sy, stmts, env, targs, s)
      case OutOfFuel => OutOfFuel
      case Fail(x) => Fail(x)
      case Done(env', s1) =>
        if result.None? then Done(VTuple([]), s1) else NEval(fuel, d, sy, result.value, env', targs, s1)
  }

  function NEvalList<S>(fuel: nat, d: Driver, sy: NSymbols<S>, es: seq<NExpr>, env: Env, targs: map<string, Type>, s: S): (r: Res<seq<NValue>, S>)
    ensures r.Done? ==> |r.value| == |es|
    decreases fuel, es, 0
  {
    if es == [] then Done([], s)
    else match NEval(fuel, d, sy, es[0], env, targs, s)
      case OutOfFuel => OutOfFuel
      case Fail(x) => Fail(x)
      case Done(v, s1) =>
        match NEvalList(fuel, d, sy, es[1..], env, targs, s1)
        case OutOfFuel => OutOfFuel
        case Fail(x) => Fail(x)
        case Done(vs, s2) => Done([v] + vs, s2)
  }

  function NEvalStmts<S>(fuel: nat, d: Driver, sy: NSymbols<S>, stmts: seq<NStmt>, env: Env, targs: map<string, Type>, s: S): Res<Env, S>
    decreases fuel, stmts, 0
  {
    if stmts == [] then Done(env, s)
    else match NEvalStmt(fuel, d, sy, stmts[0], env, targs, s)
      case OutOfFuel => OutOfFuel
      case Fail(x) => Fail(x)
      case Done(env', s1) => NEvalStmts(fuel, d, sy, stmts[1..], env', targs, s1)
  }

  function NEvalStmt<S>(fuel: nat, d: Driver, sy: NSymbols<S>, st: NStmt, env: Env, targs: map<string, Type>, s: S): Res<Env, S>
    decreases fuel, st, 0
  {
    match st
    case NDo(e) =>
      (match NEval(fuel, d, sy, e, env, targs, s)
       case OutOfFuel => OutOfFuel
       case Fail(x) => Fail(x)
       case Done(v, s1) =>
         match ProofItem(sy, v, s1)
         case Err(x) => Fail(x)
         case Ok(s2) => Done(env, s2))
    case NLet(p, ty, None) => LetNamed(d, sy, p, ty, None, env, s)
    case NLet(p, ty, Some(e)) =>
      match NEval(fuel, d, sy, e, env, targs, s)
      case OutOfFuel => OutOfFuel
      case Fail(x) => Fail(x)
      case Done(v, s1) => LetNamed(d, sy, p, ty, Some(v), env, s1)
  }

  /** Applies a function value. */
  function NApply<S>(fuel: nat, d: Driver, sy: NSymbols<S>, f: NValue, args: seq<NValue>, s: S): Res<NValue, S> {
    match NPrepare(d, sy, f, args, s)
    case NImmediate(r) => r
    case NEnter(body, env, ta) => if fuel == 0 then OutOfFuel else NEval(fuel - 1, d, sy, body, env, ta, s)
  }
}
