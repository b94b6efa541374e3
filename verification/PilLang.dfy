/** Expressions, patterns and values of the constraint language, pattern matching and the operators
    of its evaluator. */
module PilLang {
  import opened Congruence
  import opened Options
  import opened Types

  datatype BinOp =
    | AddOp | SubOp | MulOp | DivOp | ModOp | PowOp
    | AndOp | XorOp | OrOp | ShlOp | ShrOp
    | LogicalOr | LogicalAnd
    | Less | LessEqual | Equal | NotEqual | GreaterEqual | Greater
    | IdentityOp | SelectOp | InOp | IsOp | ConnectOp

  datatype UnOp = Minus | LogicalNot | NextOp

  datatype Pattern =
    | CatchAll
    | Ellipsis
    | NumberP(n: int)
    | StringP(s: string)
    | TupleP(items: seq<Pattern>)
    | ArrayP(items: seq<Pattern>)
    | VariableP(name: string)
    | EnumP(variant: string, fields: Fields)

  datatype Fields = NoFields | Fields(items: seq<Pattern>)

  datatype PExpr =
    | LocalVar(id: nat)
    | Global(name: string, typeArgs: Option<seq<Type>>)
    | PublicRef(name: string)
    | Number(n: nat, ty: Option<Type>)
    | Str(s: string)
    | TupleE(items: seq<PExpr>)
    | ArrayE(items: seq<PExpr>)
    | Binary(op: BinOp, l: PExpr, r: PExpr)
    | Unary(uop: UnOp, e: PExpr)
    | Lambda(params: seq<Pattern>, body: PExpr)
    | IndexE(arr: PExpr, index: PExpr)
    | Call(f: PExpr, args: seq<PExpr>)
    | MatchE(scrutinee: PExpr, arms: seq<Arm>)
    | IfE(cond: PExpr, thn: PExpr, els: PExpr)
    | Block(stmts: seq<Stmt>, result: Option<PExpr>)
    | FreeInput

  datatype Arm = Arm(pattern: Pattern, value: PExpr)

  datatype Stmt =
    | Let(pattern: Pattern, ty: Option<Type>, value: Option<PExpr>)
    | Do(e: PExpr)

  datatype PolyType = Committed | Constant | Intermediate

  /** Algebraic expressions as runtime values. */
  datatype Alg =
    | AlgRef(name: string, ptype: PolyType, id: nat, next: bool)
    | AlgPublic(name: string)
    | AlgChallenge(id: nat, stage: nat)
    | AlgNum(n: int)
    | AlgBin(op: BinOp, l: Alg, r: Alg)
    | AlgNeg(e: Alg)

  /** Runtime values. A closure pairs code with an environment; `C` is the representation of code. */
  datatype GValue<C> =
    | VBool(b: bool)
    | VInt(n: int)
    | VFe(fe: int)
    | VStr(s: string)
    | VTuple(items: seq<GValue<C>>)
    | VArray(items: seq<GValue<C>>)
    | VClosure(code: C, env: seq<GValue<C>>)
    | VConstructor(enumName: string, variant: string)
    | VEnum(enumName: string, variant: string, data: Data<C>)
    | VBuiltin(name: string)
    | VExpr(alg: Alg)

  datatype Data<C> = NoData | Data(items: seq<GValue<C>>)

  /** Code with level-numbered variables. */
  datatype Code = Code(params: seq<Pattern>, body: PExpr, typeArgs: map<string, Type>)

  type Value = GValue<Code>

  /** Evaluation errors; `Panic` stands for the host language's panics. */
  datatype Error =
    | TypeError | Unsupported | OutOfBounds | NoMatchError | SymbolNotFound
    | DataNotAvailable | FailedAssertion | ProverError | Panic

  datatype Outcome<+T> = Ok(value: T) | Err(error: Error)

  const EMPTY_TUPLE: Value := VTuple([])

  // ----- pattern matching -----

  datatype MatchResult<C> = Matched(vars: seq<GValue<C>>) | NoMatch | MatchPanic

  function Append<C>(vars: seq<GValue<C>>, r: MatchResult<C>): MatchResult<C> {
    if r.Matched? then Matched(vars + r.vars) else r
  }

  function EllipsisPos(ps: seq<Pattern>): (r: Option<nat>)
    ensures r.Some? ==> r.value < |ps| && ps[r.value].Ellipsis? && forall i :: 0 <= i < r.value ==> !ps[i].Ellipsis?
    ensures r.None? ==> forall i :: 0 <= i < |ps| ==> !ps[i].Ellipsis?
  {
    if ps == [] then None
    else if ps[0].Ellipsis? then Some(0)
    else
      var r := EllipsisPos(ps[1..]);
      if r.None? then None else Some(r.value + 1)
  }

  function WithoutEllipsis(ps: seq<Pattern>): (r: seq<Pattern>)
    ensures forall q :: q in r ==> q in ps
  {
    if ps == [] then []
    else (if ps[0].Ellipsis? then [] else [ps[0]]) + WithoutEllipsis(ps[1..])
  }

  /** The values an array pattern with the given items is matched against, if the length fits. */
  function ArrayParts<C>(vs: seq<GValue<C>>, items: seq<Pattern>): Option<seq<GValue<C>>> {
    match EllipsisPos(items)
    case None => if |vs| == |items| then Some(vs) else None
    case Some(pos) =>
      if |vs| >= |items| - 1 then
        var right := |items| - pos - 1;
        Some(vs[..pos] + vs[|vs| - right..])
      else None
  }

  /** Matches a value against a pattern and returns the bound values from left to right. */
  function MatchPattern<C>(v: GValue<C>, p: Pattern): MatchResult<C>
    decreases p
  {
    match p
    case Ellipsis => MatchPanic
    case CatchAll => Matched([])
    case NumberP(n) => if (v.VInt? && v.n == n) || (v.VFe? && v.fe == n) then Matched([]) else NoMatch
    case StringP(s) => if v.VStr? && v.s == s then Matched([]) else NoMatch
    case TupleP(items) => if v.VTuple? && |v.items| == |items| then MatchAll(p, v.items, items) else MatchPanic
    case ArrayP(items) =>
      if !v.VArray? then MatchPanic
      else
        var parts := ArrayParts(v.items, items);
        if parts.None? then NoMatch else MatchAll(p, parts.value, WithoutEllipsis(items))
    case VariableP(_) => Matched([v])
    case EnumP(variant, fields) =>
      if !v.VEnum? then MatchPanic
      else if variant != v.variant then NoMatch
      else if fields.NoFields? then Matched([])
      else if v.data.NoData? || |v.data.items| != |fields.items| then MatchPanic
      else MatchAll(p, v.data.items, fields.items)
  }

  /** Matches values against patterns pairwise, stopping at the first failure. */
  function MatchAll<C>(ghost parent: Pattern, vs: seq<GValue<C>>, ps: seq<Pattern>): MatchResult<C>
    requires forall q :: q in ps ==> q < parent
    decreases parent, |ps|
  {
    if vs == [] || ps == [] then Matched([])
    else
      assert ps[0] in ps && forall q :: q in ps[1..] ==> q in ps;
      match MatchPattern(vs[0], ps[0])
      case Matched(vars) => Append(vars, MatchAll(parent, vs[1..], ps[1..]))
      case NoMatch => NoMatch
      case MatchPanic => MatchPanic
  }

  /** Binds the parameters of a function. Parameters must match. */
  function BindParams<C>(vs: seq<GValue<C>>, ps: seq<Pattern>): Outcome<seq<GValue<C>>>
    requires |vs| == |ps|
  {
    if ps == [] then Ok([])
    else match MatchPattern(vs[0], ps[0])
      case Matched(vars) =>
        var rest := BindParams(vs[1..], ps[1..]);
        if rest.Err? then rest else Ok(vars + rest.value)
      case _ => Err(Panic)
  }

  datatype Selected<C> = Selected(vars: seq<GValue<C>>, arm: nat)

  /** The first arm that matches. */
  function FindArm<C>(v: GValue<C>, arms: seq<Arm>): (r: Outcome<Selected<C>>)
    ensures r.Ok? ==> r.value.arm < |arms|
  {
    if arms == [] then Err(NoMatchError)
    else match MatchPattern(v, arms[0].pattern)
      case Matched(vars) => Ok(Selected(vars, 0))
      case MatchPanic => Err(Panic)
      case NoMatch =>
        var r := FindArm(v, arms[1..]);
        if r.Err? then r else Ok(Selected(r.value.vars, r.value.arm + 1))
  }

  // ----- operators -----

  /** Integer operations of the big-number library that are not spelled out here. */
  type IntLib = (BinOp, int, int) -> Outcome<int>

  const U64_LIMIT := 0x1_0000_0000_0000_0000

  function IntegerOp<C>(lib: IntLib, l: int, op: BinOp, r: int): Outcome<GValue<C>> {
    match op
    case AddOp => Ok(VInt(l + r))
    case SubOp => Ok(VInt(l - r))
    case MulOp => Ok(VInt(l * r))
    case Less => Ok(VBool(l < r))
    case LessEqual => Ok(VBool(l <= r))
    case Equal => Ok(VBool(l == r))
    case NotEqual => Ok(VBool(l != r))
    case GreaterEqual => Ok(VBool(l >= r))
    case Greater => Ok(VBool(l > r))
    case DivOp | ModOp | PowOp | AndOp | XorOp | OrOp | ShlOp | ShrOp =>
      var x := lib(op, l, r);
      if x.Err? then Err(x.error) else Ok(VInt(x.value))
    case _ => Err(TypeError)
  }

  function FieldOp<C>(p: Modulus, l: int, op: BinOp, r: int): Outcome<GValue<C>> {
    match op
    case AddOp => Ok(VFe(Rep(p, l + r)))
    case SubOp => Ok(VFe(Rep(p, l - r)))
    case MulOp => Ok(VFe(Rep(p, l * r)))
    case Equal => Ok(VBool(l == r))
    case NotEqual => Ok(VBool(l != r))
    case _ => Err(TypeError)
  }

  predicate Algebraic(op: BinOp) { op.AddOp? || op.SubOp? || op.MulOp? || op.PowOp? }

  /** Combines two algebraic expressions; two literals are folded. */
  function AlgebraicOp<C>(p: Modulus, l: Alg, op: BinOp, r: Alg): Outcome<GValue<C>> {
    if l.AlgNum? && r.AlgNum? then
      match FieldOp<C>(p, l.n, op, r.n)
      case Err(e) => Err(e)
      case Ok(v) => if v.VFe? then Ok(VExpr(AlgNum(v.fe))) else Err(Panic)
    else if Algebraic(op) then Ok(VExpr(AlgBin(op, l, r)))
    else Err(Panic)
  }

  function PairUp<C>(l: seq<GValue<C>>, r: seq<GValue<C>>): seq<GValue<C>>
    requires |l| == |r|
  {
    seq(|l|, i requires 0 <= i < |l| => VTuple([l[i], r[i]]))
  }

  datatype SelectedExprs<C> = SelectedExprs(selector: GValue<C>, exprs: seq<GValue<C>>)

  function ToSelectedExprs<C>(v: GValue<C>): Outcome<SelectedExprs<C>> {
    var none := VEnum("std::prelude::Option", "None", NoData);
    if v.VArray? then Ok(SelectedExprs(none, v.items))
    else if v.VEnum? && v.variant == "JustExprs" && v.data.Data? then Ok(SelectedExprs(none, v.data.items))
    else if v.VEnum? && v.variant == "SelectedExprs" && v.data.Data? && |v.data.items| == 2 && v.data.items[1].VArray?
    then Ok(SelectedExprs(VEnum("std::prelude::Option", "Some", Data([v.data.items[0]])), v.data.items[1].items))
    else Err(Panic)
  }

  function Constr<C>(variant: string, data: seq<GValue<C>>): GValue<C> {
    VEnum("std::prelude::Constr", variant, Data(data))
  }

  function LookupConstr<C>(variant: string, l: GValue<C>, r: GValue<C>): Outcome<GValue<C>> {
    var a := ToSelectedExprs(l);
    var b := ToSelectedExprs(r);
    if a.Err? then Err(a.error)
    else if b.Err? then Err(b.error)
    else if |a.value.exprs| != |b.value.exprs| then Err(TypeError)
    else Ok(Constr(variant, [VTuple([a.value.selector, b.value.selector]), VArray(PairUp(a.value.exprs, b.value.exprs))]))
  }

  /** Both operands are values already: `&&` and `||` do not short-circuit. */
  function BinaryOp<C>(p: Modulus, lib: IntLib, l: GValue<C>, op: BinOp, r: GValue<C>): Outcome<GValue<C>> {
    if l.VArray? && op.AddOp? && r.VArray? then Ok(VArray(l.items + r.items))
    else if l.VStr? && r.VStr? && op.AddOp? then Ok(VStr(l.s + r.s))
    else if l.VStr? && r.VStr? && op.Equal? then Ok(VBool(l.s == r.s))
    else if l.VStr? && r.VStr? && op.NotEqual? then Ok(VBool(l.s != r.s))
    else if l.VBool? && r.VBool? && op.LogicalOr? then Ok(VBool(l.b || r.b))
    else if l.VBool? && r.VBool? && op.LogicalAnd? then Ok(VBool(l.b && r.b))
    else if l.VInt? && r.VInt? then IntegerOp(lib, l.n, op, r.n)
    else if l.VFe? && r.VFe? then FieldOp(p, l.fe, op, r.fe)
    else if l.VFe? && op.PowOp? && r.VInt? then
      if 0 <= r.n < U64_LIMIT then Ok(VFe(Rep(p, Pow(l.fe, r.n)))) else Err(TypeError)
    else if l.VExpr? && op.PowOp? && r.VInt? then
      if !(0 <= r.n < U64_LIMIT) then Err(TypeError)
      else if l.alg.AlgNum? then Ok(VExpr(AlgNum(Rep(p, Pow(l.alg.n, r.n)))))
      else if r.n < p then Ok(VExpr(AlgBin(PowOp, l.alg, AlgNum(r.n))))
      else Err(Panic)
    else if l.VExpr? && op.IdentityOp? && r.VExpr? then Ok(Constr("Identity", [l, r]))
    else if l.VExpr? && r.VExpr? then AlgebraicOp(p, l.alg, op, r.alg)
    else if l.VExpr? && op.SelectOp? && r.VArray? then
      Ok(VEnum("std::prelude::SelectedExprs", "SelectedExprs", Data([l, r])))
    else if op.InOp? then LookupConstr("Lookup", l, r)
    else if op.IsOp? then LookupConstr("Permutation", l, r)
    else if l.VArray? && op.ConnectOp? && r.VArray? then
      if |l.items| == |r.items| then Ok(Constr("Connection", [VArray(PairUp(l.items, r.items))])) else Err(TypeError)
    else Err(TypeError)
  }

  /** Shifts an algebraic expression to the next row; a reference may be shifted only once. */
  function NextAlg(a: Alg): Option<Alg> {
    match a
    case AlgRef(n, t, i, next) => if next then None else Some(AlgRef(n, t, i, true))
    case AlgBin(op, l, r) =>
      var x := NextAlg(l);
      var y := NextAlg(r);
      if x.None? || y.None? then None else Some(AlgBin(op, x.value, y.value))
    case AlgNeg(e) =>
      var x := NextAlg(e);
      if x.None? then None else Some(AlgNeg(x.value))
    case _ => Some(a)
  }

  function UnaryOp<C>(p: Modulus, op: UnOp, v: GValue<C>): Outcome<GValue<C>> {
    if op.Minus? && v.VFe? then Ok(VFe(Rep(p, 0 - v.fe)))
    else if op.LogicalNot? && v.VBool? then Ok(VBool(!v.b))
    else if op.Minus? && v.VInt? then Ok(VInt(0 - v.n))
    else if op.NextOp? && v.VExpr? then
      var x := NextAlg(v.alg);
      if x.None? then Err(TypeError) else Ok(VExpr(x.value))
    else if v.VExpr? then if op.Minus? then Ok(VExpr(AlgNeg(v.alg))) else Err(Panic)
    else Err(TypeError)
  }

  function IndexOp<C>(a: GValue<C>, i: GValue<C>): Outcome<GValue<C>> {
    if !a.VArray? then Err(Panic)
    else if !i.VInt? then Err(TypeError)
    else if i.n < 0 || i.n >= |a.items| then Err(OutOfBounds)
    else Ok(a.items[i.n])
  }

  /** A number literal; a type variable is looked up in the type arguments. */
  function Literal<C>(p: Modulus, n: nat, ty: Option<Type>, targs: map<string, Type>): Outcome<GValue<C>> {
    var t :=
      if ty.Some? && ty.value.TypeVar? then
        if ty.value.name !in targs then Err(Panic)
        else
          var u := targs[ty.value.name];
          if u.Fe? || u.Int? || u.Expression? then Ok(u) else Err(TypeError)
      else if ty.None? then Ok(Int)
      else Ok(ty.value);
    if t.Err? then Err(t.error)
    else if t.value.Int? then Ok(VInt(n))
    else if n >= p then Err(TypeError)
    else if t.value.Fe? then Ok(VFe(n))
    else if t.value.Expression? then Ok(VExpr(AlgNum(n)))
    else Err(Panic)
  }
}
