/** The evaluator: a machine with an operation stack and a value stack. */
module StackMachine {
  import opened Congruence
  import opened Options
  import opened Types
  import opened PilLang
  import opened BigStep

  datatype Op =
    | OpExpand(e: PExpr)
    | OpCombine(e: PExpr)
    | OpTruncateLocals(len: nat)
    | OpSetEnvironment(locals: seq<Value>, targs: map<string, Type>)
    | OpLetStatement(st: Stmt)
    | OpAddProofItem

  /** The last element of a stack is its top. */
  datatype State<+S> = State(
    ops: seq<Op>, vals: seq<Value>, locals: seq<Value>, targs: map<string, Type>, sym: S)

  /** `Stuck` means that a stack underflowed. */
  datatype Machine<+S> = Running(st: State<S>) | Failed(error: Error) | Stuck

  function PushOps<S>(st: State<S>, ops: seq<Op>): State<S> { st.(ops := st.ops + ops) }

  function PushValue<S>(st: State<S>, v: Value): State<S> { st.(vals := st.vals + [v]) }

  function PushRes<S>(st: State<S>, r: Res<Value, S>): Machine<S> {
    match r
    case Done(v, s) => Running(PushValue(st, v).(sym := s))
    case Fail(e) => Failed(e)
    case OutOfFuel => Stuck
  }

  /** The operations that expand `es`, first element on top. */
  function ExpandOps(es: seq<PExpr>): (r: seq<Op>)
    ensures |r| == |es|
  {
    if es == [] then [] else ExpandOps(es[1..]) + [OpExpand(es[0])]
  }

  function StmtOps(st: Stmt): seq<Op> {
    match st
    case Let(_, _, v) => [OpLetStatement(st)] + (if v.Some? then [OpExpand(v.value)] else [])
    case Do(e) => [OpAddProofItem, OpExpand(e)]
  }

  /** The operations that run the statements of a block, first statement on top. */
  function BlockOps(stmts: seq<Stmt>): seq<Op> {
    if stmts == [] then [] else BlockOps(stmts[1..]) + StmtOps(stmts[0])
  }

  /** Evaluates a leaf expression or expands a complex expression. */
  function Expand<S>(sy: Symbols<S>, e: PExpr, st: State<S>): Machine<S>
    decreases e
  {
    if IsLeaf(e) then PushRes(st, EvalLeaf(sy, e, st.locals, st.targs, st.sym))
    else match e
      case TupleE(items) => ExpandItems(sy, e, items, st)
      case ArrayE(items) => ExpandItems(sy, e, items, st)
      case Binary(_, l, r) => Expand(sy, l, PushOps(st, [OpCombine(e), OpExpand(r)]))
      case Unary(_, a) => Expand(sy, a, PushOps(st, [OpCombine(e)]))
      case IndexE(a, i) => Expand(sy, a, PushOps(st, [OpCombine(e), OpExpand(i)]))
      case Call(f, args) => Expand(sy, f, PushOps(st, [OpCombine(e)] + ExpandOps(args)))
      case MatchE(sc, _) => Expand(sy, sc, PushOps(st, [OpCombine(e)]))
      case IfE(c, _, _) => Expand(sy, c, PushOps(st, [OpCombine(e)]))
      case Block(stmts, result) =>
        var st1 := PushOps(st, [OpTruncateLocals(|st.locals|)]);
        var st2 := if result.Some? then PushOps(st1, [OpExpand(result.value)]) else PushValue(st1, EMPTY_TUPLE);
        Running(PushOps(st2, BlockOps(stmts)))
  }

  function ExpandItems<S>(sy: Symbols<S>, e: PExpr, items: seq<PExpr>, st: State<S>): Machine<S>
    requires forall x :: x in items ==> x < e
    decreases e, 0
  {
    if items == [] then Running(PushOps(st, [OpCombine(e)]))
    else
      assert items[0] in items;
      Expand(sy, items[0], PushOps(st, [OpCombine(e)] + ExpandOps(items[1..])))
  }

  function CombineCall<S>(sy: Symbols<S>, f: Value, args: seq<Value>, st: State<S>): Machine<S> {
    match Prepare(sy, f, args, st.sym)
    case Immediate(r) => PushRes(st, r)
    case Enter(body, env, ta) =>
      Expand(sy, body, PushOps(st, [OpSetEnvironment(st.locals, st.targs)]).(locals := env, targs := ta))
  }

  function CombineMatch<S>(sy: Symbols<S>, v: Value, arms: seq<Arm>, st: State<S>): Machine<S> {
    match FindArm(v, arms)
    case Err(x) => Failed(x)
    case Ok(sel) =>
      var st1 := if sel.vars == [] then st
                 else PushOps(st, [OpTruncateLocals(|st.locals|)]).(locals := st.locals + sel.vars);
      Expand(sy, arms[sel.arm].value, st1)
  }

  /** Evaluates a complex expression from the values of its sub-expressions. */
  function Combine<S>(sy: Symbols<S>, e: PExpr, st: State<S>): Machine<S> {
    var n := |st.vals|;
    match e
    case TupleE(items) =>
      if n < |items| then Stuck
      else Running(PushValue(st.(vals := st.vals[..n - |items|]), VTuple(st.vals[n - |items|..])))
    case ArrayE(items) =>
      if n < |items| then Stuck
      else Running(PushValue(st.(vals := st.vals[..n - |items|]), VArray(st.vals[n - |items|..])))
    case Binary(op, _, _) =>
      if n < 2 then Stuck
      else PushRes(st.(vals := st.vals[..n - 2]), Lift(BinaryOp(sy.p, sy.lib, st.vals[n - 2], op, st.vals[n - 1]), st.sym))
    case Unary(op, _) =>
      if n < 1 then Stuck
      else PushRes(st.(vals := st.vals[..n - 1]), Lift(UnaryOp(sy.p, op, st.vals[n - 1]), st.sym))
    case IndexE(_, _) =>
      if n < 2 then Stuck
      else PushRes(st.(vals := st.vals[..n - 2]), Lift(IndexOp(st.vals[n - 2], st.vals[n - 1]), st.sym))
    case Call(_, args) =>
      if n < |args| + 1 then Stuck
      else
        var k := n - |args|;
        CombineCall(sy, st.vals[k - 1], st.vals[k..], st.(vals := st.vals[..k - 1]))
    case MatchE(_, arms) =>
      if n < 1 then Stuck else CombineMatch(sy, st.vals[n - 1], arms, st.(vals := st.vals[..n - 1]))
    case IfE(_, t, f) =>
      if n < 1 then Stuck
      else if !st.vals[n - 1].VBool? then Failed(TypeError)
      else Expand(sy, if st.vals[n - 1].b then t else f, st.(vals := st.vals[..n - 1]))
    case _ => Failed(Panic)
  }

  function LetStatement<S>(sy: Symbols<S>, s: Stmt, st: State<S>): Machine<S> {
    if !s.Let? then Failed(Panic)
    else
      var n := |st.vals|;
      if s.value.Some? && n < 1 then Stuck
      else
        var v := if s.value.Some? then Some(st.vals[n - 1]) else None;
        var st1 := if s.value.Some? then st.(vals := st.vals[..n - 1]) else st;
        match LetVars(sy, s.pattern, s.ty, v, st1.sym)
        case Done(vars, sym) => Running(st1.(locals := st1.locals + vars, sym := sym))
        case Fail(x) => Failed(x)
        case OutOfFuel => Stuck
  }

  function AddProofItem<S>(sy: Symbols<S>, st: State<S>): Machine<S> {
    var n := |st.vals|;
    if n < 1 then Stuck
    else match ProofItem(sy, st.vals[n - 1], st.sym)
      case Ok(s) => Running(st.(vals := st.vals[..n - 1], sym := s))
      case Err(x) => Failed(x)
  }

  /** Performs one operation that has just been popped. */
  function Perform<S>(sy: Symbols<S>, op: Op, st: State<S>): Machine<S> {
    match op
    case OpExpand(e) => Expand(sy, e, st)
    case OpCombine(e) => Combine(sy, e, st)
    case OpTruncateLocals(len) => Running(st.(locals := if len < |st.locals| then st.locals[..len] else st.locals))
    case OpSetEnvironment(l, ta) => Running(st.(locals := l, targs := ta))
    case OpLetStatement(s) => LetStatement(sy, s, st)
    case OpAddProofItem => AddProofItem(sy, st)
  }

  /** One iteration of the main loop; the machine halts when the operation stack is empty. */
  function Step<S>(sy: Symbols<S>, m: Machine<S>): Machine<S> {
    if !m.Running? || m.st.ops == [] then m
    else
      var n := |m.st.ops| - 1;
      Perform(sy, m.st.ops[n], m.st.(ops := m.st.ops[..n]))
  }

  function Run<S>(sy: Symbols<S>, m: Machine<S>, k: nat): Machine<S>
    decreases k
  {
    if k == 0 then m else Run(sy, Step(sy, m), k - 1)
  }

  predicate Halted<S>(m: Machine<S>) {
    m.Running? ==> m.st.ops == []
  }

  function Initial<S>(targs: map<string, Type>, s: S): State<S> { State([], [], [], targs, s) }
}
