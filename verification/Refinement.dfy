/** The stack machine refines the recursive semantics: same value, same symbol state, same error, and
    it runs forever exactly when every amount of fuel is too little. */
module Refinement {
  import opened Congruence
  import opened Options
  import opened Types
  import opened PilLang
  import opened BigStep
  import opened StackMachine

  // ----- runs -----

  lemma {:induction false} RunAdd<S>(sy: Symbols<S>, m: Machine<S>, j: nat, k: nat)
    ensures Run(sy, m, j + k) == Run(sy, Run(sy, m, j), k)
    decreases j
  {
    if j > 0 { RunAdd(sy, Step(sy, m), j - 1, k); }
  }

  lemma {:induction false} RunHalted<S>(sy: Symbols<S>, m: Machine<S>, k: nat)
    requires Halted(m)
    ensures Run(sy, m, k) == m
    decreases k
  {
    if k > 0 { RunHalted(sy, m, k - 1); }
  }

  lemma StepTop<S>(sy: Symbols<S>, st: State<S>, op: Op)
    ensures Step(sy, Running(PushOps(st, [op]))) == Perform(sy, op, st)
  {
    var st' := PushOps(st, [op]);
    assert st'.ops[..|st'.ops| - 1] == st.ops;
  }

  lemma PushOpsConcat<S>(st: State<S>, a: seq<Op>, b: seq<Op>)
    ensures PushOps(PushOps(st, a), b) == PushOps(st, a + b)
  {
    assert st.ops + a + b == st.ops + (a + b);
  }

  /** Running `k` steps from `m` gives what evaluation result `r` says, starting from state `st`. */
  ghost predicate Reaches<S>(sy: Symbols<S>, fuel: nat, m: Machine<S>, k: nat, st: State<S>, r: Res<Value, S>) {
    match r
    case Done(v, s) => Run(sy, m, k) == Running(PushValue(st, v).(sym := s))
    case Fail(x) => Run(sy, m, k) == Failed(x)
    case OutOfFuel => Unfinished(sy, fuel, m, k, st)
  }

  /** After at least `fuel` steps there is still work above the operations of `st`. */
  ghost predicate Unfinished<S>(sy: Symbols<S>, fuel: nat, m: Machine<S>, k: nat, st: State<S>) {
    fuel <= k && Run(sy, m, k).Running? && |Run(sy, m, k).st.ops| > |st.ops|
  }

  ghost predicate ReachesList<S>(sy: Symbols<S>, fuel: nat, m: Machine<S>, k: nat, st: State<S>, r: Res<seq<Value>, S>) {
    match r
    case Done(vs, s) => Run(sy, m, k) == Running(st.(vals := st.vals + vs, sym := s))
    case Fail(x) => Run(sy, m, k) == Failed(x)
    case OutOfFuel => Unfinished(sy, fuel, m, k, st)
  }

  ghost predicate ReachesLocals<S>(sy: Symbols<S>, fuel: nat, m: Machine<S>, k: nat, st: State<S>, r: Res<seq<Value>, S>) {
    match r
    case Done(ls, s) => Run(sy, m, k) == Running(st.(locals := ls, sym := s))
    case Fail(x) => Run(sy, m, k) == Failed(x)
    case OutOfFuel => Unfinished(sy, fuel, m, k, st)
  }

  /** A machine that can only go on for `j` more steps after reaching `m'` from `m`. */
  lemma Continue<S>(sy: Symbols<S>, m: Machine<S>, i: nat, m': Machine<S>, j: nat)
    requires Run(sy, m, i) == m'
    ensures Run(sy, m, i + j) == Run(sy, m', j)
  {
    RunAdd(sy, m, i, j);
  }

  // ----- locals -----

  lemma {:induction false} StmtsExtend<S>(fuel: nat, sy: Symbols<S>, stmts: seq<Stmt>, locals: seq<Value>, targs: map<string, Type>, s: S)
    ensures var r := EvalStmts(fuel, sy, stmts, locals, targs, s); r.Done? ==> locals <= r.value
    decreases stmts
  {
    if stmts != [] {
      var r := EvalStmt(fuel, sy, stmts[0], locals, targs, s);
      if r.Done? { StmtsExtend(fuel, sy, stmts[1..], r.value, targs, r.sym); }
    }
  }

  // ----- one construct at a time -----

  /** Pops the combination of `e` once its sub-expressions have been evaluated. */
  lemma CombineTop<S>(sy: Symbols<S>, m: Machine<S>, k: nat, st: State<S>, e: PExpr, vs: seq<Value>, s: S)
    requires Run(sy, m, k) == Running(PushOps(st, [OpCombine(e)]).(vals := st.vals + vs, sym := s))
    ensures Run(sy, m, k + 1) == Combine(sy, e, st.(vals := st.vals + vs, sym := s))
  {
    var st' := st.(vals := st.vals + vs, sym := s);
    assert PushOps(st, [OpCombine(e)]).(vals := st.vals + vs, sym := s) == PushOps(st', [OpCombine(e)]);
    StepTop(sy, st', OpCombine(e));
    Continue(sy, m, k, Running(PushOps(st', [OpCombine(e)])), 1);
    assert Run(sy, Running(PushOps(st', [OpCombine(e)])), 1) == Run(sy, Step(sy, Running(PushOps(st', [OpCombine(e)]))), 0);
  }

  lemma {:induction false} LeafRefines<S>(fuel: nat, sy: Symbols<S>, e: PExpr, st: State<S>)
    requires IsLeaf(e)
    ensures Reaches(sy, fuel, Expand(sy, e, st), 0, st, Eval(fuel, sy, e, st.locals, st.targs, st.sym))
  {
  }

  lemma {:induction false} ListRefines<S>(fuel: nat, sy: Symbols<S>, es: seq<PExpr>, st: State<S>) returns (k: nat)
    ensures ReachesList(sy, fuel, Running(PushOps(st, ExpandOps(es))), k, st, EvalList(fuel, sy, es, st.locals, st.targs, st.sym))
    decreases fuel, es, 1
  {
    if es == [] {
      k := 0;
      assert PushOps(st, []) == st.(vals := st.vals + []);
    } else {
      var m := Running(PushOps(st, ExpandOps(es)));
      PushOpsConcat(st, ExpandOps(es[1..]), [OpExpand(es[0])]);
      StepTop(sy, PushOps(st, ExpandOps(es[1..])), OpExpand(es[0]));
      k := ItemsRefine(fuel, sy, es, st);
      assert Run(sy, m, k + 1) == Run(sy, Step(sy, m), k);
      k := k + 1;
    }
  }

  lemma {:induction false} ItemsRefine<S>(fuel: nat, sy: Symbols<S>, es: seq<PExpr>, st: State<S>) returns (k: nat)
    requires es != []
    ensures ReachesList(sy, fuel, Expand(sy, es[0], PushOps(st, ExpandOps(es[1..]))), k, st,
                        EvalList(fuel, sy, es, st.locals, st.targs, st.sym))
    decreases fuel, es, 0
  {
    var rest := PushOps(st, ExpandOps(es[1..]));
    var m := Expand(sy, es[0], rest);
    k := ExpandRefines(fuel, sy, es[0], rest);
    match Eval(fuel, sy, es[0], st.locals, st.targs, st.sym)
    case Fail(_) =>
    case OutOfFuel =>
    case Done(v, s1) =>
      var st1 := PushValue(st, v).(sym := s1);
      assert PushValue(rest, v).(sym := s1) == PushOps(st1, ExpandOps(es[1..]));
      var j := ListRefines(fuel, sy, es[1..], st1);
      Continue(sy, m, k, Running(PushOps(st1, ExpandOps(es[1..]))), j);
      ListJoin(fuel, sy, m, k, j, st, v, s1, EvalList(fuel, sy, es[1..], st.locals, st.targs, s1));
      k := k + j;
  }

  lemma ListJoin<S>(fuel: nat, sy: Symbols<S>, m: Machine<S>, k: nat, j: nat, st: State<S>, v: Value, s1: S, r: Res<seq<Value>, S>)
    requires exists m' :: Run(sy, m, k + j) == Run(sy, m', j) && ReachesList(sy, fuel, m', j, PushValue(st, v).(sym := s1), r)
    ensures ReachesList(sy, fuel, m, k + j, st,
              match r case OutOfFuel => OutOfFuel case Fail(x) => Fail(x) case Done(vs, s2) => Done([v] + vs, s2))
  {
    if r.Done? {
      assert st.vals + [v] + r.value == st.vals + ([v] + r.value);
    }
  }

  /** Tuples and arrays. */
  lemma {:induction false} SequenceRefines<S>(fuel: nat, sy: Symbols<S>, e: PExpr, st: State<S>) returns (k: nat)
    requires e.TupleE? || e.ArrayE?
    ensures Reaches(sy, fuel, Expand(sy, e, st), k, st, Eval(fuel, sy, e, st.locals, st.targs, st.sym))
    decreases fuel, e, 0
  {
    var m := Expand(sy, e, st);
    var st1 := PushOps(st, [OpCombine(e)]);
    var r := EvalList(fuel, sy, e.items, st.locals, st.targs, st.sym);
    if e.items == [] {
      k := 0;
      assert st1 == st1.(vals := st.vals + [], sym := st.sym);
      assert Run(sy, m, k) == Running(st1.(vals := st.vals + r.value, sym := r.sym));
    } else {
      FirstItem(sy, e, st);
      k := ItemsRefine(fuel, sy, e.items, st1);
    }
    if r.Done? {
      CombineTop(sy, m, k, st, e, r.value, r.sym);
      SplitConcat(st.vals, r.value);
      k := k + 1;
    }
  }

  lemma FirstItem<S>(sy: Symbols<S>, e: PExpr, st: State<S>)
    requires (e.TupleE? || e.ArrayE?) && e.items != []
    ensures Expand(sy, e, st) == Expand(sy, e.items[0], PushOps(PushOps(st, [OpCombine(e)]), ExpandOps(e.items[1..])))
  {
    PushOpsConcat(st, [OpCombine(e)], ExpandOps(e.items[1..]));
    assert Expand(sy, e, st) == ExpandItems(sy, e, e.items, st);
  }

  lemma SplitConcat<T>(a: seq<T>, b: seq<T>)
    ensures (a + b)[..|a|] == a && (a + b)[|a|..] == b
  {
  }

  /** Evaluates a second expression after a first one, both below a pending combination. */
  lemma {:induction false} PairRefines<S>(fuel: nat, sy: Symbols<S>, e: PExpr, a: PExpr, b: PExpr, st: State<S>) returns (k: nat)
    requires a < e && b < e
    ensures ReachesList(sy, fuel, Expand(sy, a, PushOps(st, [OpCombine(e), OpExpand(b)])), k, PushOps(st, [OpCombine(e)]),
                        EvalList(fuel, sy, [a, b], st.locals, st.targs, st.sym))
    decreases fuel, e, 0
  {
    var ops := [OpCombine(e)] + [OpExpand(b)];
    assert ops == [OpCombine(e), OpExpand(b)];
    var m := Expand(sy, a, PushOps(st, ops));
    k := ExpandRefines(fuel, sy, a, PushOps(st, ops));
    PairList(fuel, sy, a, b, st.locals, st.targs, st.sym);
    match Eval(fuel, sy, a, st.locals, st.targs, st.sym)
    case Fail(_) =>
    case OutOfFuel =>
    case Done(x, s1) =>
      var st2 := PushValue(st, x).(sym := s1);
      assert PushValue(PushOps(st, ops), x).(sym := s1) == PushOps(st2, ops);
      k := SecondRefines(fuel, sy, e, b, m, k, st2);
      TwoValues(st.vals, x, Eval(fuel, sy, b, st.locals, st.targs, s1));
  }

  /** The second operand, after `i` steps for the first one. */
  lemma {:induction false} SecondRefines<S>(fuel: nat, sy: Symbols<S>, e: PExpr, b: PExpr, m: Machine<S>, i: nat, st: State<S>) returns (k: nat)
    requires Run(sy, m, i) == Running(PushOps(st, [OpCombine(e)] + [OpExpand(b)]))
    ensures Reaches(sy, fuel, m, k, PushOps(st, [OpCombine(e)]), Eval(fuel, sy, b, st.locals, st.targs, st.sym))
    decreases fuel, b, 6
  {
    var j := ValueBelow(fuel, sy, b, OpCombine(e), st);
    Continue(sy, m, i, Running(PushOps(st, [OpCombine(e)] + [OpExpand(b)])), j);
    k := i + j;
  }

  lemma TwoValues<S>(vals: seq<Value>, x: Value, r: Res<Value, S>)
    ensures r.Done? ==> vals + [x] + [r.value] == vals + [x, r.value]
  {
  }

  lemma PairList<S>(fuel: nat, sy: Symbols<S>, a: PExpr, b: PExpr, locals: seq<Value>, targs: map<string, Type>, s: S)
    ensures var x := Eval(fuel, sy, a, locals, targs, s);
            var r := EvalList(fuel, sy, [a, b], locals, targs, s);
            && (x.OutOfFuel? ==> r.OutOfFuel?)
            && (x.Fail? ==> r == Fail(x.error))
            && (x.Done? ==>
                  var y := Eval(fuel, sy, b, locals, targs, x.sym);
                  && (y.OutOfFuel? ==> r.OutOfFuel?)
                  && (y.Fail? ==> r == Fail(y.error))
                  && (y.Done? ==> r == Done([x.value, y.value], y.sym)))
  {
    assert [a, b][1..] == [b] && [b][1..] == [];
    var r := Eval(fuel, sy, a, locals, targs, s);
    if r.Done? {
      var q := Eval(fuel, sy, b, locals, targs, r.sym);
      if q.Done? {
        assert EvalList(fuel, sy, [], locals, targs, q.sym) == Done([], q.sym);
        assert [r.value] + ([q.value] + []) == [r.value, q.value];
      }
    }
  }

  /** Binary operations and index accesses. */
  lemma {:induction false} BinaryRefines<S>(fuel: nat, sy: Symbols<S>, e: PExpr, st: State<S>) returns (k: nat)
    requires e.Binary? || e.IndexE?
    ensures Reaches(sy, fuel, Expand(sy, e, st), k, st, Eval(fuel, sy, e, st.locals, st.targs, st.sym))
    decreases fuel, e, 1
  {
    var a, b := if e.Binary? then e.l else e.arr, if e.Binary? then e.r else e.index;
    k := PairRefines(fuel, sy, e, a, b, st);
    PairList(fuel, sy, a, b, st.locals, st.targs, st.sym);
    OperationValue(fuel, sy, e, st.locals, st.targs, st.sym);
    k := OperationRefines(fuel, sy, e, st, Expand(sy, e, st), k, EvalList(fuel, sy, [a, b], st.locals, st.targs, st.sym),
                          Eval(fuel, sy, e, st.locals, st.targs, st.sym));
  }

  /** Combines the two values of a machine that has evaluated both operands. */
  lemma OperationRefines<S>(fuel: nat, sy: Symbols<S>, e: PExpr, st: State<S>, m: Machine<S>, j: nat, vs: Res<seq<Value>, S>, r: Res<Value, S>)
    returns (k: nat)
    requires e.Binary? || e.IndexE?
    requires ReachesList(sy, fuel, m, j, PushOps(st, [OpCombine(e)]), vs)
    requires vs.OutOfFuel? ==> r.OutOfFuel?
    requires vs.Fail? ==> r == Fail(vs.error)
    requires vs.Done? ==> |vs.value| == 2 && r == Operation(sy, e, vs.value[0], vs.value[1], vs.sym)
    ensures Reaches(sy, fuel, m, k, st, r)
  {
    k := j;
    if vs.Done? {
      CombineTop(sy, m, j, st, e, vs.value, vs.sym);
      CombinePair(sy, e, st.(sym := vs.sym), vs.value[0], vs.value[1]);
      k := j + 1;
    }
  }

  /** The value of a binary operation or index access on two values. */
  function Operation<S>(sy: Symbols<S>, e: PExpr, x: Value, y: Value, s: S): Res<Value, S>
    requires e.Binary? || e.IndexE?
  {
    Lift(if e.Binary? then BinaryOp(sy.p, sy.lib, x, e.op, y) else IndexOp(x, y), s)
  }

  lemma CombinePair<S>(sy: Symbols<S>, e: PExpr, st: State<S>, x: Value, y: Value)
    requires e.Binary? || e.IndexE?
    ensures Combine(sy, e, st.(vals := st.vals + [x, y])) == PushRes(st, Operation(sy, e, x, y, st.sym))
  {
    assert (st.vals + [x, y])[..|st.vals|] == st.vals;
  }

  lemma OperationValue<S>(fuel: nat, sy: Symbols<S>, e: PExpr, locals: seq<Value>, targs: map<string, Type>, s: S)
    requires e.Binary? || e.IndexE?
    ensures var a, b := if e.Binary? then e.l else e.arr, if e.Binary? then e.r else e.index;
            var x := Eval(fuel, sy, a, locals, targs, s);
            var r := Eval(fuel, sy, e, locals, targs, s);
            && (x.OutOfFuel? ==> r.OutOfFuel?)
            && (x.Fail? ==> r == Fail(x.error))
            && (x.Done? ==>
                  var y := Eval(fuel, sy, b, locals, targs, x.sym);
                  && (y.OutOfFuel? ==> r.OutOfFuel?)
                  && (y.Fail? ==> r == Fail(y.error))
                  && (y.Done? ==> r == Operation(sy, e, x.value, y.value, y.sym)))
  {
  }

  /** Evaluates the one sub-expression that comes first, below a pending combination. */
  lemma {:induction false} FirstRefines<S>(fuel: nat, sy: Symbols<S>, e: PExpr, a: PExpr, st: State<S>) returns (k: nat)
    requires a < e && Expand(sy, e, st) == Expand(sy, a, PushOps(st, [OpCombine(e)]))
    ensures var r := Eval(fuel, sy, a, st.locals, st.targs, st.sym);
            match r
            case Done(v, s) => Run(sy, Expand(sy, e, st), k) == Combine(sy, e, PushValue(st, v).(sym := s))
            case Fail(x) => Run(sy, Expand(sy, e, st), k) == Failed(x)
            case OutOfFuel => Unfinished(sy, fuel, Expand(sy, e, st), k, st)
    decreases fuel, e, 0
  {
    var st1 := PushOps(st, [OpCombine(e)]);
    k := ExpandRefines(fuel, sy, a, st1);
    var r := Eval(fuel, sy, a, st.locals, st.targs, st.sym);
    if r.Done? {
      CombineTop(sy, Expand(sy, e, st), k, st, e, [r.value], r.sym);
      k := k + 1;
    }
  }

  lemma {:induction false} UnaryRefines<S>(fuel: nat, sy: Symbols<S>, e: PExpr, st: State<S>) returns (k: nat)
    requires e.Unary?
    ensures Reaches(sy, fuel, Expand(sy, e, st), k, st, Eval(fuel, sy, e, st.locals, st.targs, st.sym))
    decreases fuel, e, 1
  {
    k := FirstRefines(fuel, sy, e, e.e, st);
    var r := Eval(fuel, sy, e.e, st.locals, st.targs, st.sym);
    if r.Done? {
      assert (st.vals + [r.value])[..|st.vals|] == st.vals;
    }
  }

  lemma {:induction false} IfRefines<S>(fuel: nat, sy: Symbols<S>, e: PExpr, st: State<S>) returns (k: nat)
    requires e.IfE?
    ensures Reaches(sy, fuel, Expand(sy, e, st), k, st, Eval(fuel, sy, e, st.locals, st.targs, st.sym))
    decreases fuel, e, 1
  {
    k := FirstRefines(fuel, sy, e, e.cond, st);
    var r := Eval(fuel, sy, e.cond, st.locals, st.targs, st.sym);
    if r.Done? {
      assert (st.vals + [r.value])[..|st.vals|] == st.vals;
      if r.value.VBool? {
        var body := if r.value.b then e.thn else e.els;
        var st1 := st.(sym := r.sym);
        var j := ExpandRefines(fuel, sy, body, st1);
        Continue(sy, Expand(sy, e, st), k, Expand(sy, body, st1), j);
        k := k + j;
      }
    }
  }

  /** A body that runs below an operation which restores the environment afterwards. */
  lemma {:induction false} ScopedRefines<S>(fuel: nat, sy: Symbols<S>, body: PExpr, st: State<S>, inner: State<S>, op: Op) returns (k: nat)
    requires inner.ops == st.ops + [op] && inner.vals == st.vals
    requires op.OpTruncateLocals? ==> inner.targs == st.targs && op.len == |st.locals| && st.locals <= inner.locals
    requires op.OpSetEnvironment? ==> op.locals == st.locals && op.targs == st.targs
    requires op.OpTruncateLocals? || op.OpSetEnvironment?
    ensures Reaches(sy, fuel, Expand(sy, body, inner), k, st, Eval(fuel, sy, body, inner.locals, inner.targs, inner.sym))
    decreases fuel, body, 4
  {
    k := ExpandRefines(fuel, sy, body, inner);
    var r := Eval(fuel, sy, body, inner.locals, inner.targs, inner.sym);
    if r.Done? {
      var st1 := inner.(ops := st.ops, vals := st.vals + [r.value], sym := r.sym);
      assert PushValue(inner, r.value).(sym := r.sym) == PushOps(st1, [op]);
      StepTop(sy, st1, op);
      assert Run(sy, Running(PushOps(st1, [op])), 1) == Run(sy, Perform(sy, op, st1), 0);
      Continue(sy, Expand(sy, body, inner), k, Running(PushOps(st1, [op])), 1);
      if op.OpTruncateLocals? && op.len < |inner.locals| { assert inner.locals[..op.len] == st.locals; }
      k := k + 1;
    }
  }

  lemma {:induction false} MatchRefines<S>(fuel: nat, sy: Symbols<S>, e: PExpr, st: State<S>) returns (k: nat)
    requires e.MatchE?
    ensures Reaches(sy, fuel, Expand(sy, e, st), k, st, Eval(fuel, sy, e, st.locals, st.targs, st.sym))
    decreases fuel, e, 1
  {
    k := FirstRefines(fuel, sy, e, e.scrutinee, st);
    var r := Eval(fuel, sy, e.scrutinee, st.locals, st.targs, st.sym);
    if r.Done? {
      assert (st.vals + [r.value])[..|st.vals|] == st.vals;
      var sel := FindArm(r.value, e.arms);
      if sel.Ok? {
        k := ArmRefines(fuel, sy, e.arms[sel.value.arm].value, sel.value.vars, st, r.sym, Expand(sy, e, st), k);
      }
    }
  }

  /** The selected arm, reached from `m` after `i` steps; its variables are dropped in the end. */
  lemma {:induction false} ArmRefines<S>(fuel: nat, sy: Symbols<S>, body: PExpr, vars: seq<Value>, st: State<S>, s: S, m: Machine<S>, i: nat)
    returns (k: nat)
    requires var st1 := st.(sym := s);
             Run(sy, m, i) == Expand(sy, body, if vars == [] then st1 else PushOps(st1, [OpTruncateLocals(|st.locals|)]).(locals := st.locals + vars))
    ensures Reaches(sy, fuel, m, k, st, Eval(fuel, sy, body, st.locals + vars, st.targs, s))
    decreases fuel, body, 5
  {
    var st1 := st.(sym := s);
    var j;
    if vars == [] {
      assert st.locals + vars == st.locals;
      j := ExpandRefines(fuel, sy, body, st1);
      Continue(sy, m, i, Expand(sy, body, st1), j);
    } else {
      var op := OpTruncateLocals(|st.locals|);
      var inner := PushOps(st1, [op]).(locals := st.locals + vars);
      j := ScopedRefines(fuel, sy, body, st1, inner, op);
      Continue(sy, m, i, Expand(sy, body, inner), j);
    }
    k := i + j;
  }

  // ----- calls -----

  /** The function and its arguments, below the pending call. */
  lemma {:induction false} CalleeRefines<S>(fuel: nat, sy: Symbols<S>, e: PExpr, st: State<S>) returns (k: nat)
    requires e.Call?
    ensures ReachesList(sy, fuel, Expand(sy, e, st), k, PushOps(st, [OpCombine(e)]),
                        EvalList(fuel, sy, [e.f] + e.args, st.locals, st.targs, st.sym))
    decreases fuel, e, 1
  {
    var st1 := PushOps(st, [OpCombine(e)]);
    var m := Expand(sy, e, st);
    PushOpsConcat(st, [OpCombine(e)], ExpandOps(e.args));
    var rest := PushOps(st1, ExpandOps(e.args));
    k := ExpandRefines(fuel, sy, e.f, rest);
    assert ([e.f] + e.args)[1..] == e.args;
    match Eval(fuel, sy, e.f, st.locals, st.targs, st.sym)
    case Fail(_) =>
    case OutOfFuel =>
    case Done(v, s1) =>
      var st2 := PushValue(st1, v).(sym := s1);
      assert PushValue(rest, v).(sym := s1) == PushOps(st2, ExpandOps(e.args));
      var j := ListRefines(fuel, sy, e.args, st2);
      Continue(sy, m, k, Running(PushOps(st2, ExpandOps(e.args))), j);
      ListJoin(fuel, sy, m, k, j, st1, v, s1, EvalList(fuel, sy, e.args, st.locals, st.targs, s1));
      k := k + j;
  }

  lemma CallValue<S>(fuel: nat, sy: Symbols<S>, e: PExpr, locals: seq<Value>, targs: map<string, Type>, s: S)
    requires e.Call?
    ensures Eval(fuel, sy, e, locals, targs, s) ==
            match EvalList(fuel, sy, [e.f] + e.args, locals, targs, s)
            case OutOfFuel => OutOfFuel
            case Fail(x) => Fail(x)
            case Done(vs, s') => Apply(fuel, sy, vs[0], vs[1..], s')
  {
    assert ([e.f] + e.args)[1..] == e.args;
    var r := Eval(fuel, sy, e.f, locals, targs, s);
    if r.Done? {
      var q := EvalList(fuel, sy, e.args, locals, targs, r.sym);
      if q.Done? { assert ([r.value] + q.value)[1..] == q.value; }
    }
  }

  lemma {:induction false} CallRefines<S>(fuel: nat, sy: Symbols<S>, e: PExpr, st: State<S>) returns (k: nat)
    requires e.Call?
    ensures Reaches(sy, fuel, Expand(sy, e, st), k, st, Eval(fuel, sy, e, st.locals, st.targs, st.sym))
    decreases fuel, e, 2
  {
    k := CalleeRefines(fuel, sy, e, st);
    CallValue(fuel, sy, e, st.locals, st.targs, st.sym);
    var r := EvalList(fuel, sy, [e.f] + e.args, st.locals, st.targs, st.sym);
    if r.Done? {
      var callee := Prepare(sy, r.value[0], r.value[1..], r.sym);
      if callee.Immediate? || fuel > 0 {
        CallTop(sy, Expand(sy, e, st), k, st, e, r.value, r.sym);
        k := k + 1;
        if callee.Enter? {
          var j := EnterRefines(fuel, sy, callee, st.(sym := r.sym), Expand(sy, e, st), k);
          k := k + j;
        }
      }
    }
  }

  /** Pops the pending call once the function and its arguments have been evaluated. */
  lemma CallTop<S>(sy: Symbols<S>, m: Machine<S>, k: nat, st: State<S>, e: PExpr, vs: seq<Value>, s: S)
    requires e.Call? && |vs| == |e.args| + 1
    requires Run(sy, m, k) == Running(PushOps(st, [OpCombine(e)]).(vals := st.vals + vs, sym := s))
    ensures Run(sy, m, k + 1) == CombineCall(sy, vs[0], vs[1..], st.(sym := s))
  {
    CombineTop(sy, m, k, st, e, vs, s);
    CombineCallStack(sy, e, st.(sym := s), vs);
  }

  /** Running an entered body and restoring the environment. */
  lemma {:induction false} EnterRefines<S>(fuel: nat, sy: Symbols<S>, callee: Callee<S>, st: State<S>, m: Machine<S>, k: nat) returns (j: nat)
    requires callee.Enter? && fuel > 0 && k >= 1
    requires Run(sy, m, k) == Expand(sy, callee.body, PushOps(st, [OpSetEnvironment(st.locals, st.targs)]).(locals := callee.env, targs := callee.targs))
    ensures Reaches(sy, fuel, m, k + j, st, Eval(fuel - 1, sy, callee.body, callee.env, callee.targs, st.sym))
    decreases fuel - 1, callee.body, 5
  {
    var op := OpSetEnvironment(st.locals, st.targs);
    var inner := PushOps(st, [op]).(locals := callee.env, targs := callee.targs);
    j := ScopedRefines(fuel - 1, sy, callee.body, st, inner, op);
    Continue(sy, m, k, Expand(sy, callee.body, inner), j);
  }

  lemma CombineCallStack<S>(sy: Symbols<S>, e: PExpr, st: State<S>, vs: seq<Value>)
    requires e.Call? && |vs| == |e.args| + 1
    ensures Combine(sy, e, st.(vals := st.vals + vs)) == CombineCall(sy, vs[0], vs[1..], st)
  {
    var all := st.vals + vs;
    var k := |all| - |e.args|;
    assert all[k..] == vs[1..] && all[..k - 1] == st.vals && all[k - 1] == vs[0];
  }

  // ----- blocks -----

  lemma {:induction false} StmtRefines<S>(fuel: nat, sy: Symbols<S>, s: Stmt, st: State<S>) returns (k: nat)
    ensures ReachesLocals(sy, fuel, Running(PushOps(st, StmtOps(s))), k, st, EvalStmt(fuel, sy, s, st.locals, st.targs, st.sym))
    decreases fuel, s, 0
  {
    var m := Running(PushOps(st, StmtOps(s)));
    if s.Let? && s.value.None? {
      k := 1;
      assert StmtOps(s) == [OpLetStatement(s)];
      StepTop(sy, st, OpLetStatement(s));
      assert Run(sy, m, 1) == Run(sy, Step(sy, m), 0);
    } else {
      var op := if s.Let? then OpLetStatement(s) else OpAddProofItem;
      var e := if s.Let? then s.value.value else s.e;
      assert StmtOps(s) == [op] + [OpExpand(e)];
      k := ValueBelow(fuel, sy, e, op, st);
      var r := Eval(fuel, sy, e, st.locals, st.targs, st.sym);
      if r.Done? {
        FinishStmt(fuel, sy, s, st, r.value, r.sym, m, k, op);
        k := k + 1;
      }
    }
  }

  /** Evaluates an expression below a pending operation. */
  lemma {:induction false} ValueBelow<S>(fuel: nat, sy: Symbols<S>, e: PExpr, op: Op, st: State<S>) returns (k: nat)
    ensures var m := Running(PushOps(st, [op] + [OpExpand(e)]));
            match Eval(fuel, sy, e, st.locals, st.targs, st.sym)
            case Done(v, s) => Run(sy, m, k) == Running(PushOps(PushValue(st, v).(sym := s), [op]))
            case Fail(x) => Run(sy, m, k) == Failed(x)
            case OutOfFuel => Unfinished(sy, fuel, m, k, PushOps(st, [op]))
    decreases fuel, e, 5
  {
    var m := Running(PushOps(st, [op] + [OpExpand(e)]));
    PushOpsConcat(st, [op], [OpExpand(e)]);
    var st1 := PushOps(st, [op]);
    StepTop(sy, st1, OpExpand(e));
    var j := ExpandRefines(fuel, sy, e, st1);
    assert Run(sy, m, j + 1) == Run(sy, Expand(sy, e, st1), j);
    k := j + 1;
    var r := Eval(fuel, sy, e, st.locals, st.targs, st.sym);
    if r.Done? { assert PushValue(st1, r.value).(sym := r.sym) == PushOps(PushValue(st, r.value).(sym := r.sym), [op]); }
  }

  /** The operation of a statement, once its value has been pushed. */
  lemma FinishStmt<S>(fuel: nat, sy: Symbols<S>, s: Stmt, st: State<S>, v: Value, sym: S, m: Machine<S>, k: nat, op: Op)
    requires op == if s.Let? then OpLetStatement(s) else OpAddProofItem
    requires s.Let? ==> s.value.Some?
    requires Eval(fuel, sy, if s.Let? then s.value.value else s.e, st.locals, st.targs, st.sym) == Done(v, sym)
    requires Run(sy, m, k) == Running(PushOps(PushValue(st, v).(sym := sym), [op]))
    ensures ReachesLocals(sy, fuel, m, k + 1, st, EvalStmt(fuel, sy, s, st.locals, st.targs, st.sym))
  {
    var st2 := PushValue(st, v).(sym := sym);
    StepTop(sy, st2, op);
    Continue(sy, m, k, Running(PushOps(st2, [op])), 1);
    assert Run(sy, Running(PushOps(st2, [op])), 1) == Run(sy, Perform(sy, op, st2), 0);
    assert st2.vals[..|st2.vals| - 1] == st.vals;
  }

  lemma {:induction false} StmtsRefine<S>(fuel: nat, sy: Symbols<S>, stmts: seq<Stmt>, st: State<S>) returns (k: nat)
    ensures ReachesLocals(sy, fuel, Running(PushOps(st, BlockOps(stmts))), k, st, EvalStmts(fuel, sy, stmts, st.locals, st.targs, st.sym))
    decreases fuel, stmts, 0
  {
    if stmts == [] {
      k := 0;
      assert PushOps(st, []) == st;
    } else {
      var m := Running(PushOps(st, BlockOps(stmts)));
      var rest := PushOps(st, BlockOps(stmts[1..]));
      PushOpsConcat(st, BlockOps(stmts[1..]), StmtOps(stmts[0]));
      k := StmtRefines(fuel, sy, stmts[0], rest);
      var r := EvalStmt(fuel, sy, stmts[0], st.locals, st.targs, st.sym);
      if r.Done? {
        var st1 := st.(locals := r.value, sym := r.sym);
        assert rest.(locals := r.value, sym := r.sym) == PushOps(st1, BlockOps(stmts[1..]));
        var j := StmtsRefine(fuel, sy, stmts[1..], st1);
        Continue(sy, m, k, Running(PushOps(st1, BlockOps(stmts[1..]))), j);
        k := k + j;
      }
    }
  }

  /** After the statements: the result expression is expanded and the locals are truncated. */
  lemma {:induction false} ResultRefines<S>(fuel: nat, sy: Symbols<S>, body: PExpr, st: State<S>, locals: seq<Value>, sym: S, m: Machine<S>, k: nat)
    returns (j: nat)
    requires st.locals <= locals
    requires var op := OpTruncateLocals(|st.locals|);
             Run(sy, m, k) == Running(PushOps(PushOps(st, [op]), [OpExpand(body)]).(locals := locals, sym := sym))
    ensures j >= k && Reaches(sy, fuel, m, j, st, Eval(fuel, sy, body, locals, st.targs, sym))
    decreases fuel, body, 5
  {
    var op := OpTruncateLocals(|st.locals|);
    var inner := PushOps(st, [op]).(locals := locals, sym := sym);
    assert PushOps(PushOps(st, [op]), [OpExpand(body)]).(locals := locals, sym := sym) == PushOps(inner, [OpExpand(body)]);
    StepTop(sy, inner, OpExpand(body));
    j := ScopedRefines(fuel, sy, body, st, inner, op);
    assert Run(sy, Running(PushOps(inner, [OpExpand(body)])), 1 + j) == Run(sy, Expand(sy, body, inner), j);
    Continue(sy, m, k, Running(PushOps(inner, [OpExpand(body)])), 1 + j);
    j := k + (1 + j);
  }

  lemma NoResultRefines<S>(sy: Symbols<S>, st: State<S>, locals: seq<Value>, sym: S, m: Machine<S>, k: nat)
    requires st.locals <= locals
    requires var op := OpTruncateLocals(|st.locals|);
             Run(sy, m, k) == Running(PushValue(PushOps(st, [op]), EMPTY_TUPLE).(locals := locals, sym := sym))
    ensures Run(sy, m, k + 1) == Running(PushValue(st, EMPTY_TUPLE).(sym := sym))
  {
    var op := OpTruncateLocals(|st.locals|);
    var st1 := PushValue(st, EMPTY_TUPLE).(locals := locals, sym := sym);
    assert PushValue(PushOps(st, [op]), EMPTY_TUPLE).(locals := locals, sym := sym) == PushOps(st1, [op]);
    StepTop(sy, st1, op);
    assert Run(sy, Running(PushOps(st1, [op])), 1) == Run(sy, Perform(sy, op, st1), 0);
    Continue(sy, m, k, Running(PushOps(st1, [op])), 1);
    assert |st.locals| < |locals| ==> locals[..|st.locals|] == st.locals;
  }

  lemma {:induction false} BlockRefines<S>(fuel: nat, sy: Symbols<S>, e: PExpr, st: State<S>) returns (k: nat)
    requires e.Block?
    ensures Reaches(sy, fuel, Expand(sy, e, st), k, st, Eval(fuel, sy, e, st.locals, st.targs, st.sym))
    decreases fuel, e, 1
  {
    var m := Expand(sy, e, st);
    var st1 := PushOps(st, [OpTruncateLocals(|st.locals|)]);
    var st2 := if e.result.Some? then PushOps(st1, [OpExpand(e.result.value)]) else PushValue(st1, EMPTY_TUPLE);
    k := StmtsRefine(fuel, sy, e.stmts, st2);
    StmtsExtend(fuel, sy, e.stmts, st.locals, st.targs, st.sym);
    var r := EvalStmts(fuel, sy, e.stmts, st.locals, st.targs, st.sym);
    if r.Done? {
      if e.result.Some? {
        k := ResultRefines(fuel, sy, e.result.value, st, r.value, r.sym, m, k);
      } else {
        NoResultRefines(sy, st, r.value, r.sym, m, k);
        k := k + 1;
      }
    }
  }

  /** Expanding an expression on top of any stacks pushes exactly the value of the recursive semantics,
      restores locals and type arguments, and leaves everything below untouched. */
  lemma {:induction false} ExpandRefines<S>(fuel: nat, sy: Symbols<S>, e: PExpr, st: State<S>) returns (k: nat)
    ensures Reaches(sy, fuel, Expand(sy, e, st), k, st, Eval(fuel, sy, e, st.locals, st.targs, st.sym))
    decreases fuel, e, 3
  {
    if IsLeaf(e) {
      LeafRefines(fuel, sy, e, st);
      k := 0;
    } else {
      match e
      case TupleE(_) => k := SequenceRefines(fuel, sy, e, st);
      case ArrayE(_) => k := SequenceRefines(fuel, sy, e, st);
      case Binary(_, _, _) => k := BinaryRefines(fuel, sy, e, st);
      case IndexE(_, _) => k := BinaryRefines(fuel, sy, e, st);
      case Unary(_, _) => k := UnaryRefines(fuel, sy, e, st);
      case Call(_, _) => k := CallRefines(fuel, sy, e, st);
      case MatchE(_, _) => k := MatchRefines(fuel, sy, e, st);
      case IfE(_, _, _) => k := IfRefines(fuel, sy, e, st);
      case Block(_, _) => k := BlockRefines(fuel, sy, e, st);
    }
  }

  // ----- whole evaluations -----

  /** The machine that evaluates `e` from empty stacks. */
  function Start<S>(sy: Symbols<S>, e: PExpr, targs: map<string, Type>, s: S): Machine<S> {
    Expand(sy, e, Initial(targs, s))
  }

  /** The machine state that corresponds to a finished evaluation. */
  function Final<S>(targs: map<string, Type>, r: Res<Value, S>): Machine<S>
    requires !r.OutOfFuel?
  {
    match r
    case Done(v, s) => Running(State([], [v], [], targs, s))
    case Fail(x) => Failed(x)
  }

  /** If the recursive semantics finishes with some fuel, the machine halts in the corresponding state. */
  lemma MachineReachesEval<S>(fuel: nat, sy: Symbols<S>, e: PExpr, targs: map<string, Type>, s: S) returns (k: nat)
    requires !Eval(fuel, sy, e, [], targs, s).OutOfFuel?
    ensures Run(sy, Start(sy, e, targs, s), k) == Final(targs, Eval(fuel, sy, e, [], targs, s))
  {
    k := ExpandRefines(fuel, sy, e, Initial(targs, s));
  }

  lemma HaltedOnce<S>(sy: Symbols<S>, m: Machine<S>, j: nat, k: nat)
    requires Halted(Run(sy, m, j)) && j <= k
    ensures Run(sy, m, k) == Run(sy, m, j)
  {
    RunAdd(sy, m, j, k - j);
    RunHalted(sy, Run(sy, m, j), k - j);
  }

  /** If the machine halts after `k` steps, fuel `k + 1` suffices for the recursive semantics. */
  lemma HaltingNeedsLittleFuel<S>(sy: Symbols<S>, e: PExpr, targs: map<string, Type>, s: S, k: nat)
    requires Halted(Run(sy, Start(sy, e, targs, s), k))
    ensures !Eval(k + 1, sy, e, [], targs, s).OutOfFuel?
  {
    var j := ExpandRefines(k + 1, sy, e, Initial(targs, s));
    if Eval(k + 1, sy, e, [], targs, s).OutOfFuel? {
      HaltedOnce(sy, Start(sy, e, targs, s), k, j);
      assert false;
    }
  }

  /** The machine and the recursive semantics agree: both finish or neither does, and any finished
      machine state is the one of any sufficiently fuelled evaluation. In particular no stack ever
      underflows. */
  lemma EvaluatorCorrect<S>(sy: Symbols<S>, e: PExpr, targs: map<string, Type>, s: S)
    ensures (exists k: nat :: Halted(Run(sy, Start(sy, e, targs, s), k)))
            <==> exists fuel: nat :: !Eval(fuel, sy, e, [], targs, s).OutOfFuel?
    ensures forall k: nat, fuel: nat ::
              Halted(Run(sy, Start(sy, e, targs, s), k)) && !Eval(fuel, sy, e, [], targs, s).OutOfFuel? ==>
              Run(sy, Start(sy, e, targs, s), k) == Final(targs, Eval(fuel, sy, e, [], targs, s))
  {
    var m := Start(sy, e, targs, s);
    if exists k: nat :: Halted(Run(sy, m, k)) {
      var k: nat :| Halted(Run(sy, m, k));
      HaltingNeedsLittleFuel(sy, e, targs, s, k);
      var fuel := k + 1;
      assert !Eval(fuel, sy, e, [], targs, s).OutOfFuel?;
    }
    if exists fuel: nat :: !Eval(fuel, sy, e, [], targs, s).OutOfFuel? {
      var fuel: nat :| !Eval(fuel, sy, e, [], targs, s).OutOfFuel?;
      var k := MachineReachesEval(fuel, sy, e, targs, s);
      assert Halted(Run(sy, m, k));
    }
    forall k: nat, fuel: nat | Halted(Run(sy, m, k)) && !Eval(fuel, sy, e, [], targs, s).OutOfFuel?
      ensures Run(sy, m, k) == Final(targs, Eval(fuel, sy, e, [], targs, s))
    {
      var j := MachineReachesEval(fuel, sy, e, targs, s);
      if j <= k { HaltedOnce(sy, m, j, k); } else { HaltedOnce(sy, m, k, j); }
    }
  }

  /** At no point of any run does a stack underflow. */
  lemma NeverStuck<S>(sy: Symbols<S>, e: PExpr, targs: map<string, Type>, s: S, k: nat)
    ensures !Run(sy, Start(sy, e, targs, s), k).Stuck?
  {
    if Run(sy, Start(sy, e, targs, s), k).Stuck? {
      HaltingNeedsLittleFuel(sy, e, targs, s, k);
      EvaluatorCorrect(sy, e, targs, s);
      assert false;
    }
  }

  // ----- whole function calls -----

  /** The machine that applies a function value from empty stacks. */
  function CallStart<S>(sy: Symbols<S>, f: Value, args: seq<Value>, targs: map<string, Type>, s: S): Machine<S> {
    CombineCall(sy, f, args, Initial(targs, s))
  }

  /** The entered body, with the environment to be restored below it. */
  lemma CallBody<S>(fuel: nat, sy: Symbols<S>, f: Value, args: seq<Value>, targs: map<string, Type>, s: S) returns (k: nat)
    requires Prepare(sy, f, args, s).Enter?
    ensures var c := Prepare(sy, f, args, s);
            Reaches(sy, fuel, CallStart(sy, f, args, targs, s), k, Initial(targs, s), Eval(fuel, sy, c.body, c.env, c.targs, s))
  {
    var c := Prepare(sy, f, args, s);
    var st, op := Initial(targs, s), OpSetEnvironment([], targs);
    k := ScopedRefines(fuel, sy, c.body, st, PushOps(st, [op]).(locals := c.env, targs := c.targs), op);
  }

  /** If the recursive semantics of the call finishes, the machine halts in the corresponding state. */
  lemma MachineReachesApply<S>(fuel: nat, sy: Symbols<S>, f: Value, args: seq<Value>, targs: map<string, Type>, s: S) returns (k: nat)
    requires !Apply(fuel, sy, f, args, s).OutOfFuel?
    ensures Run(sy, CallStart(sy, f, args, targs, s), k) == Final(targs, Apply(fuel, sy, f, args, s))
  {
    if Prepare(sy, f, args, s).Immediate? { k := 0; } else { k := CallBody(fuel - 1, sy, f, args, targs, s); }
  }

  /** If the machine halts after `k` steps, fuel `k + 2` suffices. */
  lemma HaltingCallNeedsLittleFuel<S>(sy: Symbols<S>, f: Value, args: seq<Value>, targs: map<string, Type>, s: S, k: nat)
    requires Halted(Run(sy, CallStart(sy, f, args, targs, s), k))
    ensures !Apply(k + 2, sy, f, args, s).OutOfFuel?
  {
    if Prepare(sy, f, args, s).Enter? {
      var j := CallBody(k + 1, sy, f, args, targs, s);
      if Apply(k + 2, sy, f, args, s).OutOfFuel? {
        HaltedOnce(sy, CallStart(sy, f, args, targs, s), k, j);
        assert false;
      }
    }
  }

  /** The machine and the recursive semantics agree on function calls. */
  lemma CallCorrect<S>(sy: Symbols<S>, f: Value, args: seq<Value>, targs: map<string, Type>, s: S)
    ensures (exists k: nat :: Halted(Run(sy, CallStart(sy, f, args, targs, s), k)))
            <==> exists fuel: nat :: !Apply(fuel, sy, f, args, s).OutOfFuel?
    ensures forall k: nat, fuel: nat ::
              Halted(Run(sy, CallStart(sy, f, args, targs, s), k)) && !Apply(fuel, sy, f, args, s).OutOfFuel? ==>
              Run(sy, CallStart(sy, f, args, targs, s), k) == Final(targs, Apply(fuel, sy, f, args, s))
  {
    var m := CallStart(sy, f, args, targs, s);
    if exists k: nat :: Halted(Run(sy, m, k)) {
      var k: nat :| Halted(Run(sy, m, k));
      HaltingCallNeedsLittleFuel(sy, f, args, targs, s, k);
      var fuel := k + 2;
      assert !Apply(fuel, sy, f, args, s).OutOfFuel?;
    }
    if exists fuel: nat :: !Apply(fuel, sy, f, args, s).OutOfFuel? {
      var fuel: nat :| !Apply(fuel, sy, f, args, s).OutOfFuel?;
      var k := MachineReachesApply(fuel, sy, f, args, targs, s);
      assert Halted(Run(sy, m, k));
    }
    forall k: nat, fuel: nat | Halted(Run(sy, m, k)) && !Apply(fuel, sy, f, args, s).OutOfFuel?
      ensures Run(sy, m, k) == Final(targs, Apply(fuel, sy, f, args, s))
    {
      var j := MachineReachesApply(fuel, sy, f, args, targs, s);
      if j <= k { HaltedOnce(sy, m, j, k); } else { HaltedOnce(sy, m, k, j); }
    }
  }

  lemma CallNeverStuck<S>(sy: Symbols<S>, f: Value, args: seq<Value>, targs: map<string, Type>, s: S, k: nat)
    ensures !Run(sy, CallStart(sy, f, args, targs, s), k).Stuck?
  {
    if Run(sy, CallStart(sy, f, args, targs, s), k).Stuck? {
      HaltingCallNeedsLittleFuel(sy, f, args, targs, s, k);
      CallCorrect(sy, f, args, targs, s);
      assert false;
    }
  }
}
