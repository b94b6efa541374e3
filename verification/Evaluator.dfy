/** The evaluator as it works in the source: a loop over mutable stacks. */
module Evaluator {
  import opened Options
  import opened Types
  import opened PilLang
  import opened BigStep
  import SM = StackMachine
  import Refinement

  /** The outcome of an operation, and the state it leaves, are those of the machine `m`. */
  ghost predicate Agrees<S>(m: SM.Machine<S>, err: Option<Error>, st: SM.State<S>) {
    match m
    case Running(st') => err.None? && st == st'
    case Failed(e) => err == Some(e)
    case Stuck => err == Some(Panic)
  }

  /** The operations of a block, pushed for the last statement first. */
  method StatementOps(stmts: seq<Stmt>) returns (ops: seq<SM.Op>)
    ensures ops == SM.BlockOps(stmts)
  {
    ops := [];
    var n := |stmts|;
    while n > 0
      invariant 0 <= n <= |stmts| && ops == SM.BlockOps(stmts[n..])
    {
      n := n - 1;
      assert stmts[n..][0] == stmts[n] && stmts[n..][1..] == stmts[n + 1..];
      match stmts[n] {
        case Let(_, _, v) =>
          ops := ops + ([SM.OpLetStatement(stmts[n])] + if v.Some? then [SM.OpExpand(v.value)] else []);
        case Do(e) => ops := ops + [SM.OpAddProofItem, SM.OpExpand(e)];
      }
    }
    assert stmts[0..] == stmts;
  }

  class Evaluator<S> {
    const symbols: Symbols<S>
    var sym: S
    var localVars: seq<Value>
    var typeArgs: map<string, Type>
    var opStack: seq<SM.Op>
    var valueStack: seq<Value>

    ghost function State(): SM.State<S>
      reads this
    {
      SM.State(opStack, valueStack, localVars, typeArgs, sym)
    }

    constructor (sy: Symbols<S>, targs: map<string, Type>, s: S)
      ensures symbols == sy && State() == SM.Initial(targs, s)
    {
      symbols, sym, localVars, typeArgs, opStack, valueStack := sy, s, [], targs, [], [];
    }

    /** Pushes a result of the symbol table. */
    method PushResult(r: Res<Value, S>) returns (err: Option<Error>)
      modifies this
      ensures Agrees(SM.PushRes(old(State()), r), err, State())
    {
      match r
      case Done(v, s) =>
        valueStack, sym := valueStack + [v], s;
        err := None;
      case Fail(e) => err := Some(e);
      case OutOfFuel => err := Some(Panic);
    }

    /** Evaluates a leaf expression or expands a complex expression. */
    method Expand(e: PExpr) returns (err: Option<Error>)
      modifies this
      ensures Agrees(SM.Expand(symbols, e, old(State())), err, State())
      decreases e, 1
    {
      if IsLeaf(e) {
        err := PushResult(EvalLeaf(symbols, e, localVars, typeArgs, sym));
        return;
      }
      match e
      case TupleE(items) => err := ExpandItems(e, items);
      case ArrayE(items) => err := ExpandItems(e, items);
      case Binary(_, l, r) =>
        opStack := opStack + [SM.OpCombine(e), SM.OpExpand(r)];
        err := Expand(l);
      case Unary(_, a) =>
        opStack := opStack + [SM.OpCombine(e)];
        err := Expand(a);
      case IndexE(a, i) =>
        opStack := opStack + [SM.OpCombine(e), SM.OpExpand(i)];
        err := Expand(a);
      case Call(f, args) =>
        opStack := opStack + ([SM.OpCombine(e)] + SM.ExpandOps(args));
        err := Expand(f);
      case MatchE(c, _) =>
        opStack := opStack + [SM.OpCombine(e)];
        err := Expand(c);
      case IfE(c, _, _) =>
        opStack := opStack + [SM.OpCombine(e)];
        err := Expand(c);
      case Block(stmts, result) => err := ExpandBlock(stmts, result);
    }

    method ExpandItems(e: PExpr, items: seq<PExpr>) returns (err: Option<Error>)
      requires forall x :: x in items ==> x < e
      modifies this
      ensures Agrees(SM.ExpandItems(symbols, e, items, old(State())), err, State())
      decreases e, 0
    {
      if items == [] {
        opStack := opStack + [SM.OpCombine(e)];
        err := None;
      } else {
        assert items[0] in items;
        opStack := opStack + ([SM.OpCombine(e)] + SM.ExpandOps(items[1..]));
        err := Expand(items[0]);
      }
    }

    /** Pushes the operations of a block, last statement first. */
    method ExpandBlock(stmts: seq<Stmt>, result: Option<PExpr>) returns (err: Option<Error>)
      modifies this
      ensures err.None?
      ensures var st1 := SM.PushOps(old(State()), [SM.OpTruncateLocals(|old(localVars)|)]);
              var st2 := if result.Some? then SM.PushOps(st1, [SM.OpExpand(result.value)]) else SM.PushValue(st1, EMPTY_TUPLE);
              State() == SM.PushOps(st2, SM.BlockOps(stmts))
    {
      opStack := opStack + [SM.OpTruncateLocals(|localVars|)];
      if result.Some? { opStack := opStack + [SM.OpExpand(result.value)]; } else { valueStack := valueStack + [EMPTY_TUPLE]; }
      var ops := StatementOps(stmts);
      opStack := opStack + ops;
      err := None;
    }

    /** Evaluates a complex expression from the values of its sub-expressions. */
    method Combine(e: PExpr) returns (err: Option<Error>)
      modifies this
      ensures Agrees(SM.Combine(symbols, e, old(State())), err, State())
    {
      match e
      case TupleE(_) => err := CombineItems(e);
      case ArrayE(_) => err := CombineItems(e);
      case Binary(_, _, _) => err := CombineTwo(e);
      case Unary(_, _) => err := CombineOne(e);
      case IndexE(_, _) => err := CombineTwo(e);
      case Call(_, args) => err := CombineCall(e);
      case MatchE(_, _) => err := CombineOne(e);
      case IfE(_, _, _) => err := CombineOne(e);
      case _ => err := Some(Panic);
    }

    method CombineItems(e: PExpr) returns (err: Option<Error>)
      requires e.TupleE? || e.ArrayE?
      modifies this
      ensures Agrees(SM.Combine(symbols, e, old(State())), err, State())
    {
      var n, k := |valueStack|, |e.items|;
      if n < k { return Some(Panic); }
      var inner := valueStack[n - k..];
      valueStack := valueStack[..n - k];
      err := PushResult(Done(if e.TupleE? then VTuple(inner) else VArray(inner), sym));
    }

    method CombineTwo(e: PExpr) returns (err: Option<Error>)
      requires e.Binary? || e.IndexE?
      modifies this
      ensures Agrees(SM.Combine(symbols, e, old(State())), err, State())
    {
      var n := |valueStack|;
      if n < 2 { return Some(Panic); }
      var right, left := valueStack[n - 1], valueStack[n - 2];
      valueStack := valueStack[..n - 2];
      var r := if e.Binary? then BinaryOp(symbols.p, symbols.lib, left, e.op, right) else IndexOp(left, right);
      err := PushResult(Lift(r, sym));
    }

    method CombineOne(e: PExpr) returns (err: Option<Error>)
      requires e.Unary? || e.MatchE? || e.IfE?
      modifies this
      ensures Agrees(SM.Combine(symbols, e, old(State())), err, State())
    {
      var n := |valueStack|;
      if n < 1 { return Some(Panic); }
      var v := valueStack[n - 1];
      valueStack := valueStack[..n - 1];
      if e.Unary? {
        err := PushResult(Lift(UnaryOp(symbols.p, e.uop, v), sym));
      } else if e.MatchE? {
        err := CombineMatch(v, e.arms);
      } else if v.VBool? {
        err := Expand(if v.b then e.thn else e.els);
      } else {
        err := Some(TypeError);
      }
    }

    method CombineCall(e: PExpr) returns (err: Option<Error>)
      requires e.Call?
      modifies this
      ensures Agrees(SM.Combine(symbols, e, old(State())), err, State())
    {
      var n := |valueStack|;
      if n < |e.args| + 1 { return Some(Panic); }
      var k := n - |e.args|;
      var arguments, f := valueStack[k..], valueStack[k - 1];
      valueStack := valueStack[..k - 1];
      err := CombineFunctionCall(f, arguments);
    }

    method CombineFunctionCall(f: Value, args: seq<Value>) returns (err: Option<Error>)
      modifies this
      ensures Agrees(SM.CombineCall(symbols, f, args, old(State())), err, State())
    {
      match Prepare(symbols, f, args, sym)
      case Immediate(r) => err := PushResult(r);
      case Enter(body, env, ta) =>
        opStack := opStack + [SM.OpSetEnvironment(localVars, typeArgs)];
        localVars, typeArgs := env, ta;
        err := Expand(body);
    }

    method CombineMatch(v: Value, arms: seq<Arm>) returns (err: Option<Error>)
      modifies this
      ensures Agrees(SM.CombineMatch(symbols, v, arms, old(State())), err, State())
    {
      match FindArm(v, arms)
      case Err(x) => err := Some(x);
      case Ok(sel) =>
        if sel.vars != [] {
          opStack := opStack + [SM.OpTruncateLocals(|localVars|)];
          localVars := localVars + sel.vars;
        }
        err := Expand(arms[sel.arm].value);
    }

    method EvaluateLetStatement(s: Stmt) returns (err: Option<Error>)
      modifies this
      ensures Agrees(SM.LetStatement(symbols, s, old(State())), err, State())
    {
      if !s.Let? { return Some(Panic); }
      var v := None;
      if s.value.Some? {
        if valueStack == [] { return Some(Panic); }
        v := Some(valueStack[|valueStack| - 1]);
        valueStack := valueStack[..|valueStack| - 1];
      }
      match LetVars(symbols, s.pattern, s.ty, v, sym)
      case Done(vars, s1) =>
        localVars, sym := localVars + vars, s1;
        err := None;
      case Fail(x) => err := Some(x);
      case OutOfFuel => err := Some(Panic);
    }

    method AddProofItem() returns (err: Option<Error>)
      modifies this
      ensures Agrees(SM.AddProofItem(symbols, old(State())), err, State())
    {
      if valueStack == [] { return Some(Panic); }
      var result := valueStack[|valueStack| - 1];
      match ProofItem(symbols, result, sym)
      case Ok(s) =>
        valueStack, sym := valueStack[..|valueStack| - 1], s;
        err := None;
      case Err(x) => err := Some(x);
    }

    /** Performs the topmost operation. */
    method PerformTop() returns (err: Option<Error>)
      requires opStack != []
      modifies this
      ensures Agrees(SM.Step(symbols, SM.Running(old(State()))), err, State())
    {
      var op := opStack[|opStack| - 1];
      opStack := opStack[..|opStack| - 1];
      match op
      case OpExpand(e) => err := Expand(e);
      case OpCombine(e) => err := Combine(e);
      case OpTruncateLocals(len) =>
        if len < |localVars| { localVars := localVars[..len]; }
        err := None;
      case OpSetEnvironment(l, ta) =>
        localVars, typeArgs := l, ta;
        err := None;
      case OpLetStatement(s) => err := EvaluateLetStatement(s);
      case OpAddProofItem => err := AddProofItem();
    }
  
    /** The main loop: performs the topmost operation until none is left, at most `steps` times. The
        result is missing if operations remain. */
    method Evaluate(steps: nat) returns (r: Option<Outcome<Value>>)
      modifies this
      ensures var m := SM.Run(symbols, SM.Running(old(State())), steps);
              && (r.None? <==> m.Running? && m.st.ops != [])
              && (m.Running? && m.st.ops == [] && |m.st.vals| == 1 ==> r == Some(Ok(m.st.vals[0])) && sym == m.st.sym)
              && (m.Failed? ==> r == Some(Err(m.error)))
    {
      ghost var start := SM.Running(State());
      var n := 0;
      var err: Option<Error> := None;
      while n < steps && opStack != []
        invariant n <= steps && Agrees(SM.Run(symbols, start, n), None, State())
      {
        StepOnce(symbols, start, n);
        err := PerformTop();
        n := n + 1;
        if err.Some? {
          StaysFailed(symbols, start, n, steps);
          return Some(Err(err.value));
        }
      }
      if opStack != [] { return None; }
      Refinement.HaltedOnce(symbols, start, n, steps);
      if |valueStack| != 1 { return Some(Err(Panic)); }
      var v := valueStack[0];
      valueStack := [];
      r := Some(Ok(v));
    }

    /** The same loop without a bound, for an evaluation that ends after some number of steps. */
    method EvaluateToEnd(ghost k: nat) returns (r: Outcome<Value>)
      requires SM.Halted(SM.Run(symbols, SM.Running(State()), k))
      modifies this
      ensures var m := SM.Run(symbols, SM.Running(old(State())), k);
              && (m.Running? && |m.st.vals| == 1 ==> r == Ok(m.st.vals[0]) && sym == m.st.sym)
              && (m.Failed? ==> r == Err(m.error))
    {
      ghost var start := SM.Running(State());
      ghost var n := 0;
      while opStack != []
        invariant n <= k && Agrees(SM.Run(symbols, start, n), None, State())
        decreases k - n
      {
        StepOnce(symbols, start, n);
        var err := PerformTop();
        n := n + 1;
        if err.Some? {
          StaysFailed(symbols, start, n, k);
          return Err(err.value);
        }
      }
      Refinement.HaltedOnce(symbols, start, n, k);
      if |valueStack| != 1 { return Err(Panic); }
      var v := valueStack[0];
      valueStack := [];
      r := Ok(v);
    }
  }

  lemma StepOnce<S>(sy: Symbols<S>, m: SM.Machine<S>, n: nat)
    ensures SM.Run(sy, m, n + 1) == SM.Step(sy, SM.Run(sy, m, n))
  {
    Refinement.RunAdd(sy, m, n, 1);
    assert SM.Run(sy, SM.Run(sy, m, n), 1) == SM.Run(sy, SM.Step(sy, SM.Run(sy, m, n)), 0);
  }

  lemma StaysFailed<S>(sy: Symbols<S>, m: SM.Machine<S>, n: nat, k: nat)
    requires n <= k && !SM.Run(sy, m, n).Running?
    ensures SM.Run(sy, m, k) == SM.Run(sy, m, n)
  {
    Refinement.HaltedOnce(sy, m, n, k);
  }

  /** Evaluates an expression from empty stacks. A result within the given number of steps is the
      result of the recursive semantics; no stack underflows and exactly one value is left. */
  method EvaluateExpression<S>(sy: Symbols<S>, e: PExpr, targs: map<string, Type>, s: S, steps: nat) returns (r: Option<Outcome<Value>>, s': S)
    ensures r.Some? ==>
              Eval(steps + 1, sy, e, [], targs, s) == (match r.value case Ok(v) => Done(v, s') case Err(x) => Fail(x))
    ensures r.None? ==> !SM.Halted(SM.Run(sy, Refinement.Start(sy, e, targs, s), steps))
  {
    var ev := new Evaluator(sy, targs, s);
    ghost var start := Refinement.Start(sy, e, targs, s);
    Refinement.NeverStuck(sy, e, targs, s, steps);
    Refinement.NeverStuck(sy, e, targs, s, 0);
    var err := ev.Expand(e);
    if err.Some? {
      StaysFailed(sy, start, 0, steps);
      r := Some(Err(err.value));
    } else {
      r := ev.Evaluate(steps);
    }
    s' := ev.sym;
    if r.Some? {
      Refinement.HaltingNeedsLittleFuel(sy, e, targs, s, steps);
      Refinement.EvaluatorCorrect(sy, e, targs, s);
      assert SM.Run(sy, start, steps) == Refinement.Final(targs, Eval(steps + 1, sy, e, [], targs, s));
    }
  }

  /** Whenever the recursive semantics has a result, the evaluator terminates with it. */
  method EvaluateTerminating<S>(sy: Symbols<S>, e: PExpr, targs: map<string, Type>, s: S, ghost fuel: nat) returns (r: Outcome<Value>, s': S)
    requires !Eval(fuel, sy, e, [], targs, s).OutOfFuel?
    ensures Eval(fuel, sy, e, [], targs, s) == (match r case Ok(v) => Done(v, s') case Err(x) => Fail(x))
  {
    var ev := new Evaluator(sy, targs, s);
    ghost var start := Refinement.Start(sy, e, targs, s);
    Refinement.EvaluatorCorrect(sy, e, targs, s);
    ghost var k: nat :| SM.Halted(SM.Run(sy, start, k));
    Refinement.NeverStuck(sy, e, targs, s, k);
    Refinement.NeverStuck(sy, e, targs, s, 0);
    var err := ev.Expand(e);
    if err.Some? {
      StaysFailed(sy, start, 0, k);
      r := Err(err.value);
    } else {
      r := ev.EvaluateToEnd(k);
    }
    s' := ev.sym;
    assert SM.Run(sy, start, k) == Refinement.Final(targs, Eval(fuel, sy, e, [], targs, s));
  }

  /** Applies a function value from empty stacks: whenever the recursive semantics of the call has a
      result, the evaluator terminates with it. */
  method EvaluateFunctionCall<S>(sy: Symbols<S>, f: Value, args: seq<Value>, targs: map<string, Type>, s: S, ghost fuel: nat)
    returns (r: Outcome<Value>, s': S)
    requires !Apply(fuel, sy, f, args, s).OutOfFuel?
    ensures Apply(fuel, sy, f, args, s) == (match r case Ok(v) => Done(v, s') case Err(x) => Fail(x))
  {
    var ev := new Evaluator(sy, targs, s);
    ghost var start := Refinement.CallStart(sy, f, args, targs, s);
    Refinement.CallCorrect(sy, f, args, targs, s);
    ghost var k: nat :| SM.Halted(SM.Run(sy, start, k));
    Refinement.CallNeverStuck(sy, f, args, targs, s, k);
    Refinement.CallNeverStuck(sy, f, args, targs, s, 0);
    var err := ev.CombineFunctionCall(f, args);
    if err.Some? {
      StaysFailed(sy, start, 0, k);
      r := Err(err.value);
    } else {
      r := ev.EvaluateToEnd(k);
    }
    s' := ev.sym;
    assert SM.Run(sy, start, k) == Refinement.Final(targs, Apply(fuel, sy, f, args, s));
  }
}
