/** Laws of the language: what calls, let statements, matches and literals mean, in terms of the values of
    their parts and the instances of patterns. */
module Language {
  import opened Congruence
  import opened Options
  import opened Types
  import opened PilLang
  import opened BigStep
  import opened Patterns
  import Unification
  import Operators

  // ----- functions -----

  /** Calling a lambda expression evaluates its body, in the environment of the lambda extended by what the
      parameters stand for in the arguments. */
  lemma {:induction false} CallBinds<S>(fuel: nat, sy: Symbols<S>, ps: seq<Pattern>, body: PExpr, args: seq<PExpr>, l: seq<Value>,
                                        targs: map<string, Type>, s: S, vs: seq<Value>, s1: S, vars: seq<Value>)
    requires EvalList(fuel + 1, sy, args, l, targs, s) == Done(vs, s1)
    requires |ps| == |vs| && (forall q :: q in ps ==> Proper(q)) && FitsAll(vs, ps, vars)
    ensures Eval(fuel + 1, sy, Call(Lambda(ps, body), args), l, targs, s) == Eval(fuel, sy, body, l + vars, targs, s1)
  {
    BoundParams(vs, ps, vars);
    assert Eval(fuel + 1, sy, Lambda(ps, body), l, targs, s) == Done(VClosure(Code(ps, body, targs), l), s);
  }

  /** A function does not see the local variables of its caller: only those of its definition. */
  lemma ClosureApplies<S>(fuel: nat, sy: Symbols<S>, ps: seq<Pattern>, body: PExpr, ta: map<string, Type>, env: seq<Value>,
                          args: seq<Value>, s: S)
    requires |ps| == |args| && forall q :: q in ps ==> q.VariableP?
    ensures Apply(fuel + 1, sy, VClosure(Code(ps, body, ta), env), args, s) == Eval(fuel, sy, body, env + args, ta, s)
  {
    PlainParams(args, ps);
  }

  /** What a constructor was applied to is what a match on its variant binds; a match on any other variant
      is skipped. */
  lemma {:induction false} ConstructThenMatch<S>(fuel: nat, sy: Symbols<S>, e: PExpr, en: string, variant: string, data: seq<Value>,
                                                 fs: seq<Pattern>, body: PExpr, arms: seq<Arm>, l: seq<Value>, targs: map<string, Type>, s: S, f: Value, s1: S, s2: S, args: seq<PExpr>)
    requires e.Call? && Eval(fuel, sy, e.f, l, targs, s) == Done(VConstructor(en, variant), s1)
    requires EvalList(fuel, sy, e.args, l, targs, s1) == Done(data, s2)
    requires |fs| == |data| && forall q :: q in fs ==> q.VariableP?
    ensures Eval(fuel, sy, MatchE(e, [Arm(EnumP(variant, Fields(fs)), body)] + arms), l, targs, s) == Eval(fuel, sy, body, l + data, targs, s2)
  {
    var v := VEnum(en, variant, Data(data));
    assert Eval(fuel, sy, e, l, targs, s) == Done(v, s2);
    var p := EnumP(variant, Fields(fs));
    AllVariables(p, data, fs);
    var all := [Arm(p, body)] + arms;
    assert FindArm(v, all) == Ok(Selected(data, 0));
  }

  lemma {:induction false} AllVariables(parent: Pattern, vs: seq<Value>, ps: seq<Pattern>)
    requires |vs| == |ps| && forall q :: q in ps ==> q < parent && q.VariableP?
    ensures MatchAll(parent, vs, ps) == Matched(vs)
  {
    if ps != [] {
      assert ps[0] in ps && forall q :: q in ps[1..] ==> q in ps;
      AllVariables(parent, vs[1..], ps[1..]);
      assert [vs[0]] + vs[1..] == vs;
    }
  }

  // ----- statements -----

  /** The types of columns: `col`, `inter`, and arrays of them. */
  predicate OfColumns(ty: Option<Type>) {
    match ty
    case Some(Column) => true
    case Some(Inter) => true
    case Some(Array(base, _)) => base == Column || base == Inter
    case _ => false
  }

  /** `let p: ty = e` binds the variables of `p` to what they stand for in the value of `e`. */
  lemma {:induction false} LetBinds<S>(fuel: nat, sy: Symbols<S>, p: Pattern, ty: Option<Type>, e: PExpr, l: seq<Value>, targs: map<string, Type>, s: S,
                                       v: Value, s1: S, vars: seq<Value>)
    requires Eval(fuel, sy, e, l, targs, s) == Done(v, s1) && Proper(p) && Fits(v, p, vars) && !OfColumns(ty)
    ensures EvalStmt(fuel, sy, Let(p, ty, Some(e)), l, targs, s) == Done(l + vars, s1)
  {
    MatchMeans(v, p, vars);
  }

  /** `let x: ty = e` with the type of a column, and `let x: ty`, create a column of that name, type and
      value, which `x` stands for afterwards. */
  lemma LetCreates<S>(fuel: nat, sy: Symbols<S>, x: string, ty: Option<Type>, e: Option<PExpr>, l: seq<Value>, targs: map<string, Type>, s: S,
                      v: Option<Value>, s1: S, c: Value, s2: S)
    requires e.None? || OfColumns(ty)
    requires match e
             case None => v == None && s1 == s
             case Some(a) => v.Some? && Eval(fuel, sy, a, l, targs, s) == Done(v.value, s1)
    requires sy.newColumn(s1, x, ty, v) == Ok((c, s2))
    ensures EvalStmt(fuel, sy, Let(VariableP(x), ty, e), l, targs, s) == Done(l + [c], s2)
  {
    assert MatchPattern(c, VariableP(x)) == Matched([c]);
  }

  /** An expression statement hands its value to the proof items, unless that is the empty tuple. */
  lemma DoAdds<S>(fuel: nat, sy: Symbols<S>, e: PExpr, l: seq<Value>, targs: map<string, Type>, s: S, v: Value, s1: S, s2: S)
    requires Eval(fuel, sy, e, l, targs, s) == Done(v, s1)
    requires if v == VTuple([]) then s2 == s1 else sy.addProofItems(s1, v) == Ok(s2)
    ensures EvalStmt(fuel, sy, Do(e), l, targs, s) == Done(l, s2)
  {
  }

  /** Statements run in order, and each sees the variables of those before it. */
  lemma {:induction false} BlockScope<S>(fuel: nat, sy: Symbols<S>, a: seq<Stmt>, b: seq<Stmt>, l: seq<Value>, targs: map<string, Type>, s: S)
    ensures EvalStmts(fuel, sy, a + b, l, targs, s) ==
            match EvalStmts(fuel, sy, a, l, targs, s)
            case Done(l1, s1) => EvalStmts(fuel, sy, b, l1, targs, s1)
            case r => r
  {
    if a == [] {
      assert a + b == b;
    } else {
      assert (a + b)[0] == a[0] && (a + b)[1..] == a[1..] + b;
      var r := EvalStmt(fuel, sy, a[0], l, targs, s);
      if r.Done? { BlockScope(fuel, sy, a[1..], b, r.value, targs, r.sym); }
    }
  }

  // ----- literals and arrays -----

  /** The types that a number literal can have. */
  predicate Numeric(ty: Type) { ty.Int? || ty.Fe? || ty.Expression? }

  /** A literal stands for its number in its type, which it must fit; a type variable stands for its argument;
      without a type it is an integer. */
  lemma LiteralMeaning(p: Modulus, n: nat, ty: Type, targs: map<string, Type>, x: string, t: Operators.Trace, k: int)
    requires Numeric(ty)
    ensures var v := Literal<Code>(p, n, Some(ty), targs);
            if ty != Int && n >= p then v == Err(TypeError)
            else v.Ok? && if ty == Expression then v.value.VExpr? && Operators.AlgValue(p, t, k, v.value.alg) == n
                          else (v.value.VInt? <==> ty == Int) && Fits(v.value, NumberP(n), [])
    ensures Literal<Code>(p, n, Some(TypeVar(x)), map[x := ty]) == Literal(p, n, Some(ty), targs)
    ensures Literal<Code>(p, n, None, targs) == Literal(p, n, Some(Int), targs)
  {
  }

  /** A generic symbol is looked up with the type arguments it is given, in which the type variables of the
      function stand for the arguments of the function. */
  lemma GenericSymbol<S>(fuel: nat, sy: Symbols<S>, n: string, ts: seq<Type>, l: seq<Value>, targs: map<string, Type>, s: S)
    requires n !in sy.builtins
    ensures Eval(fuel, sy, Global(n, Some(ts)), l, targs, s) == LiftPair(sy.lookup(s, n, Some(Unification.MapAll(Unification.Fn(targs), ts))))
    ensures Eval(fuel, sy, Global(n, None), l, targs, s) == LiftPair(sy.lookup(s, n, None))
  {
    Unification.SubstitutionsAreApply(targs, ts);
  }

  /** The k-th item of an array literal is the value of its k-th expression. */
  lemma {:induction false} IndexLiteral<S>(fuel: nat, sy: Symbols<S>, es: seq<PExpr>, k: nat, l: seq<Value>, targs: map<string, Type>, s: S, vs: seq<Value>, s1: S)
    requires EvalList(fuel, sy, es, l, targs, s) == Done(vs, s1)
    ensures Eval(fuel, sy, IndexE(ArrayE(es), Number(k, None)), l, targs, s) == (if k < |es| then Done(vs[k], s1) else Fail(OutOfBounds))
    ensures k < |es| ==> exists s0, s2 :: Eval(fuel, sy, es[k], l, targs, s0) == Done(vs[k], s2)
  {
    assert Eval(fuel, sy, ArrayE(es), l, targs, s) == Done(VArray(vs), s1);
    assert Eval(fuel, sy, Number(k, None), l, targs, s1) == Done(VInt(k), s1);
    if k < |es| { var s0, s2 := ItemAt(fuel, sy, es, k, l, targs, s); }
  }

  lemma {:induction false} ItemAt<S>(fuel: nat, sy: Symbols<S>, es: seq<PExpr>, k: nat, l: seq<Value>, targs: map<string, Type>, s: S)
    returns (s0: S, s2: S)
    requires k < |es| && EvalList(fuel, sy, es, l, targs, s).Done?
    ensures Eval(fuel, sy, es[k], l, targs, s0) == Done(EvalList(fuel, sy, es, l, targs, s).value[k], s2)
  {
    var r := Eval(fuel, sy, es[0], l, targs, s);
    if k == 0 { s0, s2 := s, r.sym; } else { s0, s2 := ItemAt(fuel, sy, es[1..], k - 1, l, targs, r.sym); }
  }
}
