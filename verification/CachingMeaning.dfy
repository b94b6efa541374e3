/** What the caching evaluator computes: over a field it gives the value of the expression on a row of any
    trace in which the intermediate columns have the values of their definitions. */
module CachingMeaning {
  import opened Options
  import opened Collections
  import opened Congruence
  import opened PilLang
  import opened CachingEvaluator
  import opened Operators

  // ----- when there is a value -----

  /** Sums, differences and products, and powers with a literal exponent below 2^32. */
  predicate Supports(op: BinOp, r: Alg) { op in {AddOp, SubOp, MulOp} || (op == PowOp && r.AlgNum? && 0 <= r.n < 0x1_0000_0000) }

  /** All operators are supported and all intermediate columns are defined, here and in the definitions used. */
  ghost predicate Evaluable(defs: Definitions, rank: Key -> nat, a: Alg)
    requires Acyclic(defs, rank)
    decreases Height(rank, a), a
  {
    match a
    case AlgRef(_, t, id, next) =>
      var key := Key(t, id, next);
      t == Intermediate ==> key in defs && (DefinitionLower(defs, rank, a, key); Evaluable(defs, rank, defs[key]))
    case AlgNeg(e) => Evaluable(defs, rank, e)
    case AlgBin(op, l, r) => Supports(op, r) && Evaluable(defs, rank, l) && (op != PowOp ==> Evaluable(defs, rank, r))
    case _ => true
  }

  lemma DefinitionLower(defs: Definitions, rank: Key -> nat, a: Alg, key: Key)
    requires Acyclic(defs, rank) && a.AlgRef? && a.ptype == Intermediate && key == Key(a.ptype, a.id, a.next) && key in defs
    ensures Height(rank, defs[key]) < Height(rank, a)
  {
  }

  lemma {:induction false} HasValueIff<V>(x: Access<V>, defs: Definitions, rank: Key -> nat, a: Alg)
    requires Acyclic(defs, rank)
    ensures FullValue(x, defs, rank, a).Some? <==> Evaluable(defs, rank, a)
    decreases Height(rank, a), a
  {
    match a
    case AlgRef(_, t, id, next) =>
      var key := Key(t, id, next);
      if t == Intermediate && key in defs {
        DefinitionLower(defs, rank, a, key);
        HasValueIff(x, defs, rank, defs[key]);
      }
    case AlgNeg(e) => HasValueIff(x, defs, rank, e);
    case AlgBin(op, l, r) => HasValueIff(x, defs, rank, l); if op != PowOp { HasValueIff(x, defs, rank, r); }
    case _ =>
  }

  // ----- the value in a field -----

  /** The operations of the field, and the columns on row `k` of a trace. */
  function FieldAccess(p: Modulus, t: Trace, k: int): Access<int> {
    Access((a: Alg) => if a.AlgRef? then t.cell(a.ptype, a.id, if a.next then k + 1 else k) else 0,
           t.public, (id: nat, stage: nat) => t.challenge(id, stage), (n: int) => Rep(p, n),
           (x: int, y: int) => Rep(p, x + y), (x: int, y: int) => Rep(p, x - y), (x: int, y: int) => Rep(p, x * y), (x: int) => Rep(p, 0 - x))
  }

  /** Numbers are field elements. */
  predicate Literals(p: Modulus, a: Alg) {
    match a
    case AlgNum(n) => 0 <= n < p
    case AlgNeg(e) => Literals(p, e)
    case AlgBin(_, l, r) => Literals(p, l) && Literals(p, r)
    case _ => true
  }

  /** On row `k` every intermediate column, here and on the next row, has the value of its definition. */
  ghost predicate Consistent(p: Modulus, t: Trace, k: int, defs: Definitions) {
    forall key :: key in defs ==>
      Literals(p, defs[key]) && Cong(p, t.cell(key.ptype, key.id, if key.next then k + 1 else k), AlgValue(p, t, k, defs[key]))
  }

  lemma {:induction false} RepeatedIsPower(p: Modulus, t: Trace, k: int, x: int, y: int, n: nat)
    requires Cong(p, x, y)
    ensures Cong(p, Repeated(FieldAccess(p, t, k), x, n), Pow(y, n))
  {
    if n > 0 {
      RepeatedIsPower(p, t, k, x, y, n - 1);
      var z := Repeated(FieldAccess(p, t, k), x, n - 1);
      CongMul(p, z, Pow(y, n - 1), x, y);
      assert Pow(y, n) == Pow(y, n - 1) * y;
    }
  }

  lemma {:induction false} OperationMeaning(p: Modulus, t: Trace, k: int, op: BinOp, a: int, b: int, x: int, y: int)
    requires op in {AddOp, SubOp, MulOp} && Cong(p, a, x) && Cong(p, b, y)
    ensures var v := Operation(FieldAccess(p, t, k), op, a, b); v.Some? && Cong(p, v.value, FieldValue(op, x, y))
  {
    CongAdd(p, a, x, b, y);
    CongSub(p, a, x, b, y);
    CongMul(p, a, x, b, y);
  }

  /** The value is that of the expression on the row. */
  lemma {:induction false} EvaluatorMeaning(p: Modulus, t: Trace, k: int, defs: Definitions, rank: Key -> nat, a: Alg)
    requires Acyclic(defs, rank) && Consistent(p, t, k, defs) && Literals(p, a)
    requires FullValue(FieldAccess(p, t, k), defs, rank, a).Some?
    ensures Cong(p, FullValue(FieldAccess(p, t, k), defs, rank, a).value, AlgValue(p, t, k, a))
    decreases Height(rank, a), a
  {
    var x := FieldAccess(p, t, k);
    match a
    case AlgRef(_, ptype, id, next) =>
      if ptype == Intermediate {
        var key := Key(ptype, id, next);
        assert key in defs;
        DefinitionLower(defs, rank, a, key);
        EvaluatorMeaning(p, t, k, defs, rank, defs[key]);
      }
    case AlgNeg(e) =>
      EvaluatorMeaning(p, t, k, defs, rank, e);
      CongSub(p, 0, 0, FullValue(x, defs, rank, e).value, AlgValue(p, t, k, e));
    case AlgBin(op, l, r) =>
      HasValueIff(x, defs, rank, a);
      EvaluatorMeaning(p, t, k, defs, rank, l);
      if op == PowOp {
        RepCanonical(p, r.n);
        RepeatedIsPower(p, t, k, FullValue(x, defs, rank, l).value, AlgValue(p, t, k, l), r.n);
      } else {
        EvaluatorMeaning(p, t, k, defs, rank, r);
        OperationMeaning(p, t, k, op, FullValue(x, defs, rank, l).value, FullValue(x, defs, rank, r).value,
                         AlgValue(p, t, k, l), AlgValue(p, t, k, r));
      }
    case _ =>
  }
}
