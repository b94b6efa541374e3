/** What the operators of the evaluator compute: the laws of integers, field elements, sequences and
    truth values, and the meaning of the algebraic expressions and constraints they build. */
module Operators {
  import opened Congruence
  import opened Options
  import opened Types
  import opened PilLang
  import opened BigStep
  import SM = StackMachine
  import Refinement

  // ----- integers -----

  /** The result of an operator on integers is the integer `z`. */
  predicate IsInt(p: Modulus, lib: IntLib, x: int, op: BinOp, y: int, z: int) {
    BinaryOp<Code>(p, lib, VInt(x), op, VInt(y)) == Ok(VInt(z))
  }

  /** The truth value of a comparison of integers. */
  predicate Compares(p: Modulus, lib: IntLib, x: int, op: BinOp, y: int, b: bool) {
    BinaryOp<Code>(p, lib, VInt(x), op, VInt(y)) == Ok(VBool(b))
  }

  /** Addition and subtraction undo each other; addition is commutative and has unit 0. */
  lemma IntegerAddition(p: Modulus, lib: IntLib, x: int, y: int)
    ensures exists z :: IsInt(p, lib, x, AddOp, y, z) && IsInt(p, lib, y, AddOp, x, z) && IsInt(p, lib, z, SubOp, y, x)
    ensures exists z :: IsInt(p, lib, x, SubOp, y, z) && IsInt(p, lib, z, AddOp, y, x)
    ensures IsInt(p, lib, x, AddOp, 0, x)
  {
    assert IsInt(p, lib, x, AddOp, y, x + y);
    assert IsInt(p, lib, x, SubOp, y, x - y);
  }

  /** Minus gives the additive inverse. */
  lemma IntegerNegation(p: Modulus, lib: IntLib, x: int)
    ensures exists z :: UnaryOp<Code>(p, Minus, VInt(x)) == Ok(VInt(z)) && IsInt(p, lib, x, AddOp, z, 0)
  {
    assert UnaryOp<Code>(p, Minus, VInt(x)) == Ok(VInt(-x));
  }

  /** Multiplication has unit 1, and distributes over addition from either side: it is repeated addition. */
  lemma IntegerMultiplication(p: Modulus, lib: IntLib, x: int, y: int, z: int)
    ensures IsInt(p, lib, x, MulOp, 1, x) && IsInt(p, lib, 1, MulOp, x, x)
    ensures exists s, a, b, c :: IsInt(p, lib, y, AddOp, z, s) && IsInt(p, lib, x, MulOp, y, a) && IsInt(p, lib, x, MulOp, z, b)
                                 && IsInt(p, lib, a, AddOp, b, c) && IsInt(p, lib, x, MulOp, s, c)
    ensures exists a :: IsInt(p, lib, x, MulOp, y, a) && IsInt(p, lib, y, MulOp, x, a)
  {
    Spread(x, y, z);
    assert IsInt(p, lib, y, AddOp, z, y + z) && IsInt(p, lib, x, MulOp, y, x * y) && IsInt(p, lib, x, MulOp, z, x * z)
           && IsInt(p, lib, x * y, AddOp, x * z, x * y + x * z) && IsInt(p, lib, x, MulOp, y + z, x * y + x * z);
  }

  lemma Spread(x: int, y: int, z: int)
    ensures x * (y + z) == x * y + x * z && x * y == y * x
  {
  }

  /** Exactly one of `<`, `==` and `>` holds; `<=`, `>=` and `!=` are the complements; and the order is that
      of addition: `x < x + y` iff `0 < y`, which holds of 1. */
  lemma IntegerOrder(p: Modulus, lib: IntLib, x: int, y: int)
    ensures exists l, e, g :: Compares(p, lib, x, Less, y, l) && Compares(p, lib, x, Equal, y, e) && Compares(p, lib, x, Greater, y, g)
                              && (l || e || g) && !(l && e) && !(l && g) && !(e && g)
                              && Compares(p, lib, x, GreaterEqual, y, !l) && Compares(p, lib, x, NotEqual, y, !e)
                              && Compares(p, lib, x, LessEqual, y, !g) && Compares(p, lib, y, Less, x, g) && (e <==> x == y)
    ensures exists s, b :: IsInt(p, lib, x, AddOp, y, s) && Compares(p, lib, x, Less, s, b) && Compares(p, lib, 0, Less, y, b)
    ensures Compares(p, lib, 0, Less, 1, true)
  {
    assert Compares(p, lib, x, Less, y, x < y) && Compares(p, lib, x, Equal, y, x == y) && Compares(p, lib, x, Greater, y, x > y);
    assert IsInt(p, lib, x, AddOp, y, x + y) && Compares(p, lib, x, Less, x + y, 0 < y);
  }

  // ----- field elements -----

  /** Canonical field elements. */
  predicate Canonical(p: Modulus, x: int) { 0 <= x < p }

  /** The result of an operator on field elements is the canonical field element `z`. */
  predicate IsFe(p: Modulus, lib: IntLib, x: int, op: BinOp, y: int, z: int) {
    Canonical(p, z) && BinaryOp<Code>(p, lib, VFe(x), op, VFe(y)) == Ok(VFe(z))
  }

  /** The canonical number that a number is congruent to. */
  lemma RepIs(p: Modulus, x: int, y: int)
    requires Canonical(p, y) && Cong(p, x, y)
    ensures Rep(p, x) == y
  {
    CanonicalEq(p, Rep(p, x), y);
  }

  lemma RepCanonical(p: Modulus, x: int)
    requires Canonical(p, x)
    ensures Rep(p, x) == x
  {
    RepIs(p, x, x);
  }

  lemma {:induction false} FieldAddition(p: Modulus, lib: IntLib, x: int, y: int)
    requires Canonical(p, x) && Canonical(p, y)
    ensures exists z :: IsFe(p, lib, x, AddOp, y, z) && IsFe(p, lib, y, AddOp, x, z) && IsFe(p, lib, z, SubOp, y, x)
    ensures exists z :: IsFe(p, lib, x, SubOp, y, z) && IsFe(p, lib, z, AddOp, y, x)
    ensures IsFe(p, lib, x, AddOp, 0, x)
  {
    var s, d := Rep(p, x + y), Rep(p, x - y);
    CongSub(p, s, x + y, y, y);
    RepIs(p, s - y, x);
    CongAdd(p, d, x - y, y, y);
    RepIs(p, d + y, x);
    RepCanonical(p, x);
    assert IsFe(p, lib, x, AddOp, y, s) && IsFe(p, lib, y, AddOp, x, s) && IsFe(p, lib, s, SubOp, y, x);
    assert IsFe(p, lib, x, SubOp, y, d) && IsFe(p, lib, d, AddOp, y, x);
  }

  lemma FieldNegation(p: Modulus, lib: IntLib, x: int)
    requires Canonical(p, x)
    ensures exists z :: Canonical(p, z) && UnaryOp<Code>(p, Minus, VFe(x)) == Ok(VFe(z)) && IsFe(p, lib, x, AddOp, z, 0)
  {
    var z := Rep(p, 0 - x);
    CongAdd(p, x, x, z, 0 - x);
    RepIs(p, x + z, 0);
    assert Canonical(p, z) && UnaryOp<Code>(p, Minus, VFe(x)) == Ok(VFe(z)) && IsFe(p, lib, x, AddOp, z, 0);
  }

  lemma {:induction false} FieldMultiplication(p: Modulus, lib: IntLib, x: int, y: int, z: int)
    requires Canonical(p, x) && Canonical(p, y) && Canonical(p, z)
    ensures IsFe(p, lib, x, MulOp, 1, x) && IsFe(p, lib, 1, MulOp, x, x)
    ensures exists s, a, b, c :: IsFe(p, lib, y, AddOp, z, s) && IsFe(p, lib, x, MulOp, y, a) && IsFe(p, lib, x, MulOp, z, b)
                                 && IsFe(p, lib, a, AddOp, b, c) && IsFe(p, lib, x, MulOp, s, c)
    ensures exists a :: IsFe(p, lib, x, MulOp, y, a) && IsFe(p, lib, y, MulOp, x, a)
  {
    var s, a, b := Rep(p, y + z), Rep(p, x * y), Rep(p, x * z);
    var c := Rep(p, a + b);
    RepCanonical(p, x);
    Spread(x, y, z);
    CongMul(p, x, x, s, y + z);
    CongAdd(p, a, x * y, b, x * z);
    RepIs(p, x * s, c);
    assert IsFe(p, lib, y, AddOp, z, s) && IsFe(p, lib, x, MulOp, y, a) && IsFe(p, lib, x, MulOp, z, b)
           && IsFe(p, lib, a, AddOp, b, c) && IsFe(p, lib, x, MulOp, s, c);
    assert IsFe(p, lib, y, MulOp, x, a);
  }

  /** Comparison decides equality in the field; there is no order. */
  lemma FieldComparison(p: Modulus, lib: IntLib, x: int, y: int, op: BinOp)
    requires Canonical(p, x) && Canonical(p, y)
    ensures BinaryOp<Code>(p, lib, VFe(x), Equal, VFe(y)) == Ok(VBool(Cong(p, x, y)))
    ensures BinaryOp<Code>(p, lib, VFe(x), NotEqual, VFe(y)) == Ok(VBool(!Cong(p, x, y)))
    ensures op in {Less, LessEqual, Greater, GreaterEqual, DivOp, ModOp} ==> BinaryOp<Code>(p, lib, VFe(x), op, VFe(y)) == Err(TypeError)
  {
    if Cong(p, x, y) { CanonicalEq(p, x, y); }
  }

  /** Raising to an integer power is repeated multiplication; exponents outside 64 bits are errors. */
  lemma {:induction false} FieldPower(p: Modulus, lib: IntLib, x: int, n: int)
    requires Canonical(p, x)
    ensures BinaryOp<Code>(p, lib, VFe(x), PowOp, VInt(0)) == Ok(VFe(1))
    ensures n < 0 || n >= U64_LIMIT ==> BinaryOp<Code>(p, lib, VFe(x), PowOp, VInt(n)) == Err(TypeError)
    ensures 0 <= n && n + 1 < U64_LIMIT ==>
              exists a, b :: BinaryOp<Code>(p, lib, VFe(x), PowOp, VInt(n)) == Ok(VFe(a)) && IsFe(p, lib, x, MulOp, a, b)
                             && BinaryOp<Code>(p, lib, VFe(x), PowOp, VInt(n + 1)) == Ok(VFe(b))
  {
    RepCanonical(p, 1);
    if 0 <= n && n + 1 < U64_LIMIT {
      var a, b := Rep(p, Pow(x, n)), Rep(p, Pow(x, n + 1));
      CongMul(p, x, x, a, Pow(x, n));
      RepIs(p, x * a, b);
      assert BinaryOp<Code>(p, lib, VFe(x), PowOp, VInt(n)) == Ok(VFe(a)) && IsFe(p, lib, x, MulOp, a, b)
             && BinaryOp<Code>(p, lib, VFe(x), PowOp, VInt(n + 1)) == Ok(VFe(b));
    }
  }

  /** Integers and field elements do not mix, except that a field element is raised to an integer power. */
  lemma NoMixing(p: Modulus, lib: IntLib, x: int, op: BinOp, y: int)
    requires op !in {InOp, IsOp}
    ensures BinaryOp<Code>(p, lib, VInt(x), op, VFe(y)) == Err(TypeError)
    ensures op != PowOp ==> BinaryOp<Code>(p, lib, VFe(x), op, VInt(y)) == Err(TypeError)
  {
  }

  // ----- arrays, strings and truth values -----

  /** The sum of two arrays holds the items of the first, then those of the second, and nothing else. */
  lemma ArrayAddition(p: Modulus, lib: IntLib, a: seq<Value>, b: seq<Value>, i: int)
    ensures var c := BinaryOp(p, lib, VArray(a), AddOp, VArray(b));
            && c.Ok?
            && IndexOp(c.value, VInt(i)) == (if i < |a| then IndexOp(VArray(a), VInt(i)) else IndexOp(VArray(b), VInt(i - |a|)))
            && (IndexOp(c.value, VInt(i)).Ok? <==> 0 <= i < |a| + |b|)
  {
  }

  /** An array is exactly what its items are. */
  lemma ArrayItems(vs: seq<Value>, i: int)
    ensures IndexOp(VArray(vs), VInt(i)) == if 0 <= i < |vs| then Ok(vs[i]) else Err(OutOfBounds)
  {
  }

  lemma Strings(p: Modulus, lib: IntLib, s: string, t: string)
    ensures var u := BinaryOp<Code>(p, lib, VStr(s), AddOp, VStr(t));
            && u.Ok? && u.value.VStr? && |u.value.s| == |s| + |t| && s <= u.value.s && u.value.s[|s|..] == t
    ensures BinaryOp<Code>(p, lib, VStr(s), Equal, VStr(t)) == Ok(VBool(s == t))
    ensures BinaryOp<Code>(p, lib, VStr(s), NotEqual, VStr(t)) == Ok(VBool(!(s == t)))
  {
    assert (s + t)[|s|..] == t;
  }

  /** `||` holds if one side does, `!` complements, and `&&` is the dual of `||`. */
  lemma TruthValues(p: Modulus, lib: IntLib, a: bool, b: bool)
    ensures var c := BinaryOp<Code>(p, lib, VBool(a), LogicalOr, VBool(b));
            && c.Ok? && c.value.VBool? && (c.value.b <==> a || b)
            && UnaryOp<Code>(p, LogicalNot, VBool(a)) == Ok(VBool(!a))
            && BinaryOp<Code>(p, lib, VBool(!a), LogicalAnd, VBool(!b)) == UnaryOp(p, LogicalNot, c.value)
  {
  }

  // ----- algebraic expressions -----

  /** The values of columns on a row, of public values and of challenges. */
  datatype Trace = Trace(cell: (PolyType, nat, int) -> int, public: string -> int, challenge: (nat, nat) -> int)

  /** The value of an algebraic expression on row `k`. */
  function AlgValue(p: Modulus, t: Trace, k: int, a: Alg): int {
    match a
    case AlgRef(_, ptype, id, next) => t.cell(ptype, id, if next then k + 1 else k)
    case AlgPublic(n) => t.public(n)
    case AlgChallenge(id, stage) => t.challenge(id, stage)
    case AlgNum(n) => n
    case AlgNeg(e) => -AlgValue(p, t, k, e)
    case AlgBin(op, l, r) =>
      var x, y := AlgValue(p, t, k, l), AlgValue(p, t, k, r);
      match op
      case AddOp => x + y
      case SubOp => x - y
      case MulOp => x * y
      case PowOp => Pow(x, Rep(p, y))
      case _ => 0
  }

  /** The expression that an operator builds has, on every row, the value that the operator gives in the
      field; that of two numbers is folded. */
  lemma AlgebraicMeaning(p: Modulus, lib: IntLib, a: Alg, op: BinOp, b: Alg, t: Trace, k: int)
    requires op in {AddOp, SubOp, MulOp}
    ensures var e := BinaryOp<Code>(p, lib, VExpr(a), op, VExpr(b));
            && e.Ok? && e.value.VExpr? && (a.AlgNum? && b.AlgNum? <==> e.value.alg.AlgNum?)
            && Cong(p, AlgValue(p, t, k, e.value.alg), FieldValue(op, AlgValue(p, t, k, a), AlgValue(p, t, k, b)))
  {
    var e := BinaryOp<Code>(p, lib, VExpr(a), op, VExpr(b)).value;
    if a.AlgNum? && b.AlgNum? {
      assert e.VExpr? && e.alg == AlgNum(Rep(p, FieldValue(op, a.n, b.n)));
    } else {
      assert e == VExpr(AlgBin(op, a, b));
      assert AlgValue(p, t, k, e.alg) == FieldValue(op, AlgValue(p, t, k, a), AlgValue(p, t, k, b));
    }
  }

  /** The three operations of a ring. */
  function FieldValue(op: BinOp, x: int, y: int): int
    requires op in {AddOp, SubOp, MulOp}
  {
    if op == AddOp then x + y else if op == SubOp then x - y else x * y
  }

  /** A power with an integer exponent, which must be below 2^64 and, for an expression that is no number,
      below the modulus. */
  lemma PowerMeaning(p: Modulus, lib: IntLib, a: Alg, n: int, t: Trace, k: int)
    ensures n < 0 || n >= U64_LIMIT ==> BinaryOp<Code>(p, lib, VExpr(a), PowOp, VInt(n)) == Err(TypeError)
    ensures 0 <= n < U64_LIMIT && (a.AlgNum? || n < p) ==>
              var e := BinaryOp<Code>(p, lib, VExpr(a), PowOp, VInt(n));
              e.Ok? && e.value.VExpr? && Cong(p, AlgValue(p, t, k, e.value.alg), Pow(AlgValue(p, t, k, a), n))
  {
    if 0 <= n < U64_LIMIT && (a.AlgNum? || n < p) {
      var e := BinaryOp<Code>(p, lib, VExpr(a), PowOp, VInt(n)).value;
      if a.AlgNum? {
        assert e == VExpr(AlgNum(Rep(p, Pow(a.n, n))));
      } else {
        RepCanonical(p, n);
        assert e == VExpr(AlgBin(PowOp, a, AlgNum(n)));
        assert AlgValue(p, t, k, AlgNum(n)) == n;
      }
    }
  }

  lemma NegationMeaning(p: Modulus, a: Alg, t: Trace, k: int)
    ensures exists e: Alg :: UnaryOp<Code>(p, Minus, VExpr(a)) == Ok(VExpr(e)) && AlgValue(p, t, k, e) == 0 - AlgValue(p, t, k, a)
  {
    assert UnaryOp<Code>(p, Minus, VExpr(a)) == Ok(VExpr(AlgNeg(a)));
  }

  /** Some reference is shifted already. */
  predicate MentionsNext(a: Alg) {
    match a
    case AlgRef(_, _, _, next) => next
    case AlgBin(_, l, r) => MentionsNext(l) || MentionsNext(r)
    case AlgNeg(e) => MentionsNext(e)
    case _ => false
  }

  /** The shifted expression has on every row the value that the expression has on the next row; shifting
      fails exactly on expressions with a shifted reference. */
  lemma {:induction false} NextMeaning(p: Modulus, a: Alg, t: Trace, k: int)
    ensures MentionsNext(a) ==> UnaryOp<Code>(p, NextOp, VExpr(a)) == Err(TypeError)
    ensures !MentionsNext(a) ==>
              exists e: Alg :: UnaryOp<Code>(p, NextOp, VExpr(a)) == Ok(VExpr(e)) && AlgValue(p, t, k, e) == AlgValue(p, t, k + 1, a)
  {
    NextShifts(p, a, t, k);
    if !MentionsNext(a) {
      var e := NextAlg(a).value;
      assert UnaryOp<Code>(p, NextOp, VExpr(a)) == Ok(VExpr(e));
    }
  }

  lemma {:induction false} NextShifts(p: Modulus, a: Alg, t: Trace, k: int)
    ensures NextAlg(a).Some? <==> !MentionsNext(a)
    ensures NextAlg(a).Some? ==> AlgValue(p, t, k, NextAlg(a).value) == AlgValue(p, t, k + 1, a)
  {
    match a
    case AlgBin(_, l, r) => NextShifts(p, l, t, k); NextShifts(p, r, t, k);
    case AlgNeg(e) => NextShifts(p, e, t, k);
    case _ =>
  }

  // ----- constraints -----

  /** The pairs of an array of pairs. */
  predicate ArePairs(v: Value, a: seq<Value>, b: seq<Value>) {
    && v.VArray? && |v.items| == |a| == |b|
    && forall k :: 0 <= k < |a| ==> v.items[k] == VTuple([a[k], b[k]])
  }

  function Selector(s: Option<Value>): Value {
    if s.Some? then VEnum("std::prelude::Option", "Some", Data([s.value])) else VEnum("std::prelude::Option", "None", NoData)
  }

  /** An array of expressions, selected by `s` if there is a selector. */
  ghost predicate Denotes(p: Modulus, lib: IntLib, v: Value, s: Option<Value>, items: seq<Value>) {
    match s
    case None => v == VArray(items)
    case Some(e) => e.VExpr? && BinaryOp(p, lib, e, SelectOp, VArray(items)) == Ok(v)
  }

  /** A lookup or permutation relates the k-th expression of the left side to the k-th of the right side,
      under the selectors of both sides; the sides must have the same length. */
  lemma {:induction false} LookupMeaning(p: Modulus, lib: IntLib, op: BinOp, v: Value, s: Option<Value>, a: seq<Value>,
                                         w: Value, z: Option<Value>, b: seq<Value>)
    requires op in {InOp, IsOp} && Denotes(p, lib, v, s, a) && Denotes(p, lib, w, z, b)
    ensures |a| != |b| ==> BinaryOp(p, lib, v, op, w) == Err(TypeError)
    ensures |a| == |b| ==>
              exists pairs :: ArePairs(pairs, a, b) && BinaryOp(p, lib, v, op, w)
                == Ok(VEnum("std::prelude::Constr", if op == InOp then "Lookup" else "Permutation",
                            Data([VTuple([Selector(s), Selector(z)]), pairs])))
  {
    SidesOf(p, lib, v, s, a);
    SidesOf(p, lib, w, z, b);
    if |a| == |b| { assert ArePairs(VArray(PairUp(a, b)), a, b); }
  }

  lemma SidesOf(p: Modulus, lib: IntLib, v: Value, s: Option<Value>, items: seq<Value>)
    requires Denotes(p, lib, v, s, items)
    ensures ToSelectedExprs(v) == Ok(SelectedExprs(Selector(s), items))
    ensures v.VArray? || v.VEnum?
  {
  }

  lemma ConnectMeaning(p: Modulus, lib: IntLib, a: seq<Value>, b: seq<Value>)
    ensures |a| != |b| ==> BinaryOp(p, lib, VArray(a), ConnectOp, VArray(b)) == Err(TypeError)
    ensures |a| == |b| ==>
              exists pairs :: ArePairs(pairs, a, b)
                              && BinaryOp(p, lib, VArray(a), ConnectOp, VArray(b)) == Ok(VEnum("std::prelude::Constr", "Connection", Data([pairs])))
  {
    if |a| == |b| { assert ArePairs(VArray(PairUp(a, b)), a, b); }
  }

  // ----- on the machine -----

  /** Whenever the operands evaluate to integers, the machine that evaluates the difference halts with the
      integer that added to the subtrahend gives the minuend. */
  lemma {:induction false} MachineSubtracts<S>(sy: Symbols<S>, a: PExpr, b: PExpr, targs: map<string, Type>, s: S, fuel: nat, x: int, s1: S, y: int, s2: S)
    returns (k: nat, z: int)
    requires Eval(fuel, sy, a, [], targs, s) == Done(VInt(x), s1) && Eval(fuel, sy, b, [], targs, s1) == Done(VInt(y), s2)
    ensures SM.Run(sy, Refinement.Start(sy, Binary(SubOp, a, b), targs, s), k) == Refinement.Final(targs, Done(VInt(z), s2))
    ensures IsInt(sy.p, sy.lib, z, AddOp, y, x) && z + y == x
  {
    IntegerAddition(sy.p, sy.lib, x, y);
    z :| IsInt(sy.p, sy.lib, x, SubOp, y, z) && IsInt(sy.p, sy.lib, z, AddOp, y, x);
    assert Eval(fuel, sy, Binary(SubOp, a, b), [], targs, s) == Done(VInt(z), s2);
    k := Refinement.MachineReachesEval(fuel, sy, Binary(SubOp, a, b), targs, s);
  }
}
