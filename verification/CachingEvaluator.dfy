/** Evaluation of algebraic expressions with a cache for intermediate columns. */
module CachingEvaluator {
  import opened Options
  import opened Collections
  import opened PilLang

  /** A reference without the name: polynomial type, id and next flag. */
  datatype Key = Key(ptype: PolyType, id: nat, next: bool)

  type Definitions = map<Key, Alg>

  /** The values of columns, public values and challenges, and the operations on values. */
  datatype Access<!V> = Access(
    column: Alg -> V, publicValue: string -> V, challenge: (nat, nat) -> V, number: int -> V,
    add: (V, V) -> V, sub: (V, V) -> V, mul: (V, V) -> V, neg: V -> V)

  const U32_LIMIT := 0x1_0000_0000

  predicate IsIntermediate(a: Alg) { a.AlgRef? && a.ptype.Intermediate? }

  function KeyOf(a: Alg): Key
    requires a.AlgRef?
  {
    Key(a.ptype, a.id, a.next)
  }

  // ----- acyclic definitions -----

  /** One more than the largest rank of an intermediate column in the expression. */
  function Height(rank: Key -> nat, a: Alg): nat {
    match a
    case AlgRef(_, t, _, _) => if t.Intermediate? then rank(KeyOf(a)) + 1 else 0
    case AlgBin(_, l, r) => Max(Height(rank, l), Height(rank, r))
    case AlgNeg(e) => Height(rank, e)
    case _ => 0
  }

  /** Every definition uses only intermediate columns of smaller rank. */
  ghost predicate Acyclic(defs: Definitions, rank: Key -> nat) { forall k :: k in defs ==> Height(rank, defs[k]) <= rank(k) }

  // ----- evaluation without a cache -----

  function Repeated<V>(x: Access<V>, base: V, n: nat): V {
    if n == 0 then x.number(1) else x.mul(Repeated(x, base, n - 1), base)
  }

  function Operation<V>(x: Access<V>, op: BinOp, a: V, b: V): Option<V> {
    match op
    case AddOp => Some(x.add(a, b))
    case SubOp => Some(x.sub(a, b))
    case MulOp => Some(x.mul(a, b))
    case _ => None
  }

  /** The value of an expression without intermediate columns. Only literal exponents are supported. */
  function PlainValue<V>(x: Access<V>, a: Alg): Option<V> {
    match a
    case AlgRef(_, t, _, _) => if t.Intermediate? then None else Some(x.column(a))
    case AlgPublic(n) => Some(x.publicValue(n))
    case AlgChallenge(id, stage) => Some(x.challenge(id, stage))
    case AlgNum(n) => Some(x.number(n))
    case AlgNeg(e) =>
      var v := PlainValue(x, e);
      if v.None? then None else Some(x.neg(v.value))
    case AlgBin(PowOp, l, r) =>
      var v := PlainValue(x, l);
      if v.None? || !r.AlgNum? || !(0 <= r.n < U32_LIMIT) then None else Some(Repeated(x, v.value, r.n))
    case AlgBin(op, l, r) =>
      var v := PlainValue(x, l);
      var w := PlainValue(x, r);
      if v.None? || w.None? then None else Operation(x, op, v.value, w.value)
  }

  /** Replaces intermediate columns by their definitions, all the way down. */
  function Expand(defs: Definitions, ghost rank: Key -> nat, a: Alg): Option<Alg>
    requires Acyclic(defs, rank)
    decreases Height(rank, a), a
  {
    match a
    case AlgRef(_, t, _, _) =>
      if !t.Intermediate? then Some(a)
      else if KeyOf(a) in defs then Expand(defs, rank, defs[KeyOf(a)])
      else None
    case AlgNeg(e) =>
      var v := Expand(defs, rank, e);
      if v.None? then None else Some(AlgNeg(v.value))
    case AlgBin(PowOp, l, r) =>
      var v := Expand(defs, rank, l);
      if v.None? then None else Some(AlgBin(PowOp, v.value, r))
    case AlgBin(op, l, r) =>
      var v := Expand(defs, rank, l);
      var w := Expand(defs, rank, r);
      if v.None? || w.None? then None else Some(AlgBin(op, v.value, w.value))
    case _ => Some(a)
  }

  /** The value of the full expansion. Missing definitions have no value. */
  function FullValue<V>(x: Access<V>, defs: Definitions, ghost rank: Key -> nat, a: Alg): Option<V>
    requires Acyclic(defs, rank)
  {
    var e := Expand(defs, rank, a);
    if e.None? then None else PlainValue(x, e.value)
  }

  // ----- evaluation with a cache -----

  method Power<V>(x: Access<V>, base: V, n: nat) returns (r: V)
    ensures r == Repeated(x, base, n)
  {
    r := x.number(1);
    for i := 0 to n
      invariant r == Repeated(x, base, i)
    {
      r := x.mul(r, base);
    }
  }

  class ExpressionEvaluator<V> {
    const access: Access<V>
    const definitions: Definitions
    ghost const rank: Key -> nat
    var cache: map<Key, V>

    /** Every cache entry is the value of the full expansion of its definition. */
    ghost predicate Valid()
      reads this
    {
      Acyclic(definitions, rank)
      && forall k :: k in cache ==> k in definitions && FullValue(access, definitions, rank, definitions[k]) == Some(cache[k])
    }

    constructor (x: Access<V>, defs: Definitions, ghost r: Key -> nat)
      requires Acyclic(defs, r)
      ensures Valid() && access == x && definitions == defs && rank == r && cache == map[]
    {
      access, definitions, rank, cache := x, defs, r, map[];
    }

    method Evaluate(a: Alg) returns (v: Option<V>)
      requires Valid()
      modifies this
      ensures Valid() && v == FullValue(access, definitions, rank, a)
      decreases Height(rank, a), a, 1
    {
      match a
      case AlgRef(_, t, _, _) =>
        if t.Intermediate? { v := EvaluateIntermediate(a); } else { v := Some(access.column(a)); }
      case AlgPublic(n) => v := Some(access.publicValue(n));
      case AlgChallenge(id, stage) => v := Some(access.challenge(id, stage));
      case AlgNum(n) => v := Some(access.number(n));
      case AlgNeg(e) =>
        var w := Evaluate(e);
        v := if w.None? then None else Some(access.neg(w.value));
      case AlgBin(_, _, _) => v := EvaluateBinary(a);
    }

    method EvaluateBinary(a: Alg) returns (v: Option<V>)
      requires Valid() && a.AlgBin?
      modifies this
      ensures Valid() && v == FullValue(access, definitions, rank, a)
      decreases Height(rank, a), a, 0
    {
      var AlgBin(op, l, r) := a;
      var w := Evaluate(l);
      if w.None? { return None; }
      if op.PowOp? {
        if !r.AlgNum? || !(0 <= r.n < U32_LIMIT) { return None; }
        var power := Power(access, w.value, r.n);
        v := Some(power);
      } else {
        var z := Evaluate(r);
        if z.None? { return None; }
        v := Operation(access, op, w.value, z.value);
      }
    }

    /** Looks the column up in the cache, or evaluates its definition and enters the result. */
    method EvaluateIntermediate(a: Alg) returns (v: Option<V>)
      requires Valid() && IsIntermediate(a)
      modifies this
      ensures Valid() && v == FullValue(access, definitions, rank, a)
      decreases Height(rank, a), a, 0
    {
      var k := KeyOf(a);
      if k in cache { return Some(cache[k]); }
      if k !in definitions { return None; }
      v := Evaluate(definitions[k]);
      if v.Some? { cache := cache[k := v.value]; }
    }
  }
}
