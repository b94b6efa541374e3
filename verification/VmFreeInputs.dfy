/** Free inputs of one right-hand side share a column. When that changes what the line can read. */
module VmFreeInputs {
  import opened Options
  import opened Congruence
  import opened Pil
  import opened Asm
  import opened VmCompile
  import opened VmAffine
  import opened NumberTheory

  // ----- independent free inputs -----

  /** The number of free inputs in an expression. */
  function FreeCount(e: AsmExpr): nat {
    match e
    case FreeInput => 1
    case Bin(_, a, b) => FreeCount(a) + FreeCount(b)
    case Minus(a) => FreeCount(a)
    case _ => 0
  }

  /** The value of an expression whose free inputs have values of their own, from left to right. */
  function EvalFrees(p: Modulus, e: AsmExpr, cur: Row, f: seq<int>): int
    requires |f| == FreeCount(e)
  {
    match e
    case Number(n) => n
    case Ref(x) => cur(Named(x))
    case FreeInput => f[0]
    case Bin(op, a, b) =>
      var x, y := EvalFrees(p, a, cur, f[..FreeCount(a)]), EvalFrees(p, b, cur, f[FreeCount(a)..]);
      (match op
       case AddOp => x + y
       case SubOp => x - y
       case MulOp => x * y
       case PowOp => Pow(x, Rep(p, y))
       case OtherOp => 0)
    case Minus(a) => -EvalFrees(p, a, cur, f)
    case Other => 0
  }

  /** As `Reads`, with independent free inputs. */
  ghost predicate ReadsIndependently(p: Modulus, e: AsmExpr, x: int, cur: Row) {
    exists f: seq<int> :: |f| == FreeCount(e) && Cong(p, x, EvalFrees(p, e, cur, f))
  }

  function Shared(n: nat, v: int): seq<int> { seq(n, i => v) }

  /** Sharing gives all free inputs the same value. */
  lemma {:induction false} SharedValue(p: Modulus, e: AsmExpr, cur: Row, v: int)
    ensures EvalFrees(p, e, cur, Shared(FreeCount(e), v)) == EvalAsm(p, e, cur, v)
  {
    match e
    case Bin(op, a, b) =>
      var f := Shared(FreeCount(e), v);
      assert f[..FreeCount(a)] == Shared(FreeCount(a), v) && f[FreeCount(a)..] == Shared(FreeCount(b), v);
      SharedValue(p, a, cur, v);
      SharedValue(p, b, cur, v);
    case Minus(a) => SharedValue(p, a, cur, v);
    case _ =>
  }

  // ----- accepted expressions are affine in their free inputs -----

  /** The number of free terms in an affine form. */
  function FreeTerms(ts: seq<Term>): nat {
    if ts == [] then 0 else (if ts[0].comp == FreePart then 1 else 0) + FreeTerms(ts[1..])
  }

  lemma {:induction false} FreeTermsConcat(a: seq<Term>, b: seq<Term>)
    ensures FreeTerms(a + b) == FreeTerms(a) + FreeTerms(b)
    decreases |a|
  {
    if a == [] {
      assert a + b == b;
    } else {
      assert (a + b)[1..] == a[1..] + b;
      FreeTermsConcat(a[1..], b);
    }
  }

  lemma {:induction false} FreeTermsScale(p: Modulus, k: int, ts: seq<Term>)
    ensures FreeTerms(Scale(p, k, ts)) == FreeTerms(ts)
    decreases |ts|
  {
    if ts != [] {
      assert Scale(p, k, ts)[1..] == Scale(p, k, ts[1..]);
      FreeTermsScale(p, k, ts[1..]);
    }
  }

  /** The compiler keeps every free input as a term of its own. */
  lemma {:induction false} FreeTermsCount(p: Modulus, e: AsmExpr)
    requires ProcessValue(p, e).Some?
    ensures FreeTerms(ProcessValue(p, e).value) == FreeCount(e)
  {
    match e
    case Minus(a) =>
      FreeTermsCount(p, a);
      FreeTermsScale(p, -1, ProcessValue(p, a).value);
    case Bin(op, a, b) =>
      var l, r := ProcessValue(p, a).value, ProcessValue(p, b).value;
      FreeTermsCount(p, a);
      FreeTermsCount(p, b);
      if op.AddOp? {
        FreeTermsConcat(l, r);
      } else if op.SubOp? {
        FreeTermsScale(p, -1, r);
        FreeTermsConcat(l, Scale(p, -1, r));
      } else if op.MulOp? {
        FreeTermsProduct(p, l, r);
      } else if op.PowOp? {
        NoFreeTerms(l);
        NoFreeTerms(r);
        NoFreeTerms(ProcessValue(p, e).value);
      }
    case _ =>
  }

  lemma NoFreeTerms(ts: seq<Term>)
    requires IsConstant(ts)
    ensures FreeTerms(ts) == 0
  {
    assert ts[1..] == [];
  }

  lemma FreeTermsProduct(p: Modulus, l: seq<Term>, r: seq<Term>)
    ensures IsConstant(l) ==> FreeTerms(l) == 0 && FreeTerms(Scale(p, l[0].coeff, r)) == FreeTerms(r)
    ensures IsConstant(r) ==> FreeTerms(r) == 0 && FreeTerms(Scale(p, r[0].coeff, l)) == FreeTerms(l)
  {
    if IsConstant(l) { NoFreeTerms(l); FreeTermsScale(p, l[0].coeff, r); }
    if IsConstant(r) { NoFreeTerms(r); FreeTermsScale(p, r[0].coeff, l); }
  }

  /** No product of two expressions with free inputs, and none in a power. */
  predicate Affine(e: AsmExpr) {
    match e
    case Bin(op, a, b) =>
      && Affine(a) && Affine(b)
      && (op.MulOp? ==> FreeCount(a) == 0 || FreeCount(b) == 0)
      && (op.PowOp? || op.OtherOp? ==> FreeCount(a) == FreeCount(b) == 0)
    case Minus(a) => Affine(a)
    case _ => true
  }

  lemma {:induction false} AcceptedIsAffine(p: Modulus, e: AsmExpr)
    requires ProcessValue(p, e).Some?
    ensures Affine(e)
  {
    match e
    case Minus(a) => AcceptedIsAffine(p, a);
    case Bin(op, a, b) =>
      AcceptedIsAffine(p, a);
      AcceptedIsAffine(p, b);
      FreeTermsCount(p, a);
      FreeTermsCount(p, b);
      FreeTermsProduct(p, ProcessValue(p, a).value, ProcessValue(p, b).value);
    case _ =>
  }

  function Scaled(k: int, c: seq<int>): (r: seq<int>)
    ensures |r| == |c|
  {
    seq(|c|, i requires 0 <= i < |c| => k * c[i])
  }

  /** The factor in front of every free input, from left to right. */
  function Coeffs(p: Modulus, e: AsmExpr, cur: Row): (r: seq<int>)
    requires Affine(e)
    ensures |r| == FreeCount(e)
  {
    match e
    case FreeInput => [1]
    case Minus(a) => Scaled(-1, Coeffs(p, a, cur))
    case Bin(AddOp, a, b) => Coeffs(p, a, cur) + Coeffs(p, b, cur)
    case Bin(SubOp, a, b) => Coeffs(p, a, cur) + Scaled(-1, Coeffs(p, b, cur))
    case Bin(MulOp, a, b) =>
      if FreeCount(a) == 0 then Scaled(EvalAsm(p, a, cur, 0), Coeffs(p, b, cur)) else Scaled(EvalAsm(p, b, cur, 0), Coeffs(p, a, cur))
    case _ => []
  }

  function Dot(c: seq<int>, f: seq<int>): int
    requires |c| == |f|
  {
    if c == [] then 0 else c[0] * f[0] + Dot(c[1..], f[1..])
  }

  function Total(c: seq<int>): int { if c == [] then 0 else c[0] + Total(c[1..]) }

  lemma {:induction false} DotConcat(a: seq<int>, b: seq<int>, f: seq<int>)
    requires |f| == |a| + |b|
    ensures Dot(a + b, f) == Dot(a, f[..|a|]) + Dot(b, f[|a|..])
    decreases |a|
  {
    if a == [] {
      assert a + b == b && f[0..] == f;
    } else {
      assert (a + b)[1..] == a[1..] + b;
      assert f[1..][..|a| - 1] == f[..|a|][1..] && f[1..][|a| - 1..] == f[|a|..];
      DotConcat(a[1..], b, f[1..]);
    }
  }

  lemma {:induction false} DotScaled(k: int, c: seq<int>, f: seq<int>)
    requires |c| == |f|
    ensures Dot(Scaled(k, c), f) == k * Dot(c, f)
  {
    if c != [] {
      assert Scaled(k, c)[1..] == Scaled(k, c[1..]);
      DotScaled(k, c[1..], f[1..]);
      Spread(k, c[0], f[0], Dot(c[1..], f[1..]));
    }
  }

  lemma Spread(k: int, c: int, v: int, d: int)
    ensures k * c * v + k * d == k * (c * v + d)
  {
  }

  /** The value is that without free inputs, plus their weighted sum. */
  lemma {:induction false} FreesAreAffine(p: Modulus, e: AsmExpr, cur: Row, f: seq<int>)
    requires Affine(e) && |f| == FreeCount(e)
    ensures EvalFrees(p, e, cur, f) == EvalAsm(p, e, cur, 0) + Dot(Coeffs(p, e, cur), f)
  {
    match e
    case FreeInput => assert Dot([1], f) == f[0] + Dot([1][1..], f[1..]);
    case Minus(a) =>
      FreesAreAffine(p, a, cur, f);
      DotScaled(-1, Coeffs(p, a, cur), f);
    case Bin(op, a, b) =>
      FreesAreAffine(p, a, cur, f[..FreeCount(a)]);
      FreesAreAffine(p, b, cur, f[FreeCount(a)..]);
      BinaryIsAffine(p, op, a, b, cur, f);
    case _ =>
  }

  ghost predicate AffineIn(p: Modulus, e: AsmExpr, cur: Row, f: seq<int>)
    requires Affine(e) && |f| == FreeCount(e)
  {
    EvalFrees(p, e, cur, f) == EvalAsm(p, e, cur, 0) + Dot(Coeffs(p, e, cur), f)
  }

  lemma {:induction false} BinaryIsAffine(p: Modulus, op: AsmOp, a: AsmExpr, b: AsmExpr, cur: Row, f: seq<int>)
    requires Affine(Bin(op, a, b)) && |f| == FreeCount(a) + FreeCount(b)
    requires AffineIn(p, a, cur, f[..FreeCount(a)]) && AffineIn(p, b, cur, f[FreeCount(a)..])
    ensures AffineIn(p, Bin(op, a, b), cur, f)
  {
    var c, d, fb := Coeffs(p, a, cur), Coeffs(p, b, cur), f[FreeCount(a)..];
    match op {
      case AddOp => DotConcat(c, d, f);
      case SubOp => DotScaled(-1, d, fb); DotConcat(c, Scaled(-1, d), f);
      case MulOp => ProductIsAffine(p, a, b, cur, f);
      case PowOp => NoFrees(p, a, cur, f[..FreeCount(a)]); NoFrees(p, b, cur, fb);
      case OtherOp =>
    }
  }

  /** Without free inputs the two values are the same. */
  lemma NoFrees(p: Modulus, e: AsmExpr, cur: Row, f: seq<int>)
    requires FreeCount(e) == 0 && |f| == 0
    ensures EvalFrees(p, e, cur, f) == EvalAsm(p, e, cur, 0)
  {
    SharedValue(p, e, cur, 0);
    assert f == Shared(0, 0);
  }

  lemma {:induction false} ProductIsAffine(p: Modulus, a: AsmExpr, b: AsmExpr, cur: Row, f: seq<int>)
    requires Affine(Bin(MulOp, a, b)) && |f| == FreeCount(a) + FreeCount(b)
    requires AffineIn(p, a, cur, f[..FreeCount(a)]) && AffineIn(p, b, cur, f[FreeCount(a)..])
    ensures AffineIn(p, Bin(MulOp, a, b), cur, f)
  {
    var x, y := EvalAsm(p, a, cur, 0), EvalAsm(p, b, cur, 0);
    if FreeCount(a) == 0 {
      NoFrees(p, a, cur, f[..0]);
      assert f[0..] == f;
      DotScaled(x, Coeffs(p, b, cur), f);
      Distribute(x, y, Dot(Coeffs(p, b, cur), f));
    } else {
      NoFrees(p, b, cur, f[FreeCount(a)..]);
      assert f[..FreeCount(a)] == f;
      DotScaled(y, Coeffs(p, a, cur), f);
      Commute(y, x + Dot(Coeffs(p, a, cur), f));
      Commute(y, x);
      Distribute(y, x, Dot(Coeffs(p, a, cur), f));
    }
  }

  lemma Commute(x: int, y: int)
    ensures x * y == y * x
  {
  }

  // ----- when sharing matters -----

  lemma {:induction false} DotShared(c: seq<int>, v: int)
    ensures Dot(c, Shared(|c|, v)) == Total(c) * v
  {
    if c != [] {
      assert Shared(|c|, v)[1..] == Shared(|c| - 1, v);
      DotShared(c[1..], v);
      Distribute(v, c[0], Total(c[1..]));
    }
  }

  lemma {:induction false} DotZero(p: Modulus, c: seq<int>, f: seq<int>)
    requires |c| == |f| && forall i :: 0 <= i < |c| ==> Cong(p, c[i], 0)
    ensures Cong(p, Dot(c, f), 0)
  {
    if c != [] {
      DotZero(p, c[1..], f[1..]);
      CongMul(p, c[0], 0, f[0], f[0]);
      CongAdd(p, c[0] * f[0], 0, Dot(c[1..], f[1..]), 0);
    }
  }

  function OnlyAt(n: nat, i: nat, v: int): seq<int> { seq(n, j => if j == i then v else 0) }

  lemma {:induction false} DotOnly(c: seq<int>, i: nat, v: int)
    requires i < |c|
    ensures Dot(c, OnlyAt(|c|, i, v)) == c[i] * v
  {
    var f := OnlyAt(|c|, i, v);
    if i == 0 {
      assert f[1..] == Shared(|c| - 1, 0);
      DotShared(c[1..], 0);
    } else {
      assert f[1..] == OnlyAt(|c| - 1, i - 1, v);
      DotOnly(c[1..], i - 1, v);
    }
  }

  /** In a prime field a nonzero coefficient reaches every value. */
  lemma Reach(p: Modulus, k: int, y: int) returns (v: int)
    requires IsPrime(p) && !Cong(p, k, 0)
    ensures 0 <= v < p && Cong(p, k * v, y)
  {
    Fermat(p, k);
    var inverse := Pow(k, p - 2);
    v := Rep(p, inverse * y);
    CongMul(p, k, k, v, inverse * y);
    assert Pow(k, p - 1) == k * inverse;
    CongMul(p, k * inverse, 1, y, y);
    Reassociate(k, inverse, y);
  }

  lemma Reassociate(x: int, y: int, z: int)
    ensures x * (y * z) == x * y * z
  {
  }

  /** The values that shared free inputs can give. */
  lemma SharedReads(p: Modulus, e: AsmExpr, x: int, cur: Row)
    requires Affine(e)
    ensures Reads(p, e, x, cur) <==> exists v :: 0 <= v < p && Cong(p, x, EvalAsm(p, e, cur, 0) + Total(Coeffs(p, e, cur)) * v)
  {
    if Reads(p, e, x, cur) {
      var v :| 0 <= v < p && Cong(p, x, EvalAsm(p, e, cur, v));
      SharedAffine(p, e, cur, v);
    }
    if v :| 0 <= v < p && Cong(p, x, EvalAsm(p, e, cur, 0) + Total(Coeffs(p, e, cur)) * v) {
      SharedAffine(p, e, cur, v);
      assert Cong(p, x, EvalAsm(p, e, cur, v));
    }
  }

  lemma SharedAffine(p: Modulus, e: AsmExpr, cur: Row, v: int)
    requires Affine(e)
    ensures EvalAsm(p, e, cur, v) == EvalAsm(p, e, cur, 0) + Total(Coeffs(p, e, cur)) * v
  {
    FreesAreAffine(p, e, cur, Shared(FreeCount(e), v));
    SharedValue(p, e, cur, v);
    DotShared(Coeffs(p, e, cur), v);
  }

  predicate AllVanish(p: Modulus, c: seq<int>) { forall i :: 0 <= i < |c| ==> Cong(p, c[i], 0) }

  /** Sharing never adds values. */
  lemma SharedIsIndependent(p: Modulus, e: AsmExpr, x: int, cur: Row)
    requires Reads(p, e, x, cur)
    ensures ReadsIndependently(p, e, x, cur)
  {
    var v :| 0 <= v < p && Cong(p, x, EvalAsm(p, e, cur, v));
    SharedValue(p, e, cur, v);
    assert |Shared(FreeCount(e), v)| == FreeCount(e);
  }

  /** If the coefficients do not add up to zero, every value can be read. */
  lemma AllReadable(p: Modulus, e: AsmExpr, x: int, cur: Row)
    requires IsPrime(p) && Affine(e) && !Cong(p, Total(Coeffs(p, e, cur)), 0)
    ensures Reads(p, e, x, cur)
  {
    var a, k := EvalAsm(p, e, cur, 0), Total(Coeffs(p, e, cur));
    var v := Reach(p, k, x - a);
    CongAdd(p, a, a, k * v, x - a);
    SharedReads(p, e, x, cur);
  }

  /** If no free input has an effect, only one value can be read. */
  lemma NoneMatters(p: Modulus, e: AsmExpr, x: int, cur: Row)
    requires Affine(e) && AllVanish(p, Coeffs(p, e, cur)) && ReadsIndependently(p, e, x, cur)
    ensures Reads(p, e, x, cur)
  {
    var f :| |f| == FreeCount(e) && Cong(p, x, EvalFrees(p, e, cur, f));
    FreesAreAffine(p, e, cur, f);
    DotZero(p, Coeffs(p, e, cur), f);
    CongAdd(p, EvalAsm(p, e, cur, 0), EvalAsm(p, e, cur, 0), Dot(Coeffs(p, e, cur), f), 0);
    ReadsAt(p, e, x, cur, 0);
  }

  lemma ReadsAt(p: Modulus, e: AsmExpr, x: int, cur: Row, v: int)
    requires 0 <= v < p && Cong(p, x, EvalAsm(p, e, cur, v))
    ensures Reads(p, e, x, cur)
  {
  }

  /** If the coefficients add up to zero, but some are not zero, sharing loses values. */
  lemma SharingLoses(p: Modulus, e: AsmExpr, cur: Row)
    requires IsPrime(p) && Affine(e) && Cong(p, Total(Coeffs(p, e, cur)), 0) && !AllVanish(p, Coeffs(p, e, cur))
    ensures var x := EvalAsm(p, e, cur, 0) + 1; ReadsIndependently(p, e, x, cur) && !Reads(p, e, x, cur)
  {
    var a, c := EvalAsm(p, e, cur, 0), Coeffs(p, e, cur);
    var i :| 0 <= i < |c| && !Cong(p, c[i], 0);
    var v := Reach(p, c[i], 1);
    var f := OnlyAt(|c|, i, v);
    DotOnly(c, i, v);
    FreesAreAffine(p, e, cur, f);
    CongAdd(p, a, a, Dot(c, f), 1);
    ReadsFrees(p, e, a + 1, cur, f);
    NotShared(p, e, cur);
  }

  lemma ReadsFrees(p: Modulus, e: AsmExpr, x: int, cur: Row, f: seq<int>)
    requires |f| == FreeCount(e) && Cong(p, EvalFrees(p, e, cur, f), x)
    ensures ReadsIndependently(p, e, x, cur)
  {
  }

  lemma NotShared(p: Modulus, e: AsmExpr, cur: Row)
    requires Affine(e) && Cong(p, Total(Coeffs(p, e, cur)), 0)
    ensures !Reads(p, e, EvalAsm(p, e, cur, 0) + 1, cur)
  {
    var a, k := EvalAsm(p, e, cur, 0), Total(Coeffs(p, e, cur));
    SharedReads(p, e, a + 1, cur);
    forall v ensures !Cong(p, a + 1, a + k * v) { OneOff(p, a, k, v); }
  }

  lemma OneOff(p: Modulus, a: int, k: int, v: int)
    requires Cong(p, k, 0)
    ensures !Cong(p, a + 1, a + k * v)
  {
    CongMul(p, k, 0, v, v);
    assert 1 % p == 1 && 0 % p == 0;
    if Cong(p, a + 1, a + k * v) {
      CongSub(p, a + 1, a + k * v, a, a);
      assert false;
    }
  }

  /** For an accepted right-hand side: sharing the free inputs changes nothing if and only if their coefficients
      do not add up to zero, or none of them has an effect. */
  lemma SharingIff(p: Modulus, e: AsmExpr, cur: Row)
    requires IsPrime(p) && ProcessValue(p, e).Some?
    ensures Affine(e)
    ensures (forall x :: Reads(p, e, x, cur) <==> ReadsIndependently(p, e, x, cur))
            <==> !Cong(p, Total(Coeffs(p, e, cur)), 0) || AllVanish(p, Coeffs(p, e, cur))
  {
    AcceptedIsAffine(p, e);
    if !Cong(p, Total(Coeffs(p, e, cur)), 0) || AllVanish(p, Coeffs(p, e, cur)) {
      forall x ensures Reads(p, e, x, cur) <==> ReadsIndependently(p, e, x, cur) {
        if Reads(p, e, x, cur) { SharedIsIndependent(p, e, x, cur); }
        if ReadsIndependently(p, e, x, cur) {
          if AllVanish(p, Coeffs(p, e, cur)) { NoneMatters(p, e, x, cur); } else { AllReadable(p, e, x, cur); }
        }
      }
    } else {
      SharingLoses(p, e, cur);
    }
  }

  /** The difference of two free inputs is always zero. */
  lemma DifferenceIsZero(p: Modulus, x: int, cur: Row)
    ensures Reads(p, Bin(SubOp, FreeInput, FreeInput), x, cur) <==> Cong(p, x, 0)
  {
    var e := Bin(SubOp, FreeInput, FreeInput);
    forall v ensures EvalAsm(p, e, cur, v) == 0 { }
    if Cong(p, x, 0) { assert 0 <= 0 < p && Cong(p, x, EvalAsm(p, e, cur, 0)); }
  }
}
