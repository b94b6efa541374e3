/** Right-hand sides: the affine form of an expression, and the assignment-register identity fed
    from a ROM line, both have the value of the source expression. */
module VmAffine {
  import opened Options
  import opened Collections
  import opened Congruence
  import opened Pil
  import opened Asm
  import opened VmCompile

  lemma {:induction false} TermSumConcat(a: seq<Term>, b: seq<Term>, cur: Row, free: int)
    ensures TermSum(a + b, cur, free) == TermSum(a, cur, free) + TermSum(b, cur, free)
  {
    if b == [] {
      assert a + b == a;
    } else {
      assert (a + b)[..|a + b| - 1] == a + b[..|b| - 1];
      TermSumConcat(a, b[..|b| - 1], cur, free);
    }
  }

  lemma {:induction false} ScaleValue(p: Modulus, f: int, ts: seq<Term>, cur: Row, free: int)
    ensures Cong(p, TermSum(Scale(p, f, ts), cur, free), f * TermSum(ts, cur, free))
  {
    if ts != [] {
      var k := |ts| - 1;
      var t := ts[k];
      var x := TermValue(Term(1, t.comp), cur, free);
      ScaleValue(p, f, ts[..k], cur, free);
      assert Scale(p, f, ts)[..k] == Scale(p, f, ts[..k]);
      CongMul(p, Rep(p, f * t.coeff), f * t.coeff, x, x);
      assert TermValue(Scale(p, f, ts)[k], cur, free) == Rep(p, f * t.coeff) * x;
      assert TermValue(t, cur, free) == t.coeff * x;
      Assoc(f, t.coeff, x);
      CongAdd(p, TermSum(Scale(p, f, ts[..k]), cur, free), f * TermSum(ts[..k], cur, free),
              Rep(p, f * t.coeff) * x, f * t.coeff * x);
      Distribute(f, TermSum(ts[..k], cur, free), t.coeff * x);
    }
  }

  lemma Assoc(a: int, b: int, c: int) ensures a * b * c == a * (b * c) {}

  lemma Distribute(f: int, a: int, b: int) ensures f * (a + b) == f * a + f * b {}

  lemma ConstantValue(ts: seq<Term>, cur: Row, free: int)
    requires IsConstant(ts)
    ensures TermSum(ts, cur, free) == ts[0].coeff
  {
    assert ts[..0] == [];
  }

  /** The affine form denotes the expression it was made from. */
  lemma {:induction false} ProcessValueCorrect(p: Modulus, e: AsmExpr, cur: Row, free: int)
    requires ProcessValue(p, e).Some?
    ensures Cong(p, TermSum(ProcessValue(p, e).value, cur, free), EvalAsm(p, e, cur, free))
  {
    var ts := ProcessValue(p, e).value;
    match e
    case Number(n) => ConstantValue(ts, cur, free);
    case Ref(x) => assert ts[..0] == [];
    case FreeInput => assert ts[..0] == [];
    case Minus(a) =>
      ProcessValueCorrect(p, a, cur, free);
      NegatedValue(p, ProcessValue(p, a).value, EvalAsm(p, a, cur, free), cur, free);
    case Bin(op, a, b) =>
      ProcessValueCorrect(p, a, cur, free);
      ProcessValueCorrect(p, b, cur, free);
      BinaryValue(p, op, a, b, cur, free);
  }

  lemma {:induction false} BinaryValue(p: Modulus, op: AsmOp, a: AsmExpr, b: AsmExpr, cur: Row, free: int)
    requires ProcessValue(p, Bin(op, a, b)).Some?
    requires Cong(p, TermSum(ProcessValue(p, a).value, cur, free), EvalAsm(p, a, cur, free))
    requires Cong(p, TermSum(ProcessValue(p, b).value, cur, free), EvalAsm(p, b, cur, free))
    ensures Cong(p, TermSum(ProcessValue(p, Bin(op, a, b)).value, cur, free), EvalAsm(p, Bin(op, a, b), cur, free))
  {
    var l, r := ProcessValue(p, a).value, ProcessValue(p, b).value;
    var x, y := EvalAsm(p, a, cur, free), EvalAsm(p, b, cur, free);
    match op {
      case AddOp => SumValue(p, l, r, x, y, cur, free);
      case SubOp =>
        NegatedValue(p, r, y, cur, free);
        SumValue(p, l, Scale(p, -1, r), x, 0 - y, cur, free);
      case MulOp =>
        if IsConstant(l) {
          ProductValue(p, l, r, x, y, cur, free);
        } else {
          ProductValue(p, r, l, y, x, cur, free);
        }
      case PowOp =>
        CoeffCanonical(p, b, 0);
        PowerValue(p, l, r, ProcessValue(p, Bin(op, a, b)).value, x, y, cur, free);
    }
  }

  lemma SumValue(p: Modulus, l: seq<Term>, r: seq<Term>, x: int, y: int, cur: Row, free: int)
    requires Cong(p, TermSum(l, cur, free), x) && Cong(p, TermSum(r, cur, free), y)
    ensures Cong(p, TermSum(l + r, cur, free), x + y)
  {
    TermSumConcat(l, r, cur, free);
    CongAdd(p, TermSum(l, cur, free), x, TermSum(r, cur, free), y);
  }

  lemma PowerValue(p: Modulus, l: seq<Term>, r: seq<Term>, ts: seq<Term>, x: int, y: int, cur: Row, free: int)
    requires IsConstant(l) && IsConstant(r) && 0 <= r[0].coeff < p
    requires ts == [Term(Rep(p, Pow(l[0].coeff, r[0].coeff)), ConstantPart)]
    requires Cong(p, TermSum(l, cur, free), x) && Cong(p, TermSum(r, cur, free), y)
    ensures Cong(p, TermSum(ts, cur, free), Pow(x, Rep(p, y)))
  {
    ConstantValue(l, cur, free);
    ConstantValue(r, cur, free);
    ConstantValue(ts, cur, free);
    CanonicalEq(p, r[0].coeff, Rep(p, y));
    CongPow(p, l[0].coeff, x, r[0].coeff);
  }

  lemma NegatedValue(p: Modulus, ts: seq<Term>, x: int, cur: Row, free: int)
    requires Cong(p, TermSum(ts, cur, free), x)
    ensures Cong(p, TermSum(Scale(p, -1, ts), cur, free), 0 - x)
  {
    ScaleValue(p, -1, ts, cur, free);
    CongSub(p, 0, 0, TermSum(ts, cur, free), x);
  }

  lemma ProductValue(p: Modulus, l: seq<Term>, r: seq<Term>, x: int, y: int, cur: Row, free: int)
    requires IsConstant(l)
    requires Cong(p, TermSum(l, cur, free), x) && Cong(p, TermSum(r, cur, free), y)
    ensures Cong(p, TermSum(Scale(p, l[0].coeff, r), cur, free), x * y)
  {
    ConstantValue(l, cur, free);
    ScaleValue(p, l[0].coeff, r, cur, free);
    CongMul(p, l[0].coeff, x, TermSum(r, cur, free), y);
  }

  lemma {:induction false} CoeffCanonical(p: Modulus, e: AsmExpr, k: nat)
    requires ProcessValue(p, e).Some? && k < |ProcessValue(p, e).value|
    ensures 0 <= ProcessValue(p, e).value[k].coeff < p
  {
    if e.Bin? && e.op.AddOp? {
      var l := ProcessValue(p, e.l).value;
      if k < |l| { CoeffCanonical(p, e.l, k); } else { CoeffCanonical(p, e.r, k - |l|); }
    } else if e.Bin? && e.op.SubOp? {
      var l := ProcessValue(p, e.l).value;
      if k < |l| { CoeffCanonical(p, e.l, k); }
    }
  }

  // ----- the assignment-register identity -----

  /** Sum of coefficient times register over the readable registers. */
  function RegisterSum(regs: seq<string>, ts: seq<Term>, cur: Row): int {
    if regs == [] then 0
    else
      var r := regs[|regs| - 1];
      RegisterSum(regs[..|regs| - 1], ts, cur) + CoeffSum(ts, RegisterPart(r)) * cur(Named(r))
  }

  lemma {:induction false} RegisterSumStep(regs: seq<string>, ts: seq<Term>, t: Term, cur: Row)
    requires Distinct(regs)
    ensures RegisterSum(regs, ts + [t], cur) == RegisterSum(regs, ts, cur)
            + (if t.comp.RegisterPart? && t.comp.name in regs then t.coeff * cur(Named(t.comp.name)) else 0)
  {
    assert (ts + [t])[..|ts|] == ts;
    if regs != [] {
      var k := |regs| - 1;
      var r := regs[k];
      RegisterSumStep(regs[..k], ts, t, cur);
      var c := CoeffSum(ts, RegisterPart(r));
      if t.comp == RegisterPart(r) {
        assert r !in regs[..k];
        assert CoeffSum(ts + [t], RegisterPart(r)) == c + t.coeff;
        Distribute(cur(Named(r)), c, t.coeff);
      } else {
        assert CoeffSum(ts + [t], RegisterPart(r)) == c;
        assert t.comp.RegisterPart? ==> (t.comp.name in regs <==> t.comp.name in regs[..k]);
      }
    }
  }

  lemma {:induction false} EmptyRegisterSum(regs: seq<string>, cur: Row)
    ensures RegisterSum(regs, [], cur) == 0
  {
    if regs != [] { EmptyRegisterSum(regs[..|regs| - 1], cur); }
  }

  /** Grouping the terms by component does not change their sum. */
  lemma {:induction false} GroupedSum(regs: seq<string>, ts: seq<Term>, cur: Row, free: int)
    requires Distinct(regs)
    requires forall k :: 0 <= k < |ts| && ts[k].comp.RegisterPart? ==> ts[k].comp.name in regs
    ensures RegisterSum(regs, ts, cur) + CoeffSum(ts, ConstantPart) + CoeffSum(ts, FreePart) * free
            == TermSum(ts, cur, free)
  {
    if ts == [] {
      EmptyRegisterSum(regs, cur);
    } else {
      var k := |ts| - 1;
      var t := ts[k];
      GroupedSum(regs, ts[..k], cur, free);
      assert ts == ts[..k] + [t];
      RegisterSumStep(regs, ts[..k], t, cur);
      Balance(RegisterSum(regs, ts[..k], cur), CoeffSum(ts[..k], ConstantPart), CoeffSum(ts[..k], FreePart), free, TermSum(ts[..k], cur, free),
              RegisterSum(regs, ts, cur), CoeffSum(ts, ConstantPart), CoeffSum(ts, FreePart), t, cur);
    }
  }

  lemma Balance(r: int, c: int, f: int, free: int, s: int, r': int, c': int, f': int, t: Term, cur: Row)
    requires r + c + f * free == s
    requires r' == r + (if t.comp.RegisterPart? then TermValue(t, cur, free) else 0)
    requires c' == c + (if t.comp == ConstantPart then t.coeff else 0) && f' == f + if t.comp == FreePart then t.coeff else 0
    ensures r' + c' + f' * free == s + TermValue(t, cur, free)
  {
    if t.comp == FreePart { Distribute(free, f, t.coeff); }
  }

  /** Right-hand side of the assignment-register identity when the row carries ROM line `line`. */
  function RomRhs(p: Modulus, g: Program, pos: map<string, nat>, line: CodeLine, a: string, regs: seq<string>, cur: Row): int {
    if regs == [] then 0
    else
      var r := regs[|regs| - 1];
      RomRhs(p, g, pos, line, a, regs[..|regs| - 1], cur)
      + RomEntry(p, g, pos, line, ReadCoef(a, r)) * cur(Named(r))
  }

  lemma {:induction false} ReadProductsValue(p: Modulus, g: Program, pos: map<string, nat>, line: CodeLine, a: string,
                                             regs: seq<string>, cur: Row, nxt: Row)
    requires forall r :: r in regs ==> cur(ReadCoef(a, r)) == RomEntry(p, g, pos, line, ReadCoef(a, r))
    ensures SumEval(ReadProducts(a, regs), cur, nxt) == RomRhs(p, g, pos, line, a, regs, cur)
  {
    if regs != [] {
      var k := |regs| - 1;
      ReadProductsValue(p, g, pos, line, a, regs[..k], cur, nxt);
      SumEvalConcat(ReadProducts(a, regs[..k]), [Mul(Col(ReadCoef(a, regs[k])), Col(Named(regs[k])))], cur, nxt);
      SumEvalOne(Mul(Col(ReadCoef(a, regs[k])), Col(Named(regs[k]))), cur, nxt);
    }
  }

  lemma SumEvalOne(e: Expr, cur: Row, nxt: Row)
    ensures SumEval([e], cur, nxt) == Eval(e, cur, nxt)
  {
    assert [e][..0] == [];
  }

  lemma {:induction false} RomRhsValue(p: Modulus, g: Program, pos: map<string, nat>, line: CodeLine, a: string,
                                       regs: seq<string>, cur: Row)
    ensures a in line.value ==> Cong(p, RomRhs(p, g, pos, line, a, regs, cur), RegisterSum(regs, line.value[a], cur))
    ensures a !in line.value ==> RomRhs(p, g, pos, line, a, regs, cur) == 0
  {
    if regs != [] {
      var k := |regs| - 1;
      RomRhsValue(p, g, pos, line, a, regs[..k], cur);
      if a in line.value {
        var c := CoeffSum(line.value[a], RegisterPart(regs[k]));
        var x := cur(Named(regs[k]));
        CongMul(p, Rep(p, c), c, x, x);
        CongAdd(p, RomRhs(p, g, pos, line, a, regs[..k], cur), RegisterSum(regs[..k], line.value[a], cur), Rep(p, c) * x, c * x);
      }
    }
  }

  /** The value of the right-hand side of the identity for `a` on a row that carries `line`. */
  lemma AssignRhs(p: Modulus, g: Program, pos: map<string, nat>, line: CodeLine, a: string, cur: Row, nxt: Row)
    requires forall r :: r in ReadRegs(g.m) ==> cur(ReadCoef(a, r)) == RomEntry(p, g, pos, line, ReadCoef(a, r))
    requires cur(Const(a)) == RomEntry(p, g, pos, line, Const(a))
    requires cur(ReadFree(a)) == RomEntry(p, g, pos, line, ReadFree(a))
    ensures Eval(AssignIdentity(g.m, a).rhs, cur, nxt)
            == RomRhs(p, g, pos, line, a, ReadRegs(g.m), cur) + RomEntry(p, g, pos, line, Const(a))
               + RomEntry(p, g, pos, line, ReadFree(a)) * cur(FreeValue(a))
  {
    var ps := ReadProducts(a, ReadRegs(g.m));
    var c, f := Col(Const(a)), Mul(Col(ReadFree(a)), Col(FreeValue(a)));
    SumExprEval(ps + [c, f], cur, nxt);
    SumEvalConcat(ps, [c, f], cur, nxt);
    assert [c, f] == [c] + [f];
    SumEvalConcat([c], [f], cur, nxt);
    SumEvalOne(c, cur, nxt);
    SumEvalOne(f, cur, nxt);
    ReadProductsValue(p, g, pos, line, a, ReadRegs(g.m), cur, nxt);
  }

  /** With the coefficients of the line's own right-hand side, the sum is that right-hand side. */
  lemma AffineRhs(p: Modulus, g: Program, pos: map<string, nat>, line: CodeLine, a: string, cur: Row, free: int)
    requires a in line.value && Distinct(ReadRegs(g.m))
    requires forall k :: 0 <= k < |line.value[a]| && line.value[a][k].comp.RegisterPart? ==>
               line.value[a][k].comp.name in ReadRegs(g.m)
    ensures Cong(p, RomRhs(p, g, pos, line, a, ReadRegs(g.m), cur)
                    + Rep(p, CoeffSum(line.value[a], ConstantPart)) + Rep(p, CoeffSum(line.value[a], FreePart)) * free,
                 TermSum(line.value[a], cur, free))
  {
    var ts := line.value[a];
    var regs := ReadRegs(g.m);
    RomRhsValue(p, g, pos, line, a, regs, cur);
    GroupedSum(regs, ts, cur, free);
    CongAdd(p, RomRhs(p, g, pos, line, a, regs, cur), RegisterSum(regs, ts, cur),
            Rep(p, CoeffSum(ts, ConstantPart)), CoeffSum(ts, ConstantPart));
    CongMul(p, Rep(p, CoeffSum(ts, FreePart)), CoeffSum(ts, FreePart), free, free);
    CongAdd(p, RomRhs(p, g, pos, line, a, regs, cur) + Rep(p, CoeffSum(ts, ConstantPart)),
            RegisterSum(regs, ts, cur) + CoeffSum(ts, ConstantPart),
            Rep(p, CoeffSum(ts, FreePart)) * free, CoeffSum(ts, FreePart) * free);
  }
}
