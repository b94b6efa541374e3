/** Constraint expressions over the columns of a compiled machine, and the two expression
    transformations of the compiler: register-update sums and linearization. */
module Pil {
  import opened Options
  import opened Collections
  import opened Congruence

  /** The columns of a compiled machine. The compiler forms column names by string
      concatenation; here each naming scheme is a constructor. */
  datatype Column =
    | Named(name: string)                                  // registers and columns of the machine itself
    | InstrFlag(instr: string)                             // instr_I
    | WriteFlag(assign: string, reg: string)               // reg_write_A_R
    | Param(instr: string, param: string)                  // instr_I_param_P
    | ReadCoef(assign: string, reg: string)                // read_A_R
    | Const(assign: string)                                // A_const
    | ReadFree(assign: string)                             // A_read_free
    | FreeValue(assign: string)                            // A_free_value
    | PcUpdate                                             // pc_update
    | FirstStep                                            // first_step
    | LastStep                                             // _block_enforcer_last_step
    | Inter(instr: string, reg: string, index: nat)        // instr_I_R_update_k

  datatype Expr =
    | Num(n: int)
    | Col(c: Column)
    | Next(c: Column)
    | Neg(e: Expr)
    | Add(l: Expr, r: Expr)
    | Sub(l: Expr, r: Expr)
    | Mul(l: Expr, r: Expr)

  datatype Identity = Identity(lhs: Expr, rhs: Expr)

  type Row = Column -> int

  function Eval(e: Expr, cur: Row, nxt: Row): int {
    match e
    case Num(n) => n
    case Col(c) => cur(c)
    case Next(c) => nxt(c)
    case Neg(a) => -Eval(a, cur, nxt)
    case Add(a, b) => Eval(a, cur, nxt) + Eval(b, cur, nxt)
    case Sub(a, b) => Eval(a, cur, nxt) - Eval(b, cur, nxt)
    case Mul(a, b) => Eval(a, cur, nxt) * Eval(b, cur, nxt)
  }

  predicate Holds(p: Modulus, id: Identity, cur: Row, nxt: Row) {
    Cong(p, Eval(id.lhs, cur, nxt), Eval(id.rhs, cur, nxt))
  }

  /** Every column of `e` satisfies `f`. */
  predicate All(e: Expr, f: Column -> bool) {
    match e
    case Num(_) => true
    case Col(c) => f(c)
    case Next(c) => f(c)
    case Neg(a) => All(a, f)
    case Add(a, b) => All(a, f) && All(b, f)
    case Sub(a, b) => All(a, f) && All(b, f)
    case Mul(a, b) => All(a, f) && All(b, f)
  }

  lemma {:induction false} EvalAgree(e: Expr, f: Column -> bool, cur: Row, nxt: Row, cur': Row, nxt': Row)
    requires All(e, f)
    requires forall c :: f(c) ==> cur(c) == cur'(c) && nxt(c) == nxt'(c)
    ensures Eval(e, cur, nxt) == Eval(e, cur', nxt')
  {
    match e
    case Num(_) =>
    case Col(c) => assert f(c);
    case Next(c) => assert f(c);
    case Neg(a) => EvalAgree(a, f, cur, nxt, cur', nxt');
    case Add(a, b) => EvalAgree(a, f, cur, nxt, cur', nxt'); EvalAgree(b, f, cur, nxt, cur', nxt');
    case Sub(a, b) => EvalAgree(a, f, cur, nxt, cur', nxt'); EvalAgree(b, f, cur, nxt, cur', nxt');
    case Mul(a, b) => EvalAgree(a, f, cur, nxt, cur', nxt'); EvalAgree(b, f, cur, nxt, cur', nxt');
  }

  /** Sum of a list of expressions; the empty sum is the literal 0. */
  function SumExpr(es: seq<Expr>): Expr {
    if es == [] then Num(0)
    else if |es| == 1 then es[0]
    else Add(SumExpr(es[..|es| - 1]), es[|es| - 1])
  }

  function SumEval(es: seq<Expr>, cur: Row, nxt: Row): int {
    if es == [] then 0 else SumEval(es[..|es| - 1], cur, nxt) + Eval(es[|es| - 1], cur, nxt)
  }

  lemma {:induction false} SumExprEval(es: seq<Expr>, cur: Row, nxt: Row)
    ensures Eval(SumExpr(es), cur, nxt) == SumEval(es, cur, nxt)
  {
    if |es| > 1 {
      SumExprEval(es[..|es| - 1], cur, nxt);
    } else if |es| == 1 {
      assert es[..0] == [];
    }
  }

  lemma {:induction false} SumEvalConcat(a: seq<Expr>, b: seq<Expr>, cur: Row, nxt: Row)
    ensures SumEval(a + b, cur, nxt) == SumEval(a, cur, nxt) + SumEval(b, cur, nxt)
  {
    if b == [] {
      assert a + b == a;
    } else {
      assert (a + b)[..|a + b| - 1] == a + b[..|b| - 1];
      SumEvalConcat(a, b[..|b| - 1], cur, nxt);
    }
  }

  // ----- register updates -----

  datatype Update = Update(cond: Expr, value: Expr)

  function Products(us: seq<Update>): seq<Expr> {
    seq(|us|, i requires 0 <= i < |us| => Mul(us[i].cond, us[i].value))
  }

  function Conds(us: seq<Update>): seq<Expr> {
    seq(|us|, i requires 0 <= i < |us| => us[i].cond)
  }

  /** The expression assigned to a register in the next row. */
  function UpdateExpression(us: seq<Update>, dflt: Option<Expr>): Option<Expr> {
    if |us| == 0 then dflt
    else if dflt.None? then Some(SumExpr(Products(us)))
    else Some(Add(SumExpr(Products(us)), Mul(Sub(Num(1), SumExpr(Conds(us))), dflt.value)))
  }

  /** Sum of `cond * (value - d)` over all updates. */
  function Deviation(us: seq<Update>, d: int, cur: Row, nxt: Row): int {
    if us == [] then 0
    else
      var u := us[|us| - 1];
      Deviation(us[..|us| - 1], d, cur, nxt) + Eval(u.cond, cur, nxt) * (Eval(u.value, cur, nxt) - d)
  }

  /** The value of an update sum, for arbitrary (not necessarily boolean or exclusive) conditions. */
  lemma {:induction false} DeviationOfSums(us: seq<Update>, d: int, cur: Row, nxt: Row)
    ensures SumEval(Products(us), cur, nxt) + (1 - SumEval(Conds(us), cur, nxt)) * d
            == d + Deviation(us, d, cur, nxt)
  {
    if us != [] {
      var k := |us| - 1;
      DeviationOfSums(us[..k], d, cur, nxt);
      assert Products(us)[..k] == Products(us[..k]);
      assert Conds(us)[..k] == Conds(us[..k]);
      Regroup(SumEval(Products(us[..k]), cur, nxt), SumEval(Conds(us[..k]), cur, nxt),
              Eval(us[k].cond, cur, nxt), Eval(us[k].value, cur, nxt), d);
    }
  }

  lemma Regroup(s: int, t: int, c: int, v: int, d: int)
    ensures (s + c * v) + (1 - (t + c)) * d == (s + (1 - t) * d) + c * (v - d)
  {
  }

  lemma UpdateExpressionValue(us: seq<Update>, d: Expr, cur: Row, nxt: Row)
    ensures UpdateExpression(us, Some(d)).Some?
    ensures Eval(UpdateExpression(us, Some(d)).value, cur, nxt)
            == Eval(d, cur, nxt) + Deviation(us, Eval(d, cur, nxt), cur, nxt)
  {
    if |us| > 0 {
      SumExprEval(Products(us), cur, nxt);
      SumExprEval(Conds(us), cur, nxt);
      DeviationOfSums(us, Eval(d, cur, nxt), cur, nxt);
      var rest := Sub(Num(1), SumExpr(Conds(us)));
      assert Eval(rest, cur, nxt) == 1 - SumEval(Conds(us), cur, nxt);
      assert Eval(Mul(rest, d), cur, nxt) == Eval(rest, cur, nxt) * Eval(d, cur, nxt);
    } else {
      assert us == [];
    }
  }

  lemma {:induction false} DeviationConcat(a: seq<Update>, b: seq<Update>, d: int, cur: Row, nxt: Row)
    ensures Deviation(a + b, d, cur, nxt) == Deviation(a, d, cur, nxt) + Deviation(b, d, cur, nxt)
  {
    if b == [] {
      assert a + b == a;
    } else {
      assert (a + b)[..|a + b| - 1] == a + b[..|b| - 1];
      DeviationConcat(a, b[..|b| - 1], d, cur, nxt);
    }
  }

  /** Without a default, the update sum is the deviation from zero. */
  lemma UpdateExpressionNoDefault(us: seq<Update>, cur: Row, nxt: Row)
    requires |us| > 0
    ensures UpdateExpression(us, None).Some?
    ensures Eval(UpdateExpression(us, None).value, cur, nxt) == Deviation(us, 0, cur, nxt)
  {
    SumExprEval(Products(us), cur, nxt);
    DeviationOfSums(us, 0, cur, nxt);
  }

  /** Deviation when every condition vanishes in the field. */
  lemma {:induction false} DeviationInactive(p: Modulus, us: seq<Update>, d: int, cur: Row, nxt: Row)
    requires forall i :: 0 <= i < |us| ==> Cong(p, Eval(us[i].cond, cur, nxt), 0)
    ensures Cong(p, Deviation(us, d, cur, nxt), 0)
  {
    if us != [] {
      var k := |us| - 1;
      var u := us[k];
      DeviationInactive(p, us[..k], d, cur, nxt);
      var x := Eval(u.value, cur, nxt) - d;
      CongMul(p, Eval(u.cond, cur, nxt), 0, x, x);
      CongAdd(p, Deviation(us[..k], d, cur, nxt), 0, Eval(u.cond, cur, nxt) * x, 0);
    }
  }

  /** Condition `i` is 1 in the field if `i` is in `active`, and 0 otherwise. */
  ghost predicate ActiveAt(p: Modulus, us: seq<Update>, active: set<int>, cur: Row, nxt: Row) {
    forall i :: 0 <= i < |us| ==> Cong(p, Eval(us[i].cond, cur, nxt), if i in active then 1 else 0)
  }

  lemma LastDeviation(p: Modulus, us: seq<Update>, d: int, cur: Row, nxt: Row, x: int)
    requires us != [] && Cong(p, Deviation(us[..|us| - 1], d, cur, nxt), x)
    requires var c := Eval(us[|us| - 1].cond, cur, nxt); Cong(p, c, 0) || Cong(p, c, 1)
    ensures Cong(p, Deviation(us, d, cur, nxt),
                 x + if Cong(p, Eval(us[|us| - 1].cond, cur, nxt), 1) then Eval(us[|us| - 1].value, cur, nxt) - d else 0)
  {
    var u := us[|us| - 1];
    var c, v := Eval(u.cond, cur, nxt), Eval(u.value, cur, nxt) - d;
    var b := if Cong(p, c, 1) then 1 else 0;
    CongMul(p, c, b, v, v);
    CongAdd(p, Deviation(us[..|us| - 1], d, cur, nxt), x, c * v, b * v);
  }

  lemma {:induction false} DeviationOne(p: Modulus, us: seq<Update>, d: int, cur: Row, nxt: Row, i: nat)
    requires i < |us| && ActiveAt(p, us, {i}, cur, nxt)
    ensures Cong(p, Deviation(us, d, cur, nxt), Eval(us[i].value, cur, nxt) - d)
  {
    var k := |us| - 1;
    if i == k {
      DeviationInactive(p, us[..k], d, cur, nxt);
      LastDeviation(p, us, d, cur, nxt, 0);
    } else {
      DeviationOne(p, us[..k], d, cur, nxt, i);
      LastDeviation(p, us, d, cur, nxt, Eval(us[i].value, cur, nxt) - d);
    }
  }

  lemma {:induction false} DeviationTwo(p: Modulus, us: seq<Update>, d: int, cur: Row, nxt: Row, i: nat, j: nat)
    requires i < j < |us| && ActiveAt(p, us, {i, j}, cur, nxt)
    ensures Cong(p, Deviation(us, d, cur, nxt), Eval(us[i].value, cur, nxt) - d + Eval(us[j].value, cur, nxt) - d)
  {
    var k := |us| - 1;
    if j == k {
      DeviationOne(p, us[..k], d, cur, nxt, i);
      LastDeviation(p, us, d, cur, nxt, Eval(us[i].value, cur, nxt) - d);
    } else {
      DeviationTwo(p, us[..k], d, cur, nxt, i, j);
      LastDeviation(p, us, d, cur, nxt, Eval(us[i].value, cur, nxt) - d + Eval(us[j].value, cur, nxt) - d);
    }
  }

  /** With exactly one active condition, the update expression has the value of its update. */
  lemma OneActiveCondition(p: Modulus, us: seq<Update>, d: Expr, cur: Row, nxt: Row, i: nat)
    requires i < |us| && ActiveAt(p, us, {i}, cur, nxt)
    ensures Cong(p, Eval(UpdateExpression(us, Some(d)).value, cur, nxt), Eval(us[i].value, cur, nxt))
  {
    var x := Eval(d, cur, nxt);
    UpdateExpressionValue(us, d, cur, nxt);
    DeviationOne(p, us, x, cur, nxt, i);
    CongAdd(p, x, x, Deviation(us, x, cur, nxt), Eval(us[i].value, cur, nxt) - x);
  }

  /** Two active conditions corrupt the register: both values are added and the default is subtracted
      once. */
  lemma TwoActiveConditions(p: Modulus, us: seq<Update>, d: Expr, cur: Row, nxt: Row, i: nat, j: nat)
    requires i < j < |us| && ActiveAt(p, us, {i, j}, cur, nxt)
    ensures Cong(p, Eval(UpdateExpression(us, Some(d)).value, cur, nxt),
                 Eval(us[i].value, cur, nxt) + Eval(us[j].value, cur, nxt) - Eval(d, cur, nxt))
  {
    var x := Eval(d, cur, nxt);
    UpdateExpressionValue(us, d, cur, nxt);
    DeviationTwo(p, us, x, cur, nxt, i, j);
    CongAdd(p, x, x, Deviation(us, x, cur, nxt), Eval(us[i].value, cur, nxt) - x + Eval(us[j].value, cur, nxt) - x);
  }

  /** The product of instruction flag and link flag; a link flag that is the literal 1 is dropped. */
  function CombineFlags(instrFlag: Option<Expr>, linkFlag: Expr): Expr {
    if instrFlag.None? then linkFlag
    else if linkFlag == Num(1) then instrFlag.value
    else Mul(instrFlag.value, linkFlag)
  }

  // ----- linearization -----

  datatype Definition = Definition(c: Column, e: Expr)

  datatype Linear = Linear(counter: nat, e: Expr, defs: seq<Definition>)

  /** Replaces every product by a fresh intermediate column. Unary operations are not entered. */
  function LinearizeRec(instr: string, reg: string, counter: nat, e: Expr): (r: Linear)
    ensures r.counter == counter + |r.defs|
    ensures forall i :: 0 <= i < |r.defs| ==> r.defs[i].c == Inter(instr, reg, counter + i)
    decreases e
  {
    match e
    case Add(a, b) =>
      var x := LinearizeRec(instr, reg, counter, a);
      var y := LinearizeRec(instr, reg, x.counter, b);
      Linear(y.counter, Add(x.e, y.e), x.defs + y.defs)
    case Sub(a, b) =>
      var x := LinearizeRec(instr, reg, counter, a);
      var y := LinearizeRec(instr, reg, x.counter, b);
      Linear(y.counter, Sub(x.e, y.e), x.defs + y.defs)
    case Mul(a, b) =>
      var x := LinearizeRec(instr, reg, counter, a);
      var y := LinearizeRec(instr, reg, x.counter, b);
      var c := Inter(instr, reg, y.counter);
      Linear(y.counter + 1, Col(c), x.defs + y.defs + [Definition(c, Mul(x.e, y.e))])
    case _ => Linear(counter, e, [])
  }

  function Linearize(instr: string, reg: string, e: Expr): Linear {
    LinearizeRec(instr, reg, 0, e)
  }

  function SubstCol(e: Expr, c: Column, d: Expr): Expr {
    match e
    case Num(_) => e
    case Col(c') => if c' == c then d else e
    case Next(_) => e
    case Neg(a) => Neg(SubstCol(a, c, d))
    case Add(a, b) => Add(SubstCol(a, c, d), SubstCol(b, c, d))
    case Sub(a, b) => Sub(SubstCol(a, c, d), SubstCol(b, c, d))
    case Mul(a, b) => Mul(SubstCol(a, c, d), SubstCol(b, c, d))
  }

  /** Intermediate polynomials are macros: a definition may use earlier ones, so they are
      expanded from the last to the first. */
  function Expand(ds: seq<Definition>, e: Expr): Expr {
    if ds == [] then e
    else
      var d := ds[|ds| - 1];
      Expand(ds[..|ds| - 1], SubstCol(e, d.c, d.e))
  }

  lemma {:induction false} ExpandConcat(a: seq<Definition>, b: seq<Definition>, e: Expr)
    ensures Expand(a + b, e) == Expand(a, Expand(b, e))
  {
    if b == [] {
      assert a + b == a;
    } else {
      var d := b[|b| - 1];
      assert (a + b)[..|a + b| - 1] == a + b[..|b| - 1];
      ExpandConcat(a, b[..|b| - 1], SubstCol(e, d.c, d.e));
    }
  }

  lemma {:induction false} SubstColFresh(e: Expr, c: Column, d: Expr, f: Column -> bool)
    requires All(e, f) && !f(c)
    ensures SubstCol(e, c, d) == e
  {
    match e
    case Num(_) =>
    case Col(_) =>
    case Next(_) =>
    case Neg(a) => SubstColFresh(a, c, d, f);
    case Add(a, b) => SubstColFresh(a, c, d, f); SubstColFresh(b, c, d, f);
    case Sub(a, b) => SubstColFresh(a, c, d, f); SubstColFresh(b, c, d, f);
    case Mul(a, b) => SubstColFresh(a, c, d, f); SubstColFresh(b, c, d, f);
  }

  lemma {:induction false} ExpandFresh(ds: seq<Definition>, e: Expr, f: Column -> bool)
    requires All(e, f)
    requires forall i :: 0 <= i < |ds| ==> !f(ds[i].c)
    ensures Expand(ds, e) == e
  {
    if ds != [] {
      var d := ds[|ds| - 1];
      SubstColFresh(e, d.c, d.e, f);
      ExpandFresh(ds[..|ds| - 1], e, f);
    }
  }

  lemma {:induction false} ExpandHomomorphic(ds: seq<Definition>, a: Expr, b: Expr)
    ensures Expand(ds, Add(a, b)) == Add(Expand(ds, a), Expand(ds, b))
    ensures Expand(ds, Sub(a, b)) == Sub(Expand(ds, a), Expand(ds, b))
    ensures Expand(ds, Mul(a, b)) == Mul(Expand(ds, a), Expand(ds, b))
  {
    if ds != [] {
      var d := ds[|ds| - 1];
      ExpandHomomorphic(ds[..|ds| - 1], SubstCol(a, d.c, d.e), SubstCol(b, d.c, d.e));
    }
  }

  predicate NotInter(c: Column) { !c.Inter? }

  /** Columns that linearizing one update may mention: anything but intermediates, and the
      intermediates of this update with an index in `[lo, hi)`. */
  predicate InterBelow(instr: string, reg: string, lo: nat, hi: nat, c: Column) {
    c.Inter? ==> c.instr == instr && c.reg == reg && lo <= c.index < hi
  }

  lemma {:induction false} AllMono(e: Expr, f: Column -> bool, g: Column -> bool)
    requires All(e, f)
    requires forall c :: f(c) ==> g(c)
    ensures All(e, g)
  {
    match e
    case Num(_) =>
    case Col(_) =>
    case Next(_) =>
    case Neg(a) => AllMono(a, f, g);
    case Add(a, b) => AllMono(a, f, g); AllMono(b, f, g);
    case Sub(a, b) => AllMono(a, f, g); AllMono(b, f, g);
    case Mul(a, b) => AllMono(a, f, g); AllMono(b, f, g);
  }

  lemma Widen(e: Expr, instr: string, reg: string, lo: nat, hi: nat, lo': nat, hi': nat)
    requires All(e, c => InterBelow(instr, reg, lo, hi, c))
    requires lo' <= lo && hi <= hi'
    ensures All(e, c => InterBelow(instr, reg, lo', hi', c))
  {
    AllMono(e, c => InterBelow(instr, reg, lo, hi, c), c => InterBelow(instr, reg, lo', hi', c));
  }

  lemma {:induction false} LinearizeScope(instr: string, reg: string, counter: nat, e: Expr)
    requires All(e, NotInter)
    ensures var r := LinearizeRec(instr, reg, counter, e);
            All(r.e, c => InterBelow(instr, reg, counter, r.counter, c))
    decreases e
  {
    if e.Add? || e.Sub? {
      var x := LinearizeRec(instr, reg, counter, e.l);
      var y := LinearizeRec(instr, reg, x.counter, e.r);
      LinearizeScope(instr, reg, counter, e.l);
      LinearizeScope(instr, reg, x.counter, e.r);
      Widen(x.e, instr, reg, counter, x.counter, counter, y.counter);
      Widen(y.e, instr, reg, x.counter, y.counter, counter, y.counter);
    } else if !e.Mul? {
      AllMono(e, NotInter, c => InterBelow(instr, reg, counter, counter, c));
    }
  }

  /** Expanding the introduced columns gives back the original expression. */
  lemma {:induction false} LinearizeExpands(instr: string, reg: string, counter: nat, e: Expr)
    requires All(e, NotInter)
    ensures var r := LinearizeRec(instr, reg, counter, e);
            Expand(r.defs, r.e) == e
    decreases e
  {
    var r := LinearizeRec(instr, reg, counter, e);
    if e.Add? || e.Sub? || e.Mul? {
      var x := LinearizeRec(instr, reg, counter, e.l);
      var y := LinearizeRec(instr, reg, x.counter, e.r);
      LinearizeExpands(instr, reg, counter, e.l);
      LinearizeExpands(instr, reg, x.counter, e.r);
      LinearizeScope(instr, reg, counter, e.l);
      ExpandConcat(x.defs, y.defs, x.e);
      ExpandConcat(x.defs, y.defs, y.e);
      ExpandFresh(y.defs, x.e, c => InterBelow(instr, reg, counter, x.counter, c));
      ExpandFresh(x.defs, e.r, NotInter);
      ExpandHomomorphic(x.defs + y.defs, x.e, y.e);
      if e.Mul? {
        assert r.defs[..|r.defs| - 1] == x.defs + y.defs;
      }
    }
  }

  // ----- degrees -----

  /** The degree of an expression, counting every column as an atom. */
  function Degree(e: Expr): nat {
    match e
    case Num(_) => 0
    case Col(_) => 1
    case Next(_) => 1
    case Neg(a) => Degree(a)
    case Add(a, b) => Max(Degree(a), Degree(b))
    case Sub(a, b) => Max(Degree(a), Degree(b))
    case Mul(a, b) => Degree(a) + Degree(b)
  }

  /** Products occur only under `+`, `-` and `*`, never under a unary operator. */
  predicate NoProductUnderNeg(e: Expr) {
    match e
    case Neg(a) => Degree(a) <= 1
    case Add(a, b) => NoProductUnderNeg(a) && NoProductUnderNeg(b)
    case Sub(a, b) => NoProductUnderNeg(a) && NoProductUnderNeg(b)
    case Mul(a, b) => NoProductUnderNeg(a) && NoProductUnderNeg(b)
    case _ => true
  }

  /** Every definition is a product of two linear expressions, hence of degree at most two. */
  predicate LinearProducts(defs: seq<Definition>) {
    forall i :: 0 <= i < |defs| ==> defs[i].e.Mul? && Degree(defs[i].e.l) <= 1 && Degree(defs[i].e.r) <= 1
  }

  lemma LinearProductsConcat(a: seq<Definition>, b: seq<Definition>)
    ensures LinearProducts(a + b) <==> LinearProducts(a) && LinearProducts(b)
  {
    assert forall i :: 0 <= i < |a| ==> (a + b)[i] == a[i];
    assert forall i :: 0 <= i < |b| ==> (a + b)[|a| + i] == b[i];
  }

  lemma LinearProductsSnoc(a: seq<Definition>, d: Definition)
    requires d.e.Mul?
    ensures LinearProducts(a + [d]) <==> LinearProducts(a) && Degree(d.e.l) <= 1 && Degree(d.e.r) <= 1
  {
    LinearProductsConcat(a, [d]);
    assert [d][0] == d;
  }

  /** Linearization gives a linear expression and products of linear expressions exactly if no product
      occurs under a unary operator. */
  lemma {:induction false} LinearizeDegree(instr: string, reg: string, counter: nat, e: Expr)
    ensures var r := LinearizeRec(instr, reg, counter, e);
            Degree(r.e) <= 1 && LinearProducts(r.defs) <==> NoProductUnderNeg(e)
    decreases e
  {
    if e.Add? || e.Sub? || e.Mul? {
      var x := LinearizeRec(instr, reg, counter, e.l);
      var y := LinearizeRec(instr, reg, x.counter, e.r);
      LinearizeDegree(instr, reg, counter, e.l);
      LinearizeDegree(instr, reg, x.counter, e.r);
      LinearProductsConcat(x.defs, y.defs);
      if e.Mul? { LinearProductsSnoc(x.defs + y.defs, Definition(Inter(instr, reg, y.counter), Mul(x.e, y.e))); }
    }
  }

  /** A product below a unary minus is not linearized. */
  lemma NegHidesProduct(a: Column, b: Column)
    ensures var e := Neg(Mul(Col(a), Col(b)));
            Linearize("i", "r", e) == Linear(0, e, []) && Degree(e) == 2
  {
    assert Degree(Mul(Col(a), Col(b))) == Degree(Col(a)) + Degree(Col(b));
  }
}
