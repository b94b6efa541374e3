/** What it means for a value to match a pattern, said without an order of matching, and which patterns
    match every value of their type. */
module Patterns {
  import opened Options
  import opened PilLang
  import opened Named
  import NR = NameResolution

  // ----- meaning -----

  function Flatten(parts: seq<seq<Value>>): seq<Value> {
    if parts == [] then [] else parts[0] + Flatten(parts[1..])
  }

  /** `v` is an instance of the pattern, in which its variables stand for `vars`, from left to right. */
  ghost predicate Fits(v: Value, p: Pattern, vars: seq<Value>)
    decreases p
  {
    match p
    case Ellipsis => false
    case CatchAll => vars == []
    case VariableP(_) => vars == [v]
    case NumberP(n) => vars == [] && (v == VInt(n) || v == VFe(n))
    case StringP(s) => vars == [] && v == VStr(s)
    case TupleP(items) => v.VTuple? && FitsAll(v.items, items, vars)
    case ArrayP(items) => v.VArray? && FitsArray(v.items, items, vars)
    case EnumP(variant, NoFields) => v.VEnum? && v.variant == variant && vars == []
    case EnumP(variant, Fields(fs)) => v.VEnum? && v.variant == variant && v.data.Data? && FitsAll(v.data.items, fs, vars)
  }

  /** The i-th value is an instance of the i-th pattern, for every i. */
  ghost predicate FitsAll(vs: seq<Value>, ps: seq<Pattern>, vars: seq<Value>)
    decreases ps, 1
  {
    exists parts: seq<seq<Value>> :: Flatten(parts) == vars && FitsParts(vs, ps, parts)
  }

  ghost predicate FitsParts(vs: seq<Value>, ps: seq<Pattern>, parts: seq<seq<Value>>)
    decreases ps, 0
  {
    |vs| == |parts| == |ps| && forall i :: 0 <= i < |ps| ==> Fits(vs[i], ps[i], parts[i])
  }

  /** An ellipsis stands for any number of items: the patterns before it fit the first items of the array,
      those after it the last ones. */
  ghost predicate FitsArray(vs: seq<Value>, items: seq<Pattern>, vars: seq<Value>)
    decreases items, 2
  {
    || FitsAll(vs, items, vars)
    || exists k: nat, x: seq<Value>, y: seq<Value> :: FitsAround(vs, items, k, x, y) && vars == x + y
  }

  ghost predicate FitsAround(vs: seq<Value>, items: seq<Pattern>, k: nat, x: seq<Value>, y: seq<Value>)
    decreases items, 1
  {
    && k < |items| && items[k].Ellipsis? && |vs| >= |items| - 1
    && FitsAll(vs[..k], items[..k], x)
    && FitsAll(vs[|vs| - (|items| - k - 1)..], items[k + 1..], y)
  }

  // ----- the matcher finds exactly the instances -----

  /** Array patterns have at most one ellipsis, here and inside. */
  predicate Proper(p: Pattern)
    decreases p
  {
    match p
    case Ellipsis => false
    case TupleP(items) => forall q :: q in items ==> Proper(q)
    case ArrayP(items) => EllipsisCount(items) <= 1 && forall q :: q in items ==> q.Ellipsis? || Proper(q)
    case EnumP(_, Fields(fs)) => forall q :: q in fs ==> Proper(q)
    case _ => true
  }

  /** A pattern matches exactly its instances, and binds its variables from left to right. */
  lemma {:induction false} MatchMeans(v: Value, p: Pattern, vars: seq<Value>)
    requires Proper(p)
    ensures MatchPattern(v, p) == Matched(vars) <==> Fits(v, p, vars)
    decreases p
  {
    match p
    case TupleP(items) =>
      if v.VTuple? && |v.items| == |items| { AllMeans(p, v.items, items, vars); }
      if v.VTuple? && FitsAll(v.items, items, vars) { SameLength(v.items, items, vars); }
    case ArrayP(items) => if v.VArray? { ArrayMeans(p, v.items, items, vars); }
    case EnumP(variant, Fields(fs)) =>
      if v.VEnum? && v.data.Data? && |v.data.items| == |fs| { AllMeans(p, v.data.items, fs, vars); }
      if v.VEnum? && v.data.Data? && FitsAll(v.data.items, fs, vars) { SameLength(v.data.items, fs, vars); }
    case _ =>
  }

  lemma SameLength(vs: seq<Value>, ps: seq<Pattern>, vars: seq<Value>)
    requires FitsAll(vs, ps, vars)
    ensures |vs| == |ps|
  {
  }

  lemma {:induction false} AllMeans(parent: Pattern, vs: seq<Value>, ps: seq<Pattern>, vars: seq<Value>)
    requires |vs| == |ps| && forall q :: q in ps ==> q < parent && Proper(q)
    ensures MatchAll(parent, vs, ps) == Matched(vars) <==> FitsAll(vs, ps, vars)
    decreases parent, |ps|
  {
    if ps == [] {
      NoneFit(vars);
    } else {
      assert ps[0] in ps && forall q :: q in ps[1..] ==> q in ps;
      if MatchAll(parent, vs, ps) == Matched(vars) {
        var x, y := MatchPattern(vs[0], ps[0]).vars, MatchAll(parent, vs[1..], ps[1..]).vars;
        MatchMeans(vs[0], ps[0], x);
        AllMeans(parent, vs[1..], ps[1..], y);
        ConsFits(vs, ps, x, y);
      }
      if FitsAll(vs, ps, vars) {
        var x, y := TailFits(vs, ps, vars);
        MatchMeans(vs[0], ps[0], x);
        AllMeans(parent, vs[1..], ps[1..], y);
      }
    }
  }

  lemma NoneFit(vars: seq<Value>)
    ensures FitsAll([], [], vars) <==> vars == []
  {
    assert FitsParts([], [], []) && Flatten([]) == [];
  }

  lemma {:induction false} ConsFits(vs: seq<Value>, ps: seq<Pattern>, x: seq<Value>, y: seq<Value>)
    requires |vs| == |ps| > 0 && Fits(vs[0], ps[0], x) && FitsAll(vs[1..], ps[1..], y)
    ensures FitsAll(vs, ps, x + y)
  {
    var parts: seq<seq<Value>> :| Flatten(parts) == y && FitsParts(vs[1..], ps[1..], parts);
    var all := [x] + parts;
    assert all[1..] == parts;
    forall i | 0 <= i < |ps| ensures Fits(vs[i], ps[i], all[i]) {
      if i > 0 { assert Fits(vs[1..][i - 1], ps[1..][i - 1], parts[i - 1]); }
    }
    assert FitsParts(vs, ps, all);
  }

  lemma {:induction false} TailFits(vs: seq<Value>, ps: seq<Pattern>, vars: seq<Value>) returns (x: seq<Value>, y: seq<Value>)
    requires |vs| == |ps| > 0 && FitsAll(vs, ps, vars)
    ensures vars == x + y && Fits(vs[0], ps[0], x) && FitsAll(vs[1..], ps[1..], y)
  {
    var parts: seq<seq<Value>> :| Flatten(parts) == vars && FitsParts(vs, ps, parts);
    x, y := parts[0], Flatten(parts[1..]);
    assert FitsParts(vs[1..], ps[1..], parts[1..]);
  }

  // ----- arrays -----

  lemma {:induction false} ConcatFits(a: seq<Value>, l: seq<Pattern>, x: seq<Value>, b: seq<Value>, r: seq<Pattern>, y: seq<Value>)
    requires FitsAll(a, l, x) && FitsAll(b, r, y)
    ensures FitsAll(a + b, l + r, x + y)
    decreases |a|
  {
    SameLength(a, l, x);
    if a == [] {
      NoneFit(x);
      assert a + b == b && l + r == r && x + y == y;
    } else {
      var x0, x1 := TailFits(a, l, x);
      ConcatFits(a[1..], l[1..], x1, b, r, y);
      assert (a + b)[1..] == a[1..] + b && (l + r)[1..] == l[1..] + r;
      ConsFits(a + b, l + r, x0, x1 + y);
      assert x0 + (x1 + y) == x + y;
    }
  }

  lemma {:induction false} UnconcatFits(a: seq<Value>, l: seq<Pattern>, b: seq<Value>, r: seq<Pattern>, vars: seq<Value>)
    returns (x: seq<Value>, y: seq<Value>)
    requires |a| == |l| && FitsAll(a + b, l + r, vars)
    ensures vars == x + y && FitsAll(a, l, x) && FitsAll(b, r, y)
    decreases |a|
  {
    if a == [] {
      assert a + b == b && l + r == r;
      NoneFit([]);
      x, y := [], vars;
    } else {
      var x0, rest := TailFits(a + b, l + r, vars);
      assert (a + b)[1..] == a[1..] + b && (l + r)[1..] == l[1..] + r;
      var x1;
      x1, y := UnconcatFits(a[1..], l[1..], b, r, rest);
      ConsFits(a, l, x0, x1);
      x := x0 + x1;
      assert x0 + (x1 + y) == x + y;
    }
  }

  lemma {:induction false} CountConcat(a: seq<Pattern>, b: seq<Pattern>)
    ensures EllipsisCount(a + b) == EllipsisCount(a) + EllipsisCount(b)
    ensures WithoutEllipsis(a + b) == WithoutEllipsis(a) + WithoutEllipsis(b)
    decreases |a|
  {
    if a == [] {
      assert a + b == b;
    } else {
      assert (a + b)[1..] == a[1..] + b;
      CountConcat(a[1..], b);
    }
  }

  lemma {:induction false} CountZero(ps: seq<Pattern>)
    ensures EllipsisCount(ps) == 0 <==> NR.NoEllipsis(ps)
    ensures NR.NoEllipsis(ps) ==> WithoutEllipsis(ps) == ps
  {
    if ps != [] { CountZero(ps[1..]); }
  }

  /** An instance of a list of patterns has an instance of each, so there is no ellipsis in it. */
  lemma FitsNoEllipsis(vs: seq<Value>, ps: seq<Pattern>, vars: seq<Value>)
    requires FitsAll(vs, ps, vars)
    ensures NR.NoEllipsis(ps)
  {
    var parts: seq<seq<Value>> :| Flatten(parts) == vars && FitsParts(vs, ps, parts);
    forall q | q in ps ensures !q.Ellipsis? {
      var i :| 0 <= i < |ps| && ps[i] == q;
      assert Fits(vs[i], ps[i], parts[i]);
    }
  }

  /** The patterns before and after the only ellipsis. */
  lemma {:induction false} SplitItems(items: seq<Pattern>, k: nat)
    requires k < |items| && items[k].Ellipsis? && EllipsisCount(items) <= 1
    ensures NR.NoEllipsis(items[..k]) && NR.NoEllipsis(items[k + 1..]) && WithoutEllipsis(items) == items[..k] + items[k + 1..]
    ensures EllipsisPos(items) == Some(k)
  {
    var l, r := items[..k], items[k + 1..];
    assert items == l + ([items[k]] + r);
    AroundEllipsis(l, r);
    FirstEllipsis(items, k);
  }

  lemma {:induction false} AroundEllipsis(l: seq<Pattern>, r: seq<Pattern>)
    requires EllipsisCount(l + ([Ellipsis] + r)) <= 1
    ensures NR.NoEllipsis(l) && NR.NoEllipsis(r) && WithoutEllipsis(l + ([Ellipsis] + r)) == l + r
  {
    CountConcat(l, [Ellipsis] + r);
    OneMore(r);
    CountZero(l);
    CountZero(r);
  }

  lemma {:induction false} OneMore(r: seq<Pattern>)
    ensures EllipsisCount([Ellipsis] + r) == 1 + EllipsisCount(r) && WithoutEllipsis([Ellipsis] + r) == WithoutEllipsis(r)
  {
    assert ([Ellipsis] + r)[1..] == r;
  }

  lemma FirstEllipsis(items: seq<Pattern>, k: nat)
    requires k < |items| && items[k].Ellipsis? && NR.NoEllipsis(items[..k])
    ensures EllipsisPos(items) == Some(k)
  {
    forall i | 0 <= i < k ensures !items[i].Ellipsis? { assert items[i] in items[..k]; }
  }

  lemma {:induction false} ArrayMeans(p: Pattern, vs: seq<Value>, items: seq<Pattern>, vars: seq<Value>)
    requires p == ArrayP(items) && Proper(p)
    ensures MatchPattern(VArray(vs), p) == Matched(vars) <==> FitsArray(vs, items, vars)
    decreases p, |items| + 1
  {
    CountZero(items);
    if EllipsisCount(items) == 0 {
      assert EllipsisPos(items).None?;
      if |vs| == |items| { AllMeans(p, vs, items, vars); }
      if FitsAll(vs, items, vars) { SameLength(vs, items, vars); }
    } else {
      var k: nat :| k < |items| && items[k].Ellipsis?;
      EllipsisMeans(p, vs, items, k, vars);
    }
  }

  lemma {:induction false} EllipsisMeans(p: Pattern, vs: seq<Value>, items: seq<Pattern>, k: nat, vars: seq<Value>)
    requires p == ArrayP(items) && Proper(p) && k < |items| && items[k].Ellipsis?
    ensures MatchPattern(VArray(vs), p) == Matched(vars) <==> FitsArray(vs, items, vars)
    decreases p, |items|, 1
  {
    SplitItems(items, k);
    if FitsArray(vs, items, vars) { FitsAtEllipsis(vs, items, k, vars); }
    if |vs| >= |items| - 1 {
      var a, b, ps := vs[..k], vs[|vs| - (|items| - k - 1)..], items[..k] + items[k + 1..];
      Sides(p, vs, items, k);
      AllMeans(p, a + b, ps, vars);
      if FitsAll(a + b, ps, vars) { AroundFits(vs, items, k, vars); }
    }
  }

  lemma {:induction false} Sides(p: Pattern, vs: seq<Value>, items: seq<Pattern>, k: nat)
    requires p == ArrayP(items) && Proper(p) && k < |items| && |vs| >= |items| - 1
    requires EllipsisPos(items) == Some(k) && WithoutEllipsis(items) == items[..k] + items[k + 1..] && NR.NoEllipsis(items[..k]) && NR.NoEllipsis(items[k + 1..])
    ensures var ps := items[..k] + items[k + 1..];
            && (forall q :: q in ps ==> q < p && Proper(q))
            && MatchPattern(VArray(vs), p) == MatchAll(p, vs[..k] + vs[|vs| - (|items| - k - 1)..], ps)
  {
    forall q | q in items[..k] + items[k + 1..] ensures q < p && Proper(q) {
      assert q in items && !q.Ellipsis?;
    }
  }

  lemma {:induction false} AroundFits(vs: seq<Value>, items: seq<Pattern>, k: nat, vars: seq<Value>)
    requires k < |items| && items[k].Ellipsis? && |vs| >= |items| - 1
    requires FitsAll(vs[..k] + vs[|vs| - (|items| - k - 1)..], items[..k] + items[k + 1..], vars)
    ensures FitsArray(vs, items, vars)
  {
    var x, y := UnconcatFits(vs[..k], items[..k], vs[|vs| - (|items| - k - 1)..], items[k + 1..], vars);
    assert FitsAround(vs, items, k, x, y);
  }

  lemma {:induction false} FitsAtEllipsis(vs: seq<Value>, items: seq<Pattern>, k: nat, vars: seq<Value>)
    requires k < |items| && items[k].Ellipsis? && EllipsisCount(items) <= 1 && FitsArray(vs, items, vars)
    ensures |vs| >= |items| - 1 && FitsAll(vs[..k] + vs[|vs| - (|items| - k - 1)..], items[..k] + items[k + 1..], vars)
  {
    if FitsAll(vs, items, vars) {
      FitsNoEllipsis(vs, items, vars);
      assert false;
    } else {
      var j: nat, x: seq<Value>, y: seq<Value> :| FitsAround(vs, items, j, x, y) && vars == x + y;
      SplitItems(items, k);
      SplitItems(items, j);
      ConcatFits(vs[..k], items[..k], x, vs[|vs| - (|items| - k - 1)..], items[k + 1..], y);
    }
  }

  // ----- arms and parameters -----

  /** The selected arm is the first whose pattern the value is an instance of; if there is none, the
      evaluation of the match fails. */
  lemma {:induction false} SelectedArm(v: Value, arms: seq<Arm>)
    requires forall a :: a in arms ==> Proper(a.pattern)
    ensures var r := FindArm(v, arms);
            && (r.Ok? ==> && Fits(v, arms[r.value.arm].pattern, r.value.vars)
                          && forall j, vars :: 0 <= j < r.value.arm ==> !Fits(v, arms[j].pattern, vars))
            && (r == Err(NoMatchError) ==> forall j, vars :: 0 <= j < |arms| ==> !Fits(v, arms[j].pattern, vars))
  {
    if arms != [] {
      forall vars ensures MatchPattern(v, arms[0].pattern) == Matched(vars) <==> Fits(v, arms[0].pattern, vars) {
        MatchMeans(v, arms[0].pattern, vars);
      }
      SelectedArm(v, arms[1..]);
    }
  }

  /** Conversely, the first arm with an instance is selected unless a pattern before it has the wrong type. */
  lemma {:induction false} ArmSelected(v: Value, arms: seq<Arm>, i: nat, vars: seq<Value>)
    requires i < |arms| && Fits(v, arms[i].pattern, vars) && forall a :: a in arms ==> Proper(a.pattern)
    requires forall j :: 0 <= j < i ==> MatchPattern(v, arms[j].pattern).NoMatch?
    ensures FindArm(v, arms) == Ok(Selected(vars, i))
  {
    if i == 0 {
      MatchMeans(v, arms[0].pattern, vars);
    } else {
      forall j | 0 <= j < i - 1 ensures MatchPattern(v, arms[1..][j].pattern).NoMatch? { assert arms[1..][j] == arms[j + 1]; }
      ArmSelected(v, arms[1..], i - 1, vars);
    }
  }

  /** Parameters are bound to the instances of their patterns. */
  lemma {:induction false} BoundParams(args: seq<Value>, ps: seq<Pattern>, vars: seq<Value>)
    requires |args| == |ps| && forall q :: q in ps ==> Proper(q)
    ensures BindParams(args, ps) == Ok(vars) <==> FitsAll(args, ps, vars)
  {
    if ps == [] {
      NoneFit(vars);
    } else {
      if BindParams(args, ps) == Ok(vars) {
        var x, y := MatchPattern(args[0], ps[0]).vars, BindParams(args[1..], ps[1..]).value;
        MatchMeans(args[0], ps[0], x);
        BoundParams(args[1..], ps[1..], y);
        ConsFits(args, ps, x, y);
      }
      if FitsAll(args, ps, vars) {
        var x, y := TailFits(args, ps, vars);
        MatchMeans(args[0], ps[0], x);
        BoundParams(args[1..], ps[1..], y);
      }
    }
  }

  /** Parameters that are variables are bound to the arguments. */
  lemma {:induction false} PlainParams(args: seq<Value>, ps: seq<Pattern>)
    requires |args| == |ps| && forall q :: q in ps ==> q.VariableP?
    ensures BindParams(args, ps) == Ok(args)
  {
    if ps != [] {
      assert ps[0] in ps && MatchPattern(args[0], ps[0]) == Matched([args[0]]);
      PlainParams(args[1..], ps[1..]);
      assert [args[0]] + args[1..] == args;
    }
  }

  // ----- irrefutable patterns -----

  /** The value has the type that the pattern demands. */
  predicate HasTypeOf(v: Value, p: Pattern)
    decreases p
  {
    match p
    case NumberP(_) => v.VInt? || v.VFe?
    case StringP(_) => v.VStr?
    case TupleP(items) => v.VTuple? && |v.items| == |items| && forall i :: 0 <= i < |items| ==> HasTypeOf(v.items[i], items[i])
    case ArrayP(items) => v.VArray? && forall x, i :: x in v.items && 0 <= i < |items| ==> HasTypeOf(x, items[i])
    case EnumP(_, NoFields) => v.VEnum?
    case EnumP(variant, Fields(fs)) =>
      v.VEnum? && (v.variant == variant ==>
        v.data.Data? && |v.data.items| == |fs| && forall i :: 0 <= i < |fs| ==> HasTypeOf(v.data.items[i], fs[i]))
    case _ => true
  }

  ghost predicate HasInstance(v: Value, p: Pattern) { exists vars :: Fits(v, p, vars) }

  /** A value of the type of the pattern; not an instance of it, if the pattern is refutable. */
  function Sample(p: Pattern): Value {
    match p
    case NumberP(n) => VInt(n + 1)
    case StringP(s) => VStr(s + "x")
    case TupleP(items) => VTuple(seq(|items|, i requires 0 <= i < |items| => Sample(items[i])))
    case ArrayP(items) => if items == [] then VArray([VBool(true)]) else VArray([])
    case EnumP(variant, _) => VEnum("", variant + "x", NoData)
    case _ => VBool(true)
  }

  lemma {:induction false} SampleHasType(p: Pattern)
    ensures HasTypeOf(Sample(p), p)
    decreases p
  {
    match p
    case TupleP(items) => forall i | 0 <= i < |items| ensures HasTypeOf(Sample(items[i]), items[i]) { SampleHasType(items[i]); }
    case EnumP(variant, _) => Longer(variant);
    case _ =>
  }

  lemma Longer(s: string)
    ensures s + "x" != s
  {
    assert |s + "x"| != |s|;
  }

  lemma {:induction false} SampleRefutes(p: Pattern, vars: seq<Value>)
    requires Proper(p) && Fits(Sample(p), p, vars)
    ensures Irrefutable(p)
    decreases p
  {
    match p
    case StringP(s) => Longer(s);
    case EnumP(variant, _) => Longer(variant);
    case TupleP(items) =>
      var vs := Sample(p).items;
      var parts: seq<seq<Value>> :| Flatten(parts) == vars && FitsParts(vs, items, parts);
      forall q | q in items ensures Irrefutable(q) {
        var i :| 0 <= i < |items| && items[i] == q;
        assert Fits(vs[i], items[i], parts[i]);
        SampleRefutes(q, parts[i]);
      }
    case ArrayP(items) => EmptyRefutes(p, items, vars);
    case _ =>
  }

  lemma {:induction false} EmptyRefutes(p: Pattern, items: seq<Pattern>, vars: seq<Value>)
    requires p == ArrayP(items) && Proper(p) && FitsArray(Sample(p).items, items, vars)
    ensures Irrefutable(p)
  {
    var vs := Sample(p).items;
    if FitsAll(vs, items, vars) { SameLength(vs, items, vars); }
  }

  lemma {:induction false} IrrefutableFits(v: Value, p: Pattern)
    requires Irrefutable(p) && HasTypeOf(v, p)
    ensures HasInstance(v, p)
    decreases p
  {
    match p
    case VariableP(_) => assert Fits(v, p, [v]);
    case CatchAll => assert Fits(v, p, []);
    case ArrayP(items) =>
      NoneFit([]);
      assert FitsAround(v.items, items, 0, [], []);
      assert Fits(v, p, [] + []);
    case TupleP(items) =>
      var vars := AllFit(v.items, items);
      assert Fits(v, p, vars);
  }

  lemma {:induction false} AllFit(vs: seq<Value>, ps: seq<Pattern>) returns (vars: seq<Value>)
    requires |vs| == |ps| && forall i :: 0 <= i < |ps| ==> Irrefutable(ps[i]) && HasTypeOf(vs[i], ps[i])
    ensures FitsAll(vs, ps, vars)
    decreases ps
  {
    if ps == [] {
      vars := [];
      NoneFit(vars);
    } else {
      IrrefutableFits(vs[0], ps[0]);
      var x :| Fits(vs[0], ps[0], x);
      var y := AllFit(vs[1..], ps[1..]);
      ConsFits(vs, ps, x, y);
      vars := x + y;
    }
  }

  /** The patterns accepted in function parameters and let statements are exactly those that match every
      value of their type. */
  lemma IrrefutableIff(p: Pattern)
    requires Proper(p)
    ensures Irrefutable(p) <==> forall v :: HasTypeOf(v, p) ==> MatchPattern(v, p).Matched?
  {
    if Irrefutable(p) {
      forall v | HasTypeOf(v, p) ensures MatchPattern(v, p).Matched? {
        IrrefutableFits(v, p);
        var vars :| Fits(v, p, vars);
        MatchMeans(v, p, vars);
      }
    } else {
      SampleHasType(p);
      var r := MatchPattern(Sample(p), p);
      if r.Matched? {
        MatchMeans(Sample(p), p, r.vars);
        SampleRefutes(p, r.vars);
        assert false;
      }
      assert HasTypeOf(Sample(p), p) && !r.Matched?;
    }
  }

  // ----- accepted patterns -----

  /** Ellipses occur in arrays only. */
  predicate EllipsesInArrays(p: Pattern) {
    match p
    case Ellipsis => false
    case TupleP(items) => forall q :: q in items ==> EllipsesInArrays(q)
    case ArrayP(items) => forall q :: q in items ==> q.Ellipsis? || EllipsesInArrays(q)
    case EnumP(_, Fields(fs)) => forall q :: q in fs ==> EllipsesInArrays(q)
    case _ => true
  }

  /** The patterns that the name resolver lets through have at most one ellipsis in an array. */
  lemma {:induction false} AcceptedIsProper(d: Driver, names: seq<string>, p: Pattern)
    requires ProcessPattern(d, names, p).Some?
    ensures EllipsesInArrays(p) ==> Proper(ProcessPattern(d, names, p).value.0)
    ensures ProcessPattern(d, names, p).value.0.Ellipsis? <==> p.Ellipsis?
    decreases p
  {
    match p
    case TupleP(items) => AcceptedAreProper(d, names, items);
    case ArrayP(items) => AcceptedAreProper(d, names, items);
    case EnumP(_, Fields(fs)) => AcceptedAreProper(d, names, fs);
    case _ =>
  }

  lemma {:induction false} AcceptedAreProper(d: Driver, names: seq<string>, ps: seq<Pattern>)
    requires ProcessPatterns(d, names, ps).Some?
    ensures var qs := ProcessPatterns(d, names, ps).value.0;
            && EllipsisCount(qs) == EllipsisCount(ps)
            && ((forall q :: q in ps ==> q.Ellipsis? || EllipsesInArrays(q)) ==> forall q :: q in qs ==> q.Ellipsis? || Proper(q))
            && ((forall q :: q in ps ==> EllipsesInArrays(q)) ==> forall q :: q in qs ==> Proper(q))
    decreases ps
  {
    if ps != [] {
      AcceptedIsProper(d, names, ps[0]);
      AcceptedAreProper(d, ProcessPattern(d, names, ps[0]).value.1, ps[1..]);
    }
  }
}
