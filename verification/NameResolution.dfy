/** Name resolution is correct: evaluating the resolved expression over levels gives the resolved
    result of evaluating the source expression over names. */
module NameResolution {
  import opened Collections
  import opened Congruence
  import opened Options
  import opened Types
  import opened PilLang
  import opened BigStep
  import opened Named

  // ----- resolving values -----

  /** Replaces the source code in closures by resolved code. */
  function Resolve(d: Driver, v: NValue): Value
    decreases v
  {
    match v
    case VBool(b) => VBool(b)
    case VInt(n) => VInt(n)
    case VFe(n) => VFe(n)
    case VStr(s) => VStr(s)
    case VTuple(items) => VTuple(ResolveAll(d, items))
    case VArray(items) => VArray(ResolveAll(d, items))
    case VClosure(c, env) => VClosure(ResolveCode(d, c), ResolveAll(d, env))
    case VConstructor(e, x) => VConstructor(e, x)
    case VEnum(e, x, NoData) => VEnum(e, x, NoData)
    case VEnum(e, x, Data(items)) => VEnum(e, x, Data(ResolveAll(d, items)))
    case VBuiltin(n) => VBuiltin(n)
    case VExpr(a) => VExpr(a)
  }

  function ResolveAll(d: Driver, vs: seq<NValue>): (r: seq<Value>)
    ensures |r| == |vs|
    ensures forall i :: 0 <= i < |vs| ==> r[i] == Resolve(d, vs[i])
    decreases vs
  {
    if vs == [] then [] else [Resolve(d, vs[0])] + ResolveAll(d, vs[1..])
  }

  predicate CodeAccepted(d: Driver, c: NCode) {
    var q := ProcessPatterns(d, c.names, c.params);
    q.Some? && Distinct(c.names) && Process(d, q.value.1, c.body).Some?
  }

  function ResolveCode(d: Driver, c: NCode): Code {
    if CodeAccepted(d, c) then
      var q := ProcessPatterns(d, c.names, c.params);
      Code(q.value.0, Process(d, q.value.1, c.body).value, c.typeArgs)
    else Code([], FreeInput, c.typeArgs)
  }

  /** All code inside the value was accepted by the resolver. */
  predicate WellScoped(d: Driver, v: NValue)
    decreases v
  {
    match v
    case VTuple(items) => forall x :: x in items ==> WellScoped(d, x)
    case VArray(items) => forall x :: x in items ==> WellScoped(d, x)
    case VEnum(_, _, Data(items)) => forall x :: x in items ==> WellScoped(d, x)
    case VClosure(c, env) => CodeAccepted(d, c) && |c.names| == |env| && forall x :: x in env ==> WellScoped(d, x)
    case _ => true
  }

  predicate AllScoped(d: Driver, vs: seq<NValue>) { forall x :: x in vs ==> WellScoped(d, x) }

  predicate ScopedEnv(d: Driver, env: Env) {
    |env.names| == |env.vals| && Distinct(env.names) && AllScoped(d, env.vals)
  }

  lemma ResolveConcat(d: Driver, a: seq<NValue>, b: seq<NValue>)
    ensures ResolveAll(d, a + b) == ResolveAll(d, a) + ResolveAll(d, b)
  {
  }

  // ----- variables -----

  lemma {:induction false} IndexOfUnique(names: seq<string>, i: nat)
    requires i < |names| && Distinct(names)
    ensures IndexOf(names, names[i]) == i
  {
  }

  /** The innermost binding of a name sits at the level the resolver gave it. */
  lemma {:induction false} LookupAtLevel(env: Env, x: string)
    requires Bound(env, x) && Distinct(env.names)
    ensures Lookup(env, x) == env.vals[IndexOf(env.names, x)]
    decreases |env.names|
  {
    var n := |env.names| - 1;
    if env.names[n] == x {
      IndexOfUnique(env.names, n);
    } else {
      var prefix := Env(env.names[..n], env.vals[..n]);
      LookupAtLevel(prefix, x);
      var i := IndexOf(prefix.names, x);
      assert env.names[i] == x;
      IndexOfUnique(env.names, i);
    }
  }

  // ----- patterns -----

  /** Names only grow, and stay distinct. */
  lemma {:induction false} PatternKeepsDistinct(d: Driver, names: seq<string>, p: Pattern)
    requires Distinct(names) && ProcessPattern(d, names, p).Some?
    ensures Distinct(ProcessPattern(d, names, p).value.1)
    decreases p
  {
    match p
    case ArrayP(items) => PatternsKeepDistinct(d, names, items);
    case TupleP(items) => PatternsKeepDistinct(d, names, items);
    case EnumP(_, Fields(fs)) => PatternsKeepDistinct(d, names, fs);
    case _ =>
  }

  lemma {:induction false} PatternsKeepDistinct(d: Driver, names: seq<string>, ps: seq<Pattern>)
    requires Distinct(names) && ProcessPatterns(d, names, ps).Some?
    ensures Distinct(ProcessPatterns(d, names, ps).value.1)
    decreases ps
  {
    if ps != [] {
      PatternKeepsDistinct(d, names, ps[0]);
      PatternsKeepDistinct(d, ProcessPattern(d, names, ps[0]).value.1, ps[1..]);
    }
  }

  /** Matching by name and matching by level agree: same success, same values in the same order, and
      the names bound are the ones the resolver numbered. */
  predicate SameMatch(d: Driver, b: Bindings, m: MatchResult<Code>, names: seq<string>, names': seq<string>) {
    match b
    case BindPanic => m.MatchPanic?
    case NoBindings => m.NoMatch?
    case Bindings(xs, vs) => m.Matched? && m.vars == ResolveAll(d, vs) && |xs| == |vs| && names' == names + xs
  }

  predicate ScopedBindings(d: Driver, b: Bindings) { b.Bindings? ==> AllScoped(d, b.vals) }

  lemma JoinMatches(d: Driver, b1: Bindings, m1: MatchResult<Code>, b2: Bindings, m2: MatchResult<Code>,
                    n0: seq<string>, n1: seq<string>, n2: seq<string>)
    requires b1.Bindings? && SameMatch(d, b1, m1, n0, n1) && SameMatch(d, b2, m2, n1, n2)
    ensures SameMatch(d, Join(b1, b2), Append(m1.vars, m2), n0, n2)
  {
    if b2.Bindings? {
      ResolveConcat(d, b1.vals, b2.vals);
      assert n0 + (b1.names + b2.names) == n0 + b1.names + b2.names;
    }
  }

  lemma {:induction false} MatchScoped(d: Driver, v: NValue, p: Pattern)
    requires WellScoped(d, v)
    ensures ScopedBindings(d, MatchNamed(d, v, p))
    decreases p
  {
    match p
    case TupleP(items) => if v.VTuple? && |v.items| == |items| { MatchAllScoped(d, v.items, items); }
    case ArrayP(items) =>
      if v.VArray? && EllipsisPos(items).None? {
        if |v.items| == |items| { MatchAllScoped(d, v.items, items); }
      } else if v.VArray? && |v.items| >= |items| - 1 {
        var pos := EllipsisPos(items).value;
        MatchAllScoped(d, v.items[..pos], items[..pos]);
        MatchAllScoped(d, v.items[|v.items| - (|items| - pos - 1)..], items[pos + 1..]);
      }
    case EnumP(_, Fields(fs)) =>
      if v.VEnum? && v.data.Data? && |v.data.items| == |fs| { MatchAllScoped(d, v.data.items, fs); }
    case _ =>
  }

  lemma {:induction false} MatchAllScoped(d: Driver, vs: seq<NValue>, ps: seq<Pattern>)
    requires |vs| == |ps| && AllScoped(d, vs)
    ensures ScopedBindings(d, MatchNamedAll(d, vs, ps))
    decreases ps
  {
    if ps != [] {
      MatchScoped(d, vs[0], ps[0]);
      MatchAllScoped(d, vs[1..], ps[1..]);
    }
  }

  lemma {:induction false} MatchResolves(d: Driver, names: seq<string>, v: NValue, p: Pattern)
    requires ProcessPattern(d, names, p).Some?
    ensures var q := ProcessPattern(d, names, p).value;
            SameMatch(d, MatchNamed(d, v, p), MatchPattern(Resolve(d, v), q.0), names, q.1)
    decreases p
  {
    var p' := ProcessPattern(d, names, p).value.0;
    match p
    case TupleP(items) =>
      if v.VTuple? && |v.items| == |items| { MatchAllResolves(d, names, v.items, items, p'); }
    case ArrayP(items) =>
      if v.VArray? { ArrayResolves(d, names, v, p); }
    case EnumP(_, Fields(fs)) =>
      if v.VEnum? && v.data.Data? && |v.data.items| == |fs| { MatchAllResolves(d, names, v.data.items, fs, p'); }
    case _ => assert names + [] == names;
  }

  lemma {:induction false} MatchAllResolves(d: Driver, names: seq<string>, vs: seq<NValue>, ps: seq<Pattern>, parent: Pattern)
    requires |vs| == |ps| && ProcessPatterns(d, names, ps).Some?
    requires forall q :: q in ProcessPatterns(d, names, ps).value.0 ==> q < parent
    ensures var q := ProcessPatterns(d, names, ps).value;
            SameMatch(d, MatchNamedAll(d, vs, ps), MatchAll(parent, ResolveAll(d, vs), q.0), names, q.1)
    decreases ps
  {
    if ps == [] {
      assert names + [] == names;
    } else {
      var h := ProcessPattern(d, names, ps[0]).value;
      var t := ProcessPatterns(d, h.1, ps[1..]).value;
      var q := ProcessPatterns(d, names, ps).value;
      assert q.0[0] == h.0 && q.0[1..] == t.0;
      assert forall x :: x in t.0 ==> x in q.0;
      MatchResolves(d, names, vs[0], ps[0]);
      assert ResolveAll(d, vs)[1..] == ResolveAll(d, vs[1..]);
      var b := MatchNamed(d, vs[0], ps[0]);
      if b.Bindings? {
        MatchAllResolves(d, h.1, vs[1..], ps[1..], parent);
        JoinMatches(d, b, MatchPattern(Resolve(d, vs[0]), h.0), MatchNamedAll(d, vs[1..], ps[1..]),
                    MatchAll(parent, ResolveAll(d, vs[1..]), t.0), names, h.1, t.1);
      }
    }
  }

  // ----- array patterns -----

  /** Splitting a list of patterns in two. */
  lemma {:induction false} ProcessPatternsSplit(d: Driver, names: seq<string>, a: seq<Pattern>, b: seq<Pattern>)
    ensures var x := ProcessPatterns(d, names, a);
            ProcessPatterns(d, names, a + b) ==
            if x.None? then None
            else
              var y := ProcessPatterns(d, x.value.1, b);
              if y.None? then None else Some((x.value.0 + y.value.0, y.value.1))
    decreases |a|
  {
    if a == [] {
      assert a + b == b;
      var y := ProcessPatterns(d, names, b);
      if y.Some? { assert [] + y.value.0 == y.value.0; }
    } else {
      assert (a + b)[0] == a[0] && (a + b)[1..] == a[1..] + b;
      var h := ProcessPattern(d, names, a[0]);
      if h.Some? {
        ProcessPatternsSplit(d, h.value.1, a[1..], b);
        var x := ProcessPatterns(d, h.value.1, a[1..]);
        if x.Some? {
          var y := ProcessPatterns(d, x.value.1, b);
          if y.Some? { assert [h.value.0] + x.value.0 + y.value.0 == [h.value.0] + (x.value.0 + y.value.0); }
        }
      }
    }
  }

  lemma {:induction false} MatchAllSplit(parent: Pattern, va: seq<Value>, vb: seq<Value>, pa: seq<Pattern>, pb: seq<Pattern>)
    requires |va| == |pa|
    requires forall q :: q in pa + pb ==> q < parent
    ensures forall q :: q in pa || q in pb ==> q < parent
    ensures var x := MatchAll(parent, va, pa);
            MatchAll(parent, va + vb, pa + pb) == Then(x, MatchAll(parent, vb, pb))
    decreases |va|
  {
    assert forall q :: q in pa || q in pb ==> q in pa + pb;
    if va == [] {
      assert va + vb == vb && pa + pb == pb;
      var y := MatchAll(parent, vb, pb);
      if y.Matched? { assert [] + y.vars == y.vars; }
    } else {
      assert forall q :: q in pa[1..] + pb ==> q in pa + pb;
      MatchAllSplit(parent, va[1..], vb, pa[1..], pb);
      MatchAllCons(parent, va, pa);
      assert (va + vb)[1..] == va[1..] + vb && (pa + pb)[1..] == pa[1..] + pb;
      MatchAllCons(parent, va + vb, pa + pb);
      AppendTwice(MatchPattern(va[0], pa[0]), MatchAll(parent, va[1..], pa[1..]), MatchAll(parent, vb, pb));
    }
  }

  lemma MatchAllCons(parent: Pattern, vs: seq<Value>, ps: seq<Pattern>)
    requires vs != [] && ps != [] && forall q :: q in ps ==> q < parent
    ensures forall q :: q in ps[1..] ==> q < parent
    ensures MatchAll(parent, vs, ps) == Then(MatchPattern(vs[0], ps[0]), MatchAll(parent, vs[1..], ps[1..]))
  {
    assert forall q :: q in ps[1..] ==> q in ps;
  }

  /** The variables of one match followed by those of another. */
  function Then(a: MatchResult<Code>, b: MatchResult<Code>): MatchResult<Code> {
    if a.Matched? then Append(a.vars, b) else a
  }

  lemma AppendTwice(a: MatchResult<Code>, b: MatchResult<Code>, c: MatchResult<Code>)
    ensures Then(Then(a, b), c) == Then(a, Then(b, c))
  {
    if a.Matched? && b.Matched? && c.Matched? { assert a.vars + b.vars + c.vars == a.vars + (b.vars + c.vars); }
  }

  predicate NoEllipsis(ps: seq<Pattern>) { forall i :: 0 <= i < |ps| ==> !ps[i].Ellipsis? }

  lemma {:induction false} WithoutEllipsisPlain(ps: seq<Pattern>)
    requires NoEllipsis(ps)
    ensures WithoutEllipsis(ps) == ps
  {
    if ps != [] { WithoutEllipsisPlain(ps[1..]); }
  }

  lemma {:induction false} WithoutEllipsisSplit(a: seq<Pattern>, b: seq<Pattern>)
    ensures WithoutEllipsis(a + b) == WithoutEllipsis(a) + WithoutEllipsis(b)
  {
    if a == [] {
      assert a + b == b;
    } else {
      assert (a + b)[1..] == a[1..] + b;
      WithoutEllipsisSplit(a[1..], b);
    }
  }

  lemma {:induction false} EllipsisPosPlain(ps: seq<Pattern>, pos: nat)
    requires pos < |ps| && ps[pos].Ellipsis? && NoEllipsis(ps[..pos])
    ensures EllipsisPos(ps) == Some(pos)
  {
    assert forall i :: 0 <= i < pos ==> ps[..pos][i] == ps[i];
  }

  lemma {:induction false} OneEllipsis(ps: seq<Pattern>, i: nat, j: nat)
    requires i < j < |ps| && ps[i].Ellipsis? && ps[j].Ellipsis?
    ensures EllipsisCount(ps) > 1
  {
    if i == 0 { SomeEllipsis(ps[1..], j - 1); } else { OneEllipsis(ps[1..], i - 1, j - 1); }
  }

  lemma {:induction false} SomeEllipsis(ps: seq<Pattern>, i: nat)
    requires i < |ps| && ps[i].Ellipsis?
    ensures EllipsisCount(ps) > 0
  {
    if i > 0 { SomeEllipsis(ps[1..], i - 1); }
  }

  /** The resolver keeps ellipses where they are. */
  lemma {:induction false} ProcessKeepsEllipsis(d: Driver, names: seq<string>, ps: seq<Pattern>, i: nat)
    requires ProcessPatterns(d, names, ps).Some? && i < |ps|
    ensures ProcessPatterns(d, names, ps).value.0[i].Ellipsis? <==> ps[i].Ellipsis?
    decreases ps
  {
    if i > 0 { ProcessKeepsEllipsis(d, ProcessPattern(d, names, ps[0]).value.1, ps[1..], i - 1); }
  }

  /** An accepted array pattern without ellipsis. */
  lemma PlainArrayPattern(d: Driver, names: seq<string>, items: seq<Pattern>)
    requires ProcessPatterns(d, names, items).Some? && EllipsisPos(items).None?
    ensures var items' := ProcessPatterns(d, names, items).value.0;
            EllipsisPos(items').None? && WithoutEllipsis(items') == items'
  {
    var items' := ProcessPatterns(d, names, items).value.0;
    forall i | 0 <= i < |items'| ensures !items'[i].Ellipsis? { ProcessKeepsEllipsis(d, names, items, i); }
    WithoutEllipsisPlain(items');
  }

  /** An accepted array pattern with an ellipsis: what comes before, and what comes after. */
  lemma AroundEllipsis(d: Driver, names: seq<string>, items: seq<Pattern>, pos: nat)
    requires ProcessPatterns(d, names, items).Some? && pos < |items| && items[pos].Ellipsis?
    ensures var q := ProcessPatterns(d, names, items).value;
            var a := ProcessPatterns(d, names, items[..pos]);
            a.Some? &&
            var b := ProcessPatterns(d, a.value.1, items[pos + 1..]);
            b.Some? && q.0 == a.value.0 + ([Ellipsis] + b.value.0) && q.1 == b.value.1
  {
    var rest := [Ellipsis] + items[pos + 1..];
    assert items == items[..pos] + rest;
    ProcessPatternsSplit(d, names, items[..pos], rest);
    assert rest[1..] == items[pos + 1..];
  }

  lemma KeepsNoEllipsis(d: Driver, names: seq<string>, ps: seq<Pattern>)
    requires ProcessPatterns(d, names, ps).Some? && NoEllipsis(ps)
    ensures NoEllipsis(ProcessPatterns(d, names, ps).value.0)
  {
    var ps' := ProcessPatterns(d, names, ps).value.0;
    forall i | 0 <= i < |ps'| ensures !ps'[i].Ellipsis? { ProcessKeepsEllipsis(d, names, ps, i); }
  }

  lemma {:induction false} RemoveEllipsis(a: seq<Pattern>, b: seq<Pattern>)
    requires NoEllipsis(a) && NoEllipsis(b)
    ensures var q := a + ([Ellipsis] + b);
            EllipsisPos(q) == Some(|a|) && WithoutEllipsis(q) == a + b
  {
    var q := a + ([Ellipsis] + b);
    assert q[..|a|] == a;
    EllipsisPosPlain(q, |a|);
    WithoutEllipsisSplit(a, [Ellipsis] + b);
    WithoutEllipsisPlain(a);
    WithoutEllipsisPlain(b);
    assert ([Ellipsis] + b)[1..] == b;
  }

  lemma OutsideEllipsis(items: seq<Pattern>, pos: nat)
    requires EllipsisPos(items) == Some(pos) && EllipsisCount(items) <= 1
    ensures pos < |items| && NoEllipsis(items[..pos]) && NoEllipsis(items[pos + 1..])
  {
    var rest := items[pos + 1..];
    forall i | 0 <= i < |rest| ensures !rest[i].Ellipsis? {
      if rest[i].Ellipsis? { OneEllipsis(items, pos, pos + 1 + i); }
    }
  }

  /** How the resolver treats an array pattern with an ellipsis. */
  lemma EllipsisPattern(d: Driver, names: seq<string>, items: seq<Pattern>, pos: nat)
    requires ProcessPatterns(d, names, items).Some? && EllipsisPos(items) == Some(pos) && EllipsisCount(items) <= 1
    ensures pos < |items|
    ensures var q := ProcessPatterns(d, names, items).value;
            var a := ProcessPatterns(d, names, items[..pos]);
            a.Some? &&
            var b := ProcessPatterns(d, a.value.1, items[pos + 1..]);
            b.Some? && EllipsisPos(q.0) == Some(pos) && WithoutEllipsis(q.0) == a.value.0 + b.value.0 && q.1 == b.value.1
  {
    OutsideEllipsis(items, pos);
    AroundEllipsis(d, names, items, pos);
    var a := ProcessPatterns(d, names, items[..pos]).value;
    var b := ProcessPatterns(d, a.1, items[pos + 1..]).value;
    KeepsNoEllipsis(d, names, items[..pos]);
    KeepsNoEllipsis(d, a.1, items[pos + 1..]);
    RemoveEllipsis(a.0, b.0);
  }

  lemma MatchArrayParts(v: Value, p: Pattern, us: seq<Value>, ps: seq<Pattern>)
    requires v.VArray? && p.ArrayP? && ArrayParts(v.items, p.items) == Some(us) && WithoutEllipsis(p.items) == ps
    ensures forall q :: q in ps ==> q < p
    ensures MatchPattern(v, p) == MatchAll(p, us, ps)
  {
  }

  lemma {:induction false} ArrayResolves(d: Driver, names: seq<string>, v: NValue, p: Pattern)
    requires p.ArrayP? && v.VArray? && ProcessPattern(d, names, p).Some?
    ensures var q := ProcessPattern(d, names, p).value;
            SameMatch(d, MatchNamed(d, v, p), MatchPattern(Resolve(d, v), q.0), names, q.1)
    decreases p, 1
  {
    var items := p.items;
    if EllipsisPos(items).None? {
      PlainArrayPattern(d, names, items);
      if |v.items| == |items| { MatchAllResolves(d, names, v.items, items, ProcessPattern(d, names, p).value.0); }
    } else {
      EllipsisPattern(d, names, items, EllipsisPos(items).value);
      if |v.items| >= |items| - 1 { EllipsisResolves(d, names, v, p, EllipsisPos(items).value); }
    }
  }

  lemma {:induction false} EllipsisResolves(d: Driver, names: seq<string>, v: NValue, p: Pattern, pos: nat)
    requires p.ArrayP? && v.VArray? && ProcessPattern(d, names, p).Some? && EllipsisPos(p.items) == Some(pos)
    requires |v.items| >= |p.items| - 1
    ensures var q := ProcessPattern(d, names, p).value;
            SameMatch(d, MatchNamed(d, v, p), MatchPattern(Resolve(d, v), q.0), names, q.1)
    decreases p, 0
  {
    EllipsisShape(d, names, p, pos);
    var p' := ProcessPattern(d, names, p).value.0;
    var pa, pb := p.items[..pos], p.items[pos + 1..];
    var a := ProcessPatterns(d, names, pa).value;
    var b := ProcessPatterns(d, a.1, pb).value;
    var k := |v.items| - |b.0|;
    PartsBelow(p', a.0, b.0);
    MatchAllResolves(d, names, v.items[..pos], pa, p');
    MatchAllResolves(d, a.1, v.items[k..], pb, p');
    EllipsisJoin(d, v, p, p', pos, k, names, a.0, a.1, b.0, b.1);
  }

  /** The parts before and after the ellipsis together. */
  lemma {:induction false} EllipsisJoin(d: Driver, v: NValue, p: Pattern, p': Pattern, pos: nat, k: nat,
                                        n0: seq<string>, a: seq<Pattern>, n1: seq<string>, b: seq<Pattern>, n2: seq<string>)
    requires p.ArrayP? && v.VArray? && EllipsisPos(p.items) == Some(pos) && pos < |p.items| && |v.items| >= |p.items| - 1
    requires p'.ArrayP? && EllipsisPos(p'.items) == Some(pos) && WithoutEllipsis(p'.items) == a + b && |a| == pos && |a| + |b| + 1 == |p.items| == |p'.items|
    requires k == |v.items| - |b| && (forall q :: q in a ==> q < p') && (forall q :: q in b ==> q < p')
    requires SameMatch(d, MatchNamedAll(d, v.items[..pos], p.items[..pos]), MatchAll(p', ResolveAll(d, v.items[..pos]), a), n0, n1)
    requires SameMatch(d, MatchNamedAll(d, v.items[k..], p.items[pos + 1..]), MatchAll(p', ResolveAll(d, v.items[k..]), b), n1, n2)
    ensures SameMatch(d, MatchNamed(d, v, p), MatchPattern(Resolve(d, v), p'), n0, n2)
  {
    NamedEllipsis(d, v, p, pos, k);
    ResolvedEllipsis(d, v, p', pos, k, a, b);
    SplitResolves(d, p', v.items[..pos], a, MatchNamedAll(d, v.items[..pos], p.items[..pos]),
                  v.items[k..], b, MatchNamedAll(d, v.items[k..], p.items[pos + 1..]), n0, n1, n2);
  }

  /** What the resolver makes of an array pattern with an ellipsis. */
  lemma {:induction false} EllipsisShape(d: Driver, names: seq<string>, p: Pattern, pos: nat)
    requires p.ArrayP? && ProcessPattern(d, names, p).Some? && EllipsisPos(p.items) == Some(pos)
    ensures pos < |p.items|
    ensures var q := ProcessPattern(d, names, p).value;
            var a := ProcessPatterns(d, names, p.items[..pos]);
            a.Some? &&
            var b := ProcessPatterns(d, a.value.1, p.items[pos + 1..]);
            && b.Some? && q.0.ArrayP? && EllipsisPos(q.0.items) == Some(pos) && WithoutEllipsis(q.0.items) == a.value.0 + b.value.0
            && |a.value.0| + |b.value.0| + 1 == |q.0.items| == |p.items| && q.1 == b.value.1
  {
    EllipsisPattern(d, names, p.items, pos);
  }

  lemma PartsBelow(p: Pattern, a: seq<Pattern>, b: seq<Pattern>)
    requires p.ArrayP? && WithoutEllipsis(p.items) == a + b
    ensures (forall q :: q in a ==> q < p) && (forall q :: q in b ==> q < p)
  {
    assert forall x :: x in a || x in b ==> x in a + b;
  }

  lemma NamedEllipsis(d: Driver, v: NValue, p: Pattern, pos: nat, k: int)
    requires p.ArrayP? && v.VArray? && EllipsisPos(p.items) == Some(pos) && |v.items| >= |p.items| - 1
    requires k == |v.items| - (|p.items| - pos - 1)
    ensures pos < |p.items| && pos <= k <= |v.items|
    ensures MatchNamed(d, v, p) == Join(MatchNamedAll(d, v.items[..pos], p.items[..pos]), MatchNamedAll(d, v.items[k..], p.items[pos + 1..]))
  {
  }

  lemma ResolvedEllipsis(d: Driver, v: NValue, p: Pattern, pos: nat, k: nat, a: seq<Pattern>, b: seq<Pattern>)
    requires p.ArrayP? && v.VArray? && EllipsisPos(p.items) == Some(pos) && WithoutEllipsis(p.items) == a + b
    requires |a| == pos && |a| + |b| + 1 == |p.items| && |v.items| >= |a| + |b| && k == |v.items| - |b|
    ensures forall q :: q in a + b ==> q < p
    ensures MatchPattern(Resolve(d, v), p) == MatchAll(p, ResolveAll(d, v.items[..pos]) + ResolveAll(d, v.items[k..]), a + b)
  {
    var us := ResolveAll(d, v.items);
    MatchArrayParts(Resolve(d, v), p, us[..pos] + us[k..], a + b);
    assert us[..pos] == ResolveAll(d, v.items[..pos]) && us[k..] == ResolveAll(d, v.items[k..]);
  }

  lemma {:induction false} SplitResolves(d: Driver, parent: Pattern,
                                         va: seq<NValue>, pa: seq<Pattern>, ba: Bindings,
                                         vb: seq<NValue>, pb: seq<Pattern>, bb: Bindings,
                                         n0: seq<string>, n1: seq<string>, n2: seq<string>)
    requires |va| == |pa| && |vb| == |pb|
    requires (forall q :: q in pa ==> q < parent) && (forall q :: q in pb ==> q < parent)
    requires SameMatch(d, ba, MatchAll(parent, ResolveAll(d, va), pa), n0, n1)
    requires SameMatch(d, bb, MatchAll(parent, ResolveAll(d, vb), pb), n1, n2)
    ensures SameMatch(d, Join(ba, bb), MatchAll(parent, ResolveAll(d, va) + ResolveAll(d, vb), pa + pb), n0, n2)
  {
    MatchAllSplit(parent, ResolveAll(d, va), ResolveAll(d, vb), pa, pb);
    if ba.Bindings? {
      JoinMatches(d, ba, MatchAll(parent, ResolveAll(d, va), pa), bb, MatchAll(parent, ResolveAll(d, vb), pb), n0, n1, n2);
    }
  }

  // ----- parameters and match arms -----

  lemma {:induction false} BindParamsResolves(d: Driver, names: seq<string>, vs: seq<NValue>, ps: seq<Pattern>)
    requires |vs| == |ps| && ProcessPatterns(d, names, ps).Some?
    ensures var q := ProcessPatterns(d, names, ps).value;
            var b := MatchNamedAll(d, vs, ps);
            var o := BindParams(ResolveAll(d, vs), q.0);
            if b.Bindings? then o.Ok? && SameMatch(d, b, Matched(o.value), names, q.1) else o == Err(Panic)
    decreases ps
  {
    if ps == [] {
      assert names + [] == names;
    } else {
      var h := ProcessPattern(d, names, ps[0]).value;
      var t := ProcessPatterns(d, h.1, ps[1..]).value;
      assert ([h.0] + t.0)[1..] == t.0;
      MatchResolves(d, names, vs[0], ps[0]);
      assert ResolveAll(d, vs)[1..] == ResolveAll(d, vs[1..]);
      var b := MatchNamed(d, vs[0], ps[0]);
      if b.Bindings? {
        BindParamsResolves(d, h.1, vs[1..], ps[1..]);
        var c := MatchNamedAll(d, vs[1..], ps[1..]);
        if c.Bindings? {
          JoinMatches(d, b, MatchPattern(Resolve(d, vs[0]), h.0), c,
                      Matched(BindParams(ResolveAll(d, vs[1..]), t.0).value), names, h.1, t.1);
        }
      }
    }
  }

  /** The same arm is selected, and its variables are numbered as its body expects. */
  predicate SameArm(d: Driver, names: seq<string>, arms: seq<NArm>, x: Outcome<NSelected>, y: Outcome<Selected<Code>>)
    requires x.Ok? ==> x.value.arm < |arms| && x.value.b.Bindings?
  {
    match x
    case Err(e) => y == Err(e)
    case Ok(sel) =>
      && y.Ok? && y.value.arm == sel.arm
      && var q := ProcessPattern(d, names, arms[sel.arm].pattern);
      && q.Some? && SameMatch(d, sel.b, Matched(y.value.vars), names, q.value.1)
  }

  lemma {:induction false} FindArmResolves(d: Driver, names: seq<string>, v: NValue, arms: seq<NArm>)
    requires ProcessArms(d, names, arms).Some?
    ensures SameArm(d, names, arms, FindArmNamed(d, v, arms), FindArm(Resolve(d, v), ProcessArms(d, names, arms).value))
    decreases arms
  {
    if arms != [] {
      var arms' := ProcessArms(d, names, arms).value;
      assert arms'[1..] == ProcessArms(d, names, arms[1..]).value;
      MatchResolves(d, names, v, arms[0].pattern);
      if MatchNamed(d, v, arms[0].pattern).NoBindings? { FindArmResolves(d, names, v, arms[1..]); }
    }
  }

  lemma {:induction false} FindArmScoped(d: Driver, v: NValue, arms: seq<NArm>)
    requires WellScoped(d, v)
    ensures var r := FindArmNamed(d, v, arms); r.Ok? ==> AllScoped(d, r.value.b.vals)
    decreases arms
  {
    if arms != [] {
      MatchScoped(d, v, arms[0].pattern);
      FindArmScoped(d, v, arms[1..]);
    }
  }

  lemma {:induction false} ProcessArmsAt(d: Driver, names: seq<string>, arms: seq<NArm>, i: nat)
    requires ProcessArms(d, names, arms).Some? && i < |arms|
    ensures ProcessArm(d, names, arms[i]) == Some(ProcessArms(d, names, arms).value[i])
    decreases arms
  {
    if i > 0 { ProcessArmsAt(d, names, arms[1..], i - 1); }
  }

  // ----- operators do not look into closures -----

  function ResolveOutcome(d: Driver, o: Outcome<NValue>): Outcome<Value> {
    if o.Ok? then Ok(Resolve(d, o.value)) else Err(o.error)
  }

  predicate ScopedOutcome(d: Driver, o: Outcome<NValue>) { o.Ok? ==> WellScoped(d, o.value) }

  lemma PairUpResolves(d: Driver, l: seq<NValue>, r: seq<NValue>)
    requires |l| == |r|
    ensures PairUp(ResolveAll(d, l), ResolveAll(d, r)) == ResolveAll(d, PairUp(l, r))
    ensures AllScoped(d, l) && AllScoped(d, r) ==> AllScoped(d, PairUp(l, r))
  {
    forall i | 0 <= i < |l| ensures PairUp(ResolveAll(d, l), ResolveAll(d, r))[i] == ResolveAll(d, PairUp(l, r))[i] {
      assert ResolveAll(d, [l[i], r[i]]) == [Resolve(d, l[i]), Resolve(d, r[i])];
    }
  }

  function ResolveSelected(d: Driver, o: Outcome<SelectedExprs<NCode>>): Outcome<SelectedExprs<Code>> {
    if o.Ok? then Ok(SelectedExprs(Resolve(d, o.value.selector), ResolveAll(d, o.value.exprs))) else Err(o.error)
  }

  lemma {:induction false} ToSelectedResolves(d: Driver, v: NValue)
    ensures ToSelectedExprs(Resolve(d, v)) == ResolveSelected(d, ToSelectedExprs(v))
    ensures var o := ToSelectedExprs(v);
            WellScoped(d, v) && o.Ok? ==> WellScoped(d, o.value.selector) && AllScoped(d, o.value.exprs)
  {
    if v.VEnum? && v.variant == "SelectedExprs" && v.data.Data? && |v.data.items| == 2 {
      assert ResolveAll(d, [v.data.items[0]]) == [Resolve(d, v.data.items[0])];
      SomeScoped(d, v.data.items[0]);
      if WellScoped(d, v) { assert WellScoped(d, v.data.items[0]) && WellScoped(d, v.data.items[1]); }
    }
  }

  lemma SomeScoped(d: Driver, x: NValue)
    ensures WellScoped(d, x) ==> WellScoped(d, VEnum("std::prelude::Option", "Some", Data([x])))
  {
  }

  lemma TwoResolve(d: Driver, a: NValue, b: NValue)
    ensures ResolveAll(d, [a, b]) == [Resolve(d, a), Resolve(d, b)]
  {
  }

  lemma SelectedConstr(d: Driver, variant: string, a: SelectedExprs<NCode>, b: SelectedExprs<NCode>)
    requires |a.exprs| == |b.exprs|
    ensures Constr(variant, [VTuple([Resolve(d, a.selector), Resolve(d, b.selector)]),
                             VArray(PairUp(ResolveAll(d, a.exprs), ResolveAll(d, b.exprs)))])
         == Resolve(d, Constr(variant, [VTuple([a.selector, b.selector]), VArray(PairUp(a.exprs, b.exprs))]))
  {
    PairUpResolves(d, a.exprs, b.exprs);
    TwoResolve(d, a.selector, b.selector);
    TwoResolve(d, VTuple([a.selector, b.selector]), VArray(PairUp(a.exprs, b.exprs)));
  }

  lemma {:induction false} LookupConstrResolves(d: Driver, variant: string, l: NValue, r: NValue)
    ensures LookupConstr(variant, Resolve(d, l), Resolve(d, r)) == ResolveOutcome(d, LookupConstr(variant, l, r))
  {
    ToSelectedResolves(d, l);
    ToSelectedResolves(d, r);
    var a, b := ToSelectedExprs(l), ToSelectedExprs(r);
    if a.Ok? && b.Ok? && |a.value.exprs| == |b.value.exprs| { SelectedConstr(d, variant, a.value, b.value); }
  }

  lemma {:induction false} LookupConstrScoped(d: Driver, variant: string, l: NValue, r: NValue)
    requires WellScoped(d, l) && WellScoped(d, r)
    ensures ScopedOutcome(d, LookupConstr(variant, l, r))
  {
    ToSelectedResolves(d, l);
    ToSelectedResolves(d, r);
    var a, b := ToSelectedExprs(l), ToSelectedExprs(r);
    if a.Ok? && b.Ok? && |a.value.exprs| == |b.value.exprs| {
      PairUpResolves(d, a.value.exprs, b.value.exprs);
      assert WellScoped(d, VTuple([a.value.selector, b.value.selector]));
      assert WellScoped(d, VArray(PairUp(a.value.exprs, b.value.exprs)));
    }
  }

  /** Two arrays: concatenation, connection, or a type error. */
  lemma ArraysResolve(d: Driver, p: Modulus, lib: IntLib, l: NValue, op: BinOp, r: NValue)
    requires l.VArray? && r.VArray? && !op.InOp? && !op.IsOp?
    ensures BinaryOp(p, lib, Resolve(d, l), op, Resolve(d, r)) == ResolveOutcome(d, BinaryOp(p, lib, l, op, r))
    ensures WellScoped(d, l) && WellScoped(d, r) ==> ScopedOutcome(d, BinaryOp(p, lib, l, op, r))
  {
    if op.AddOp? { ResolveConcat(d, l.items, r.items); }
    if op.ConnectOp? && |l.items| == |r.items| {
      PairUpResolves(d, l.items, r.items);
      assert ResolveAll(d, [VArray(PairUp(l.items, r.items))]) == [Resolve(d, VArray(PairUp(l.items, r.items)))];
    }
  }

  /** An algebraic expression on the left. */
  lemma AlgebraicResolves(d: Driver, p: Modulus, lib: IntLib, l: NValue, op: BinOp, r: NValue)
    requires l.VExpr? && !op.InOp? && !op.IsOp?
    ensures BinaryOp(p, lib, Resolve(d, l), op, Resolve(d, r)) == ResolveOutcome(d, BinaryOp(p, lib, l, op, r))
    ensures WellScoped(d, l) && WellScoped(d, r) ==> ScopedOutcome(d, BinaryOp(p, lib, l, op, r))
  {
    if r.VExpr? {
      AlgebraicsResolve(d, p, lib, l, op, r);
    } else if r.VArray? {
      TwoResolve(d, l, r);
    }
  }

  lemma AlgebraicsResolve(d: Driver, p: Modulus, lib: IntLib, l: NValue, op: BinOp, r: NValue)
    requires l.VExpr? && r.VExpr? && !op.InOp? && !op.IsOp?
    ensures BinaryOp(p, lib, Resolve(d, l), op, Resolve(d, r)) == ResolveOutcome(d, BinaryOp(p, lib, l, op, r))
    ensures ScopedOutcome(d, BinaryOp(p, lib, l, op, r))
  {
    TwoResolve(d, l, r);
    if op.IdentityOp? { assert WellScoped(d, Constr("Identity", [l, r])); }
  }

  lemma BinaryResolves(d: Driver, p: Modulus, lib: IntLib, l: NValue, op: BinOp, r: NValue)
    ensures BinaryOp(p, lib, Resolve(d, l), op, Resolve(d, r)) == ResolveOutcome(d, BinaryOp(p, lib, l, op, r))
    ensures WellScoped(d, l) && WellScoped(d, r) ==> ScopedOutcome(d, BinaryOp(p, lib, l, op, r))
  {
    if op.InOp? || op.IsOp? {
      LookupOpResolves(d, p, lib, l, op, r);
    } else if l.VArray? && r.VArray? {
      ArraysResolve(d, p, lib, l, op, r);
    } else if l.VExpr? {
      AlgebraicResolves(d, p, lib, l, op, r);
    } else {
      ScalarsResolve(d, p, lib, l, op, r);
    }
  }

  lemma LookupOpResolves(d: Driver, p: Modulus, lib: IntLib, l: NValue, op: BinOp, r: NValue)
    requires op.InOp? || op.IsOp?
    ensures BinaryOp(p, lib, Resolve(d, l), op, Resolve(d, r)) == ResolveOutcome(d, BinaryOp(p, lib, l, op, r))
    ensures WellScoped(d, l) && WellScoped(d, r) ==> ScopedOutcome(d, BinaryOp(p, lib, l, op, r))
  {
    LookupOpIsConstr(p, lib, l, op, r);
    LookupOpIsConstr(p, lib, Resolve(d, l), op, Resolve(d, r));
    LookupConstrResolves(d, LookupVariant(op), l, r);
    if WellScoped(d, l) && WellScoped(d, r) { LookupConstrScoped(d, LookupVariant(op), l, r); }
  }

  function LookupVariant(op: BinOp): string { if op.InOp? then "Lookup" else "Permutation" }

  lemma LookupOpIsConstr<C>(p: Modulus, lib: IntLib, l: GValue<C>, op: BinOp, r: GValue<C>)
    requires op.InOp? || op.IsOp?
    ensures BinaryOp(p, lib, l, op, r) == LookupResult(p, l, op, r)
  {
  }

  /** What a lookup operator gives: operands of some other operators are ruled out first. */
  function LookupResult<C>(p: Modulus, l: GValue<C>, op: BinOp, r: GValue<C>): Outcome<GValue<C>>
    requires op.InOp? || op.IsOp?
  {
    if (l.VInt? && r.VInt?) || (l.VFe? && r.VFe?) then Err(TypeError)
    else if l.VExpr? && r.VExpr? then AlgebraicOp(p, l.alg, op, r.alg)
    else LookupConstr(LookupVariant(op), l, r)
  }

  lemma {:induction false} ScalarsResolve(d: Driver, p: Modulus, lib: IntLib, l: NValue, op: BinOp, r: NValue)
    requires !op.InOp? && !op.IsOp? && !l.VExpr? && !(l.VArray? && r.VArray?)
    ensures BinaryOp(p, lib, Resolve(d, l), op, Resolve(d, r)) == ResolveOutcome(d, BinaryOp(p, lib, l, op, r))
    ensures ScopedOutcome(d, BinaryOp(p, lib, l, op, r))
  {
    if l.VInt? { IntegerResolves(d, p, lib, l, op, r); } else if l.VFe? { FieldResolves(d, p, lib, l, op, r); }
  }

  lemma {:induction false} IntegerResolves(d: Driver, p: Modulus, lib: IntLib, l: NValue, op: BinOp, r: NValue)
    requires !op.InOp? && !op.IsOp? && l.VInt?
    ensures BinaryOp(p, lib, Resolve(d, l), op, Resolve(d, r)) == ResolveOutcome(d, BinaryOp(p, lib, l, op, r))
    ensures ScopedOutcome(d, BinaryOp(p, lib, l, op, r))
  {
    if r.VInt? { IntegersResolve(d, lib, l.n, op, r.n); }
  }

  lemma {:induction false} FieldResolves(d: Driver, p: Modulus, lib: IntLib, l: NValue, op: BinOp, r: NValue)
    requires !op.InOp? && !op.IsOp? && l.VFe?
    ensures BinaryOp(p, lib, Resolve(d, l), op, Resolve(d, r)) == ResolveOutcome(d, BinaryOp(p, lib, l, op, r))
    ensures ScopedOutcome(d, BinaryOp(p, lib, l, op, r))
  {
    if r.VFe? { FieldsResolve(d, p, l.fe, op, r.fe); }
  }

  lemma IntegersResolve(d: Driver, lib: IntLib, l: int, op: BinOp, r: int)
    ensures IntegerOp<Code>(lib, l, op, r) == ResolveOutcome(d, IntegerOp(lib, l, op, r))
    ensures ScopedOutcome(d, IntegerOp(lib, l, op, r))
  {
  }

  lemma FieldsResolve(d: Driver, p: Modulus, l: int, op: BinOp, r: int)
    ensures FieldOp<Code>(p, l, op, r) == ResolveOutcome(d, FieldOp(p, l, op, r))
    ensures ScopedOutcome(d, FieldOp(p, l, op, r))
  {
  }

  lemma UnaryResolves(d: Driver, p: Modulus, op: UnOp, v: NValue)
    ensures UnaryOp(p, op, Resolve(d, v)) == ResolveOutcome(d, UnaryOp(p, op, v))
    ensures ScopedOutcome(d, UnaryOp(p, op, v))
  {
  }

  lemma IndexResolves(d: Driver, a: NValue, i: NValue)
    ensures IndexOp(Resolve(d, a), Resolve(d, i)) == ResolveOutcome(d, IndexOp(a, i))
    ensures WellScoped(d, a) ==> ScopedOutcome(d, IndexOp(a, i))
  {
  }

  // ----- the theorem -----

  /** Symbol tables for named and for resolved code, and how their states correspond. */
  datatype Setup<!A, !B> = Setup(d: Driver, named: NSymbols<A>, levels: Symbols<B>, state: A -> B)

  function ResolveRes<A, B>(k: Setup<A, B>, r: Res<NValue, A>): Res<Value, B> {
    match r
    case OutOfFuel => OutOfFuel
    case Fail(e) => Fail(e)
    case Done(v, s) => Done(Resolve(k.d, v), k.state(s))
  }

  function ResolveList<A, B>(k: Setup<A, B>, r: Res<seq<NValue>, A>): Res<seq<Value>, B> {
    match r
    case OutOfFuel => OutOfFuel
    case Fail(e) => Fail(e)
    case Done(vs, s) => Done(ResolveAll(k.d, vs), k.state(s))
  }

  function ResolveEnv<A, B>(k: Setup<A, B>, r: Res<Env, A>): Res<seq<Value>, B> {
    match r
    case OutOfFuel => OutOfFuel
    case Fail(e) => Fail(e)
    case Done(env, s) => Done(ResolveAll(k.d, env.vals), k.state(s))
  }

  predicate ScopedRes<A, B>(k: Setup<A, B>, r: Res<NValue, A>) { r.Done? ==> WellScoped(k.d, r.value) }

  /** An answer of the named symbol table and the corresponding answer of the resolved one. */
  ghost predicate SameAnswer<A, B>(k: Setup<A, B>, x: Outcome<(NValue, A)>, y: Outcome<(Value, B)>) {
    ResolveRes(k, LiftPair(x)) == LiftPair(y) && ScopedRes(k, LiftPair(x))
  }

  ghost predicate SameItems<A, B>(k: Setup<A, B>, x: Outcome<A>, y: Outcome<B>) {
    match x
    case Err(e) => y == Err(e)
    case Ok(s) => y == Ok(k.state(s))
  }

  function ResolveOption(d: Driver, v: Option<NValue>): Option<Value> {
    if v.Some? then Some(Resolve(d, v.value)) else None
  }

  /** In state `s`, symbols answer alike, whether code is named or resolved. */
  ghost predicate AgreeAt<A, B>(k: Setup<A, B>, s: A) {
    && (forall n, ts :: SameAnswer(k, k.named.lookup(s, n, ts), k.levels.lookup(k.state(s), n, ts)))
    && (forall n ::
          && k.levels.publicRef(k.state(s), n) == ResolveOutcome(k.d, k.named.publicRef(s, n))
          && ScopedOutcome(k.d, k.named.publicRef(s, n)))
    && (forall n, ty, v: Option<NValue> :: (v.Some? ==> WellScoped(k.d, v.value)) ==>
          SameAnswer(k, k.named.newColumn(s, n, ty, v), k.levels.newColumn(k.state(s), n, ty, ResolveOption(k.d, v))))
    && (forall v :: WellScoped(k.d, v) ==>
          SameItems(k, k.named.addProofItems(s, v), k.levels.addProofItems(k.state(s), Resolve(k.d, v))))
    && (forall n, vs :: AllScoped(k.d, vs) ==>
          SameAnswer(k, k.named.builtin(s, n, vs), k.levels.builtin(k.state(s), n, ResolveAll(k.d, vs))))
  }

  ghost predicate Agree<A(!new), B>(k: Setup<A, B>) {
    k.named.p == k.levels.p && k.named.lib == k.levels.lib && k.named.builtins == k.levels.builtins && forall s :: AgreeAt(k, s)
  }

  /** `e` is accepted in the scope of `env`. */
  predicate Accepted(d: Driver, e: NExpr, env: Env) { ScopedEnv(d, env) && Process(d, env.names, e).Some? }

  /** Evaluating `e` by name and evaluating its resolved form by level agree. */
  ghost predicate Correct<A, B>(fuel: nat, k: Setup<A, B>, e: NExpr, env: Env, targs: map<string, Type>, s: A) {
    var r := NEval(fuel, k.d, k.named, e, env, targs, s);
    var e' := Process(k.d, env.names, e);
    && e'.Some?
    && Eval(fuel, k.levels, e'.value, ResolveAll(k.d, env.vals), targs, k.state(s)) == ResolveRes(k, r)
    && ScopedRes(k, r)
  }

  ghost predicate CorrectList<A, B>(fuel: nat, k: Setup<A, B>, es: seq<NExpr>, env: Env, targs: map<string, Type>, s: A) {
    var r := NEvalList(fuel, k.d, k.named, es, env, targs, s);
    var es' := ProcessAll(k.d, env.names, es);
    && es'.Some?
    && EvalList(fuel, k.levels, es'.value, ResolveAll(k.d, env.vals), targs, k.state(s)) == ResolveList(k, r)
    && (r.Done? ==> AllScoped(k.d, r.value))
  }

  /** Statements extend the environment with the names the resolver numbered. */
  ghost predicate CorrectEnv<A, B>(k: Setup<A, B>, x: Res<Env, A>, y: Res<seq<Value>, B>, names': seq<string>) {
    y == ResolveEnv(k, x) && (x.Done? ==> ScopedEnv(k.d, x.value) && x.value.names == names')
  }

  lemma {:induction false} LeafCorrect<A(!new), B>(fuel: nat, k: Setup<A, B>, e: NExpr, env: Env, targs: map<string, Type>, s: A)
    requires Agree(k) && Accepted(k.d, e, env)
    requires e.NRef? || e.NPublicRef? || e.NNumber? || e.NStr? || e.NLambda?
    ensures Correct(fuel, k, e, env, targs, s)
  {
    if e.NRef? { ReferenceCorrect(fuel, k, e, env, targs, s); }
    if e.NPublicRef? { assert AgreeAt(k, s); }
  }

  /** A local name refers to the value at its level; any other name is looked up. */
  lemma ReferenceCorrect<A(!new), B>(fuel: nat, k: Setup<A, B>, e: NExpr, env: Env, targs: map<string, Type>, s: A)
    requires Agree(k) && Accepted(k.d, e, env) && e.NRef?
    ensures Correct(fuel, k, e, env, targs, s)
  {
    if k.d.isIdentifier(e.path) && e.path in env.names {
      LookupAtLevel(env, e.path);
    } else {
      assert AgreeAt(k, s);
    }
  }

  lemma {:induction false} ResolutionCorrect<A(!new), B>(fuel: nat, k: Setup<A, B>, e: NExpr, env: Env, targs: map<string, Type>, s: A)
    requires Agree(k) && Accepted(k.d, e, env)
    ensures Correct(fuel, k, e, env, targs, s)
    decreases fuel, e, 2
  {
    match e
    case NTuple(items) => ListCorrect(fuel, k, items, env, targs, s);
    case NArray(items) => ListCorrect(fuel, k, items, env, targs, s);
    case NBinary(_, _, _) => BinaryCorrect(fuel, k, e, env, targs, s);
    case NUnary(_, _) => UnaryCorrect(fuel, k, e, env, targs, s);
    case NIndex(_, _) => IndexCorrect(fuel, k, e, env, targs, s);
    case NCall(_, _) => CallCorrect(fuel, k, e, env, targs, s);
    case NMatch(_, _) => MatchCorrect(fuel, k, e, env, targs, s);
    case NIf(_, _, _) => IfCorrect(fuel, k, e, env, targs, s);
    case NBlock(_, _) => BlockCorrect(fuel, k, e, env, targs, s);
    case _ => LeafCorrect(fuel, k, e, env, targs, s);
  }

  lemma {:induction false} ListCorrect<A(!new), B>(fuel: nat, k: Setup<A, B>, es: seq<NExpr>, env: Env, targs: map<string, Type>, s: A)
    requires Agree(k) && ScopedEnv(k.d, env) && ProcessAll(k.d, env.names, es).Some?
    ensures CorrectList(fuel, k, es, env, targs, s)
    decreases fuel, es, 0
  {
    if es != [] {
      var es' := ProcessAll(k.d, env.names, es).value;
      assert es'[1..] == ProcessAll(k.d, env.names, es[1..]).value;
      ResolutionCorrect(fuel, k, es[0], env, targs, s);
      var r := NEval(fuel, k.d, k.named, es[0], env, targs, s);
      if r.Done? {
        ListCorrect(fuel, k, es[1..], env, targs, r.sym);
        var t := NEvalList(fuel, k.d, k.named, es[1..], env, targs, r.sym);
        if t.Done? { assert ResolveAll(k.d, [r.value] + t.value) == [Resolve(k.d, r.value)] + ResolveAll(k.d, t.value); }
      }
    }
  }

  lemma {:induction false} BinaryCorrect<A(!new), B>(fuel: nat, k: Setup<A, B>, e: NExpr, env: Env, targs: map<string, Type>, s: A)
    requires Agree(k) && Accepted(k.d, e, env) && e.NBinary?
    ensures Correct(fuel, k, e, env, targs, s)
    decreases fuel, e, 1
  {
    ResolutionCorrect(fuel, k, e.l, env, targs, s);
    var a := NEval(fuel, k.d, k.named, e.l, env, targs, s);
    if a.Done? {
      ResolutionCorrect(fuel, k, e.r, env, targs, a.sym);
      var b := NEval(fuel, k.d, k.named, e.r, env, targs, a.sym);
      if b.Done? {
        BinaryResolves(k.d, k.named.p, k.named.lib, a.value, e.op, b.value);
      }
    }
  }

  lemma {:induction false} UnaryCorrect<A(!new), B>(fuel: nat, k: Setup<A, B>, e: NExpr, env: Env, targs: map<string, Type>, s: A)
    requires Agree(k) && Accepted(k.d, e, env) && e.NUnary?
    ensures Correct(fuel, k, e, env, targs, s)
    decreases fuel, e, 1
  {
    ResolutionCorrect(fuel, k, e.e, env, targs, s);
    var r := NEval(fuel, k.d, k.named, e.e, env, targs, s);
    if r.Done? { UnaryResolves(k.d, k.named.p, e.uop, r.value); }
  }

  lemma {:induction false} IfCorrect<A(!new), B>(fuel: nat, k: Setup<A, B>, e: NExpr, env: Env, targs: map<string, Type>, s: A)
    requires Agree(k) && Accepted(k.d, e, env) && e.NIf?
    ensures Correct(fuel, k, e, env, targs, s)
    decreases fuel, e, 1
  {
    ResolutionCorrect(fuel, k, e.cond, env, targs, s);
    var r := NEval(fuel, k.d, k.named, e.cond, env, targs, s);
    if r.Done? && r.value.VBool? { ResolutionCorrect(fuel, k, if r.value.b then e.thn else e.els, env, targs, r.sym); }
  }

  lemma {:induction false} IndexCorrect<A(!new), B>(fuel: nat, k: Setup<A, B>, e: NExpr, env: Env, targs: map<string, Type>, s: A)
    requires Agree(k) && Accepted(k.d, e, env) && e.NIndex?
    ensures Correct(fuel, k, e, env, targs, s)
    decreases fuel, e, 1
  {
    ResolutionCorrect(fuel, k, e.arr, env, targs, s);
    var a := NEval(fuel, k.d, k.named, e.arr, env, targs, s);
    if a.Done? {
      ResolutionCorrect(fuel, k, e.index, env, targs, a.sym);
      var b := NEval(fuel, k.d, k.named, e.index, env, targs, a.sym);
      if b.Done? { IndexResolves(k.d, a.value, b.value); }
    }
  }

  /** Binding extends a scoped environment. */
  lemma BindScoped(d: Driver, env: Env, b: Bindings, names': seq<string>, vars: seq<Value>)
    requires ScopedEnv(d, env) && b.Bindings? && AllScoped(d, b.vals) && Distinct(names')
    requires SameMatch(d, b, Matched(vars), env.names, names')
    ensures ScopedEnv(d, Bind(env, b)) && Bind(env, b).names == names'
    ensures ResolveAll(d, Bind(env, b).vals) == ResolveAll(d, env.vals) + vars
  {
    ResolveConcat(d, env.vals, b.vals);
  }

  ghost predicate SameCallee<A, B>(k: Setup<A, B>, x: NCallee<A>, y: Callee<B>) {
    match x
    case NImmediate(r) => y == Immediate(ResolveRes(k, r)) && ScopedRes(k, r)
    case NEnter(body, env, ta) =>
      Accepted(k.d, body, env) && y == Enter(Process(k.d, env.names, body).value, ResolveAll(k.d, env.vals), ta)
  }

  lemma PrepareCorrect<A(!new), B>(k: Setup<A, B>, f: NValue, args: seq<NValue>, s: A)
    requires Agree(k) && WellScoped(k.d, f) && AllScoped(k.d, args)
    ensures SameCallee(k, NPrepare(k.d, k.named, f, args, s), Prepare(k.levels, Resolve(k.d, f), ResolveAll(k.d, args), k.state(s)))
  {
    assert AgreeAt(k, s);
    if f.VClosure? && |f.code.params| == |args| { ClosureCorrect(k, f, args, s); }
  }

  lemma ClosureCorrect<A(!new), B>(k: Setup<A, B>, f: NValue, args: seq<NValue>, s: A)
    requires WellScoped(k.d, f) && AllScoped(k.d, args) && f.VClosure? && |f.code.params| == |args|
    ensures SameCallee(k, NPrepare(k.d, k.named, f, args, s), Prepare(k.levels, Resolve(k.d, f), ResolveAll(k.d, args), k.state(s)))
  {
    var c := f.code;
    BindParamsResolves(k.d, c.names, args, c.params);
    MatchAllScoped(k.d, args, c.params);
    PatternsKeepDistinct(k.d, c.names, c.params);
    var b := MatchNamedAll(k.d, args, c.params);
    if b.Bindings? {
      var q := ProcessPatterns(k.d, c.names, c.params).value;
      BindScoped(k.d, Env(c.names, f.env), b, q.1, BindParams(ResolveAll(k.d, args), q.0).value);
    }
  }

  lemma {:induction false} CallCorrect<A(!new), B>(fuel: nat, k: Setup<A, B>, e: NExpr, env: Env, targs: map<string, Type>, s: A)
    requires Agree(k) && Accepted(k.d, e, env) && e.NCall?
    ensures Correct(fuel, k, e, env, targs, s)
    decreases fuel, e, 1
  {
    ResolutionCorrect(fuel, k, e.f, env, targs, s);
    var f := NEval(fuel, k.d, k.named, e.f, env, targs, s);
    if f.Done? {
      ListCorrect(fuel, k, e.args, env, targs, f.sym);
      var vs := NEvalList(fuel, k.d, k.named, e.args, env, targs, f.sym);
      if vs.Done? {
        PrepareCorrect(k, f.value, vs.value, vs.sym);
        var c := NPrepare(k.d, k.named, f.value, vs.value, vs.sym);
        if c.NEnter? && fuel > 0 { ResolutionCorrect(fuel - 1, k, c.body, c.env, c.targs, vs.sym); }
        ApplyFrom(fuel, k, f.value, vs.value, vs.sym);
      }
    }
    CallFrom(fuel, k, e, env, targs, s);
  }

  lemma {:induction false} CallFrom<A, B>(fuel: nat, k: Setup<A, B>, e: NExpr, env: Env, targs: map<string, Type>, s: A)
    requires Accepted(k.d, e, env) && e.NCall?
    requires Correct(fuel, k, e.f, env, targs, s)
    requires var f := NEval(fuel, k.d, k.named, e.f, env, targs, s);
             f.Done? ==>
               && CorrectList(fuel, k, e.args, env, targs, f.sym)
               && var vs := NEvalList(fuel, k.d, k.named, e.args, env, targs, f.sym);
               vs.Done? ==>
                 var r := NApply(fuel, k.d, k.named, f.value, vs.value, vs.sym);
                 && Apply(fuel, k.levels, Resolve(k.d, f.value), ResolveAll(k.d, vs.value), k.state(vs.sym)) == ResolveRes(k, r)
                 && ScopedRes(k, r)
    ensures Correct(fuel, k, e, env, targs, s)
  {
    var e' := Process(k.d, env.names, e).value;
    assert e'.Call? && !IsLeaf(e');
  }

  lemma ApplyFrom<A, B>(fuel: nat, k: Setup<A, B>, f: NValue, args: seq<NValue>, s: A)
    requires var c := NPrepare(k.d, k.named, f, args, s);
             && SameCallee(k, c, Prepare(k.levels, Resolve(k.d, f), ResolveAll(k.d, args), k.state(s)))
             && (c.NEnter? && fuel > 0 ==> Correct(fuel - 1, k, c.body, c.env, c.targs, s))
    ensures var r := NApply(fuel, k.d, k.named, f, args, s);
            Apply(fuel, k.levels, Resolve(k.d, f), ResolveAll(k.d, args), k.state(s)) == ResolveRes(k, r) && ScopedRes(k, r)
  {
  }

  /** Applying a function by name and by level agree. */
  lemma {:induction false} ApplyCorrect<A(!new), B>(fuel: nat, k: Setup<A, B>, f: NValue, args: seq<NValue>, s: A)
    requires Agree(k) && WellScoped(k.d, f) && AllScoped(k.d, args)
    ensures var r := NApply(fuel, k.d, k.named, f, args, s);
            Apply(fuel, k.levels, Resolve(k.d, f), ResolveAll(k.d, args), k.state(s)) == ResolveRes(k, r) && ScopedRes(k, r)
  {
    PrepareCorrect(k, f, args, s);
    var c := NPrepare(k.d, k.named, f, args, s);
    if c.NEnter? && fuel > 0 { EnterCorrect(fuel, k, c, s); }
    ApplyFrom(fuel, k, f, args, s);
  }

  lemma {:induction false} EnterCorrect<A(!new), B>(fuel: nat, k: Setup<A, B>, c: NCallee<A>, s: A)
    requires Agree(k) && c.NEnter? && fuel > 0 && Accepted(k.d, c.body, c.env)
    ensures Correct(fuel - 1, k, c.body, c.env, c.targs, s)
  {
    ResolutionCorrect(fuel - 1, k, c.body, c.env, c.targs, s);
  }

  lemma {:induction false} MatchCorrect<A(!new), B>(fuel: nat, k: Setup<A, B>, e: NExpr, env: Env, targs: map<string, Type>, s: A)
    requires Agree(k) && Accepted(k.d, e, env) && e.NMatch?
    ensures Correct(fuel, k, e, env, targs, s)
    decreases fuel, e, 1
  {
    ResolutionCorrect(fuel, k, e.scrutinee, env, targs, s);
    var r := NEval(fuel, k.d, k.named, e.scrutinee, env, targs, s);
    if r.Done? {
      FindArmResolves(k.d, env.names, r.value, e.arms);
      FindArmScoped(k.d, r.value, e.arms);
      var sel := FindArmNamed(k.d, r.value, e.arms);
      if sel.Ok? {
        var a := e.arms[sel.value.arm];
        ProcessArmsAt(k.d, env.names, e.arms, sel.value.arm);
        PatternKeepsDistinct(k.d, env.names, a.pattern);
        var q := ProcessPattern(k.d, env.names, a.pattern).value;
        BindScoped(k.d, env, sel.value.b, q.1, FindArm(Resolve(k.d, r.value), ProcessArms(k.d, env.names, e.arms).value).value.vars);
        ResolutionCorrect(fuel, k, a.value, Bind(env, sel.value.b), targs, r.sym);
      }
    }
  }

  lemma {:induction false} BlockCorrect<A(!new), B>(fuel: nat, k: Setup<A, B>, e: NExpr, env: Env, targs: map<string, Type>, s: A)
    requires Agree(k) && Accepted(k.d, e, env) && e.NBlock?
    ensures Correct(fuel, k, e, env, targs, s)
    decreases fuel, e, 1
  {
    StmtsCorrect(fuel, k, e.stmts, env, targs, s);
    var r := NEvalStmts(fuel, k.d, k.named, e.stmts, env, targs, s);
    if r.Done? && e.result.Some? { ResolutionCorrect(fuel, k, e.result.value, r.value, targs, r.sym); }
  }

  lemma {:induction false} StmtsCorrect<A(!new), B>(fuel: nat, k: Setup<A, B>, stmts: seq<NStmt>, env: Env, targs: map<string, Type>, s: A)
    requires Agree(k) && ScopedEnv(k.d, env) && ProcessStmts(k.d, env.names, stmts).Some?
    ensures var q := ProcessStmts(k.d, env.names, stmts).value;
            CorrectEnv(k, NEvalStmts(fuel, k.d, k.named, stmts, env, targs, s),
                       EvalStmts(fuel, k.levels, q.0, ResolveAll(k.d, env.vals), targs, k.state(s)), q.1)
    decreases fuel, stmts, 0
  {
    if stmts != [] {
      var h := ProcessStmt(k.d, env.names, stmts[0]).value;
      var t := ProcessStmts(k.d, h.1, stmts[1..]).value;
      assert ([h.0] + t.0)[1..] == t.0;
      StmtCorrect(fuel, k, stmts[0], env, targs, s);
      var r := NEvalStmt(fuel, k.d, k.named, stmts[0], env, targs, s);
      if r.Done? { StmtsCorrect(fuel, k, stmts[1..], r.value, targs, r.sym); }
    }
  }

  lemma {:induction false} StmtCorrect<A(!new), B>(fuel: nat, k: Setup<A, B>, st: NStmt, env: Env, targs: map<string, Type>, s: A)
    requires Agree(k) && ScopedEnv(k.d, env) && ProcessStmt(k.d, env.names, st).Some?
    ensures var q := ProcessStmt(k.d, env.names, st).value;
            CorrectEnv(k, NEvalStmt(fuel, k.d, k.named, st, env, targs, s),
                       EvalStmt(fuel, k.levels, q.0, ResolveAll(k.d, env.vals), targs, k.state(s)), q.1)
    decreases fuel, st, 0
  {
    match st
    case NDo(e) =>
      ResolutionCorrect(fuel, k, e, env, targs, s);
      var r := NEval(fuel, k.d, k.named, e, env, targs, s);
      if r.Done? { ProofItemCorrect(k, r.value, r.sym); }
    case NLet(p, ty, None) => LetCorrect(k, p, ty, None, env, s);
    case NLet(p, ty, Some(e)) =>
      ResolutionCorrect(fuel, k, e, env, targs, s);
      var r := NEval(fuel, k.d, k.named, e, env, targs, s);
      if r.Done? { LetCorrect(k, p, ty, Some(r.value), env, r.sym); }
  }

  lemma ProofItemCorrect<A(!new), B>(k: Setup<A, B>, v: NValue, s: A)
    requires Agree(k) && WellScoped(k.d, v)
    ensures SameItems(k, ProofItem(k.named, v, s), ProofItem(k.levels, Resolve(k.d, v), k.state(s)))
  {
    assert AgreeAt(k, s);
  }

  lemma LetValueCorrect<A(!new), B>(k: Setup<A, B>, p: Pattern, ty: Option<Type>, v: Option<NValue>, names: seq<string>, s: A)
    requires Agree(k) && ProcessPattern(k.d, names, p).Some? && (v.Some? ==> WellScoped(k.d, v.value))
    ensures var x := LetNamedValue(k.d, k.named, p, ty, v, s);
            && LetValue(k.levels, ProcessPattern(k.d, names, p).value.0, ty, ResolveOption(k.d, v), k.state(s)) == ResolveRes(k, x)
            && ScopedRes(k, x)
  {
    assert AgreeAt(k, s);
  }

  lemma LetCorrect<A(!new), B>(k: Setup<A, B>, p: Pattern, ty: Option<Type>, v: Option<NValue>, env: Env, s: A)
    requires Agree(k) && ScopedEnv(k.d, env) && ProcessPattern(k.d, env.names, p).Some?
    requires v.Some? ==> WellScoped(k.d, v.value)
    ensures var q := ProcessPattern(k.d, env.names, p).value;
            CorrectEnv(k, LetNamed(k.d, k.named, p, ty, v, env, s),
                       Extend(ResolveAll(k.d, env.vals), LetVars(k.levels, q.0, ty, ResolveOption(k.d, v), k.state(s))), q.1)
  {
    var q := ProcessPattern(k.d, env.names, p).value;
    LetValueCorrect(k, p, ty, v, env.names, s);
    var x := LetNamedValue(k.d, k.named, p, ty, v, s);
    if x.Done? {
      MatchResolves(k.d, env.names, x.value, p);
      MatchScoped(k.d, x.value, p);
      PatternKeepsDistinct(k.d, env.names, p);
      var b := MatchNamed(k.d, x.value, p);
      if b.Bindings? { BindScoped(k.d, env, b, q.1, MatchPattern(Resolve(k.d, x.value), q.0).vars); }
    }
  }
}
