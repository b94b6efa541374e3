/** Which expressions the name resolver accepts: every name is bound or resolves, no name is bound twice, and
    parameters and let statements have patterns that always match. */
module Scoping {
  import opened Options
  import opened Types
  import opened PilLang
  import opened Named

  // ----- patterns -----

  /** The names that a pattern binds, from left to right. A path without fields that names no variant is a
      variable. */
  function PatternNames(d: Driver, p: Pattern): seq<string> {
    match p
    case VariableP(x) => [x]
    case TupleP(items) => PatternsNames(d, items)
    case ArrayP(items) => PatternsNames(d, items)
    case EnumP(path, NoFields) => if d.constructorVariant(path).None? then [path] else []
    case EnumP(_, Fields(fs)) => PatternsNames(d, fs)
    case _ => []
  }

  function PatternsNames(d: Driver, ps: seq<Pattern>): seq<string> {
    if ps == [] then [] else PatternNames(d, ps[0]) + PatternsNames(d, ps[1..])
  }

  /** Paths with fields resolve, paths without fields name a variant or are identifiers, and an array has at most
      one ellipsis. */
  predicate PathsResolve(d: Driver, p: Pattern) {
    match p
    case TupleP(items) => forall q :: q in items ==> PathsResolve(d, q)
    case ArrayP(items) => (forall i, j :: 0 <= i < j < |items| ==> !(items[i].Ellipsis? && items[j].Ellipsis?)) && forall q :: q in items ==> PathsResolve(d, q)
    case EnumP(path, NoFields) => d.constructorVariant(path).Some? || d.isIdentifier(path)
    case EnumP(path, Fields(fs)) => d.valueVariant(path).Some? && forall q :: q in fs ==> PathsResolve(d, q)
    case _ => true
  }

  /** The names are different from each other and from those in scope. */
  predicate Fresh(names: seq<string>, xs: seq<string>) {
    (forall i, j :: 0 <= i < j < |xs| ==> xs[i] != xs[j]) && forall x :: x in xs ==> x !in names
  }

  lemma FreshConcat(names: seq<string>, a: seq<string>, b: seq<string>)
    ensures Fresh(names, a + b) <==> Fresh(names, a) && Fresh(names + a, b)
  {
    if Fresh(names, a + b) {
      forall i, j | 0 <= i < j < |a| ensures a[i] != a[j] { assert (a + b)[i] != (a + b)[j]; }
      forall i, j | 0 <= i < j < |b| ensures b[i] != b[j] { assert (a + b)[|a| + i] != (a + b)[|a| + j]; }
      forall x | x in a ensures x !in names { assert x in a + b; }
      forall x | x in b ensures x !in names + a {
        assert x in a + b;
        var j :| 0 <= j < |b| && b[j] == x;
        forall i | 0 <= i < |a| ensures a[i] != x { assert (a + b)[i] != (a + b)[|a| + j]; }
      }
    }
    if Fresh(names, a) && Fresh(names + a, b) {
      forall i, j | 0 <= i < j < |a + b| ensures (a + b)[i] != (a + b)[j] {
        if j >= |a| { assert b[j - |a|] !in names + a; if i >= |a| { assert b[i - |a|] != b[j - |a|]; } else { assert a[i] in names + a; } }
      }
      forall x | x in a + b ensures x !in names { if x in b { assert x !in names + a; } }
    }
  }

  lemma {:induction false} CountIff(items: seq<Pattern>)
    ensures EllipsisCount(items) > 0 <==> exists q :: q in items && q.Ellipsis?
    ensures EllipsisCount(items) <= 1 <==> forall i, j :: 0 <= i < j < |items| ==> !(items[i].Ellipsis? && items[j].Ellipsis?)
  {
    if items != [] {
      var rest := items[1..];
      CountIff(rest);
      forall j | 1 <= j < |items| ensures items[j] == rest[j - 1] { }
      if items[0].Ellipsis? && EllipsisCount(rest) > 0 {
        var q :| q in rest && q.Ellipsis?;
        var j :| 0 <= j < |rest| && rest[j] == q;
        assert items[0].Ellipsis? && items[j + 1].Ellipsis?;
      }
      if i, j :| 0 <= i < j < |rest| && rest[i].Ellipsis? && rest[j].Ellipsis? { assert items[i + 1].Ellipsis? && items[j + 1].Ellipsis?; }
    }
  }

  /** Whether a pattern is accepted, and the scope after it. */
  ghost predicate PatternResult(names: seq<string>, accepted: bool, xs: seq<string>, r: Option<seq<string>>) {
    (r.Some? <==> accepted && Fresh(names, xs)) && (r.Some? ==> r.value == names + xs)
  }

  function ScopeOf<T>(r: Option<(T, seq<string>)>): Option<seq<string>> { if r.None? then None else Some(r.value.1) }

  lemma {:induction false} PatternIff(d: Driver, names: seq<string>, p: Pattern)
    ensures PatternResult(names, PathsResolve(d, p), PatternNames(d, p), ScopeOf(ProcessPattern(d, names, p)))
    decreases p
  {
    match p
    case TupleP(items) => PatternsIff(d, names, items);
    case ArrayP(items) => PatternsIff(d, names, items); CountIff(items);
    case EnumP(_, Fields(fs)) => PatternsIff(d, names, fs);
    case _ =>
  }

  lemma {:induction false} PatternsIff(d: Driver, names: seq<string>, ps: seq<Pattern>)
    ensures PatternResult(names, forall q :: q in ps ==> PathsResolve(d, q), PatternsNames(d, ps), ScopeOf(ProcessPatterns(d, names, ps)))
    decreases ps
  {
    if ps != [] {
      var xs, ys := PatternNames(d, ps[0]), PatternsNames(d, ps[1..]);
      PatternIff(d, names, ps[0]);
      FreshConcat(names, xs, ys);
      PatternsIff(d, names + xs, ps[1..]);
      assert names + xs + ys == names + (xs + ys);
      assert forall q :: q in ps <==> q == ps[0] || q in ps[1..];
    }
  }

  /** The pattern matches every value of its type. */
  predicate AlwaysMatches(d: Driver, p: Pattern) {
    match p
    case CatchAll => true
    case VariableP(_) => true
    case EnumP(path, NoFields) => d.constructorVariant(path).None?
    case ArrayP(items) => items == [Ellipsis]
    case TupleP(items) => forall q :: q in items ==> AlwaysMatches(d, q)
    case _ => false
  }

  lemma {:induction false} AlwaysIff(d: Driver, names: seq<string>, p: Pattern)
    requires ProcessPattern(d, names, p).Some?
    ensures Irrefutable(ProcessPattern(d, names, p).value.0) <==> AlwaysMatches(d, p)
    ensures ProcessPattern(d, names, p).value.0.Ellipsis? <==> p.Ellipsis?
    decreases p
  {
    match p
    case TupleP(items) => AllAlwaysIff(d, names, items);
    case ArrayP(items) => AllAlwaysIff(d, names, items); if |items| == 1 { assert items == [items[0]]; }
    case _ =>
  }

  lemma {:induction false} AllAlwaysIff(d: Driver, names: seq<string>, ps: seq<Pattern>)
    requires ProcessPatterns(d, names, ps).Some?
    ensures var qs := ProcessPatterns(d, names, ps).value.0;
            && ((forall q :: q in qs ==> Irrefutable(q)) <==> forall q :: q in ps ==> AlwaysMatches(d, q))
            && forall i :: 0 <= i < |ps| ==> (qs[i].Ellipsis? <==> ps[i].Ellipsis?)
    decreases ps
  {
    if ps != [] {
      AlwaysIff(d, names, ps[0]);
      AllAlwaysIff(d, ProcessPattern(d, names, ps[0]).value.1, ps[1..]);
      var qs := ProcessPatterns(d, names, ps).value.0;
      assert forall q :: q in ps <==> q == ps[0] || q in ps[1..];
      assert forall q :: q in qs <==> q == qs[0] || q in qs[1..];
    }
  }

  // ----- expressions -----

  /** All names in the expression are bound or resolve, with `names` in scope. */
  predicate Admissible(d: Driver, names: seq<string>, e: NExpr)
    decreases e
  {
    match e
    case NRef(path, _) => (d.isIdentifier(path) && path in names) || d.resolveValue(path).Some?
    case NTuple(items) => forall x :: x in items ==> Admissible(d, names, x)
    case NArray(items) => forall x :: x in items ==> Admissible(d, names, x)
    case NBinary(_, l, r) => Admissible(d, names, l) && Admissible(d, names, r)
    case NUnary(_, x) => Admissible(d, names, x)
    case NLambda(ps, body) =>
      && (forall p :: p in ps ==> PathsResolve(d, p) && AlwaysMatches(d, p))
      && Fresh(names, PatternsNames(d, ps)) && Admissible(d, names + PatternsNames(d, ps), body)
    case NIndex(x, i) => Admissible(d, names, x) && Admissible(d, names, i)
    case NCall(f, args) => Admissible(d, names, f) && forall x :: x in args ==> Admissible(d, names, x)
    case NMatch(sc, arms) => Admissible(d, names, sc) && forall a :: a in arms ==> AdmissibleArm(d, names, a)
    case NIf(c, t, f) => Admissible(d, names, c) && Admissible(d, names, t) && Admissible(d, names, f)
    case NBlock(stmts, result) =>
      AdmissibleStmts(d, names, stmts) && (result.Some? ==> Admissible(d, names + StmtsNames(d, stmts), result.value))
    case NFreeInput => false
    case _ => true
  }

  predicate AdmissibleArm(d: Driver, names: seq<string>, a: NArm)
    decreases a
  {
    PathsResolve(d, a.pattern) && Fresh(names, PatternNames(d, a.pattern)) && Admissible(d, names + PatternNames(d, a.pattern), a.value)
  }

  predicate IsVariable(d: Driver, p: Pattern) { p.VariableP? || (p.EnumP? && p.fields.NoFields? && d.constructorVariant(p.variant).None?) }

  function StmtNames(d: Driver, s: NStmt): seq<string> { if s.NLet? then PatternNames(d, s.pattern) else [] }

  function StmtsNames(d: Driver, stmts: seq<NStmt>): seq<string> {
    if stmts == [] then [] else StmtNames(d, stmts[0]) + StmtsNames(d, stmts[1..])
  }

  predicate AdmissibleStmt(d: Driver, names: seq<string>, s: NStmt)
    decreases s
  {
    match s
    case NDo(e) => Admissible(d, names, e)
    case NLet(p, _, value) =>
      && PathsResolve(d, p) && AlwaysMatches(d, p) && Fresh(names, PatternNames(d, p))
      && match value
         case None => IsVariable(d, p)
         case Some(e) => Admissible(d, names, e)
  }

  /** Every statement is admissible with the names of those before it in scope. */
  predicate AdmissibleStmts(d: Driver, names: seq<string>, stmts: seq<NStmt>)
    decreases stmts
  {
    stmts == [] || (AdmissibleStmt(d, names, stmts[0]) && AdmissibleStmts(d, names + StmtNames(d, stmts[0]), stmts[1..]))
  }

  /** The name resolver accepts exactly these expressions. */
  lemma {:induction false} AcceptedIff(d: Driver, names: seq<string>, e: NExpr)
    ensures Process(d, names, e).Some? <==> Admissible(d, names, e)
    decreases e, 0
  {
    match e
    case NTuple(items) => AllIff(d, names, items);
    case NArray(items) => AllIff(d, names, items);
    case NBinary(_, l, r) => AcceptedIff(d, names, l); AcceptedIff(d, names, r);
    case NUnary(_, x) => AcceptedIff(d, names, x);
    case NLambda(ps, body) => LambdaIff(d, names, ps, body);
    case NIndex(x, i) => AcceptedIff(d, names, x); AcceptedIff(d, names, i);
    case NCall(f, args) => AcceptedIff(d, names, f); AllIff(d, names, args);
    case NMatch(sc, arms) => AcceptedIff(d, names, sc); ArmsIff(d, names, arms);
    case NIf(c, t, f) => AcceptedIff(d, names, c); AcceptedIff(d, names, t); AcceptedIff(d, names, f);
    case NBlock(stmts, result) =>
      StmtsIff(d, names, stmts);
      if result.Some? { AcceptedIff(d, names + StmtsNames(d, stmts), result.value); }
    case _ =>
  }

  lemma {:induction false} LambdaIff(d: Driver, names: seq<string>, ps: seq<Pattern>, body: NExpr)
    ensures Process(d, names, NLambda(ps, body)).Some? <==> Admissible(d, names, NLambda(ps, body))
    decreases body, 1
  {
    PatternsIff(d, names, ps);
    var q := ProcessPatterns(d, names, ps);
    if q.Some? {
      AllAlwaysIff(d, names, ps);
      AcceptedIff(d, names + PatternsNames(d, ps), body);
    }
  }

  lemma {:induction false} AllIff(d: Driver, names: seq<string>, es: seq<NExpr>)
    ensures ProcessAll(d, names, es).Some? <==> forall x :: x in es ==> Admissible(d, names, x)
    decreases es, 0
  {
    if es != [] {
      AcceptedIff(d, names, es[0]);
      AllIff(d, names, es[1..]);
      assert forall x :: x in es <==> x == es[0] || x in es[1..];
    }
  }

  lemma {:induction false} ArmsIff(d: Driver, names: seq<string>, arms: seq<NArm>)
    ensures ProcessArms(d, names, arms).Some? <==> forall a :: a in arms ==> AdmissibleArm(d, names, a)
    decreases arms, 0
  {
    if arms != [] {
      ArmIff(d, names, arms[0]);
      ArmsIff(d, names, arms[1..]);
      assert forall a :: a in arms <==> a == arms[0] || a in arms[1..];
    }
  }

  lemma {:induction false} ArmIff(d: Driver, names: seq<string>, a: NArm)
    ensures ProcessArm(d, names, a).Some? <==> AdmissibleArm(d, names, a)
    decreases a, 0
  {
    PatternIff(d, names, a.pattern);
    AcceptedIff(d, names + PatternNames(d, a.pattern), a.value);
  }

  lemma {:induction false} StmtIff(d: Driver, names: seq<string>, s: NStmt)
    ensures var r := ScopeOf(ProcessStmt(d, names, s));
            (r.Some? <==> AdmissibleStmt(d, names, s)) && (r.Some? ==> r.value == names + StmtNames(d, s))
    decreases s, 0
  {
    match s
    case NDo(e) => AcceptedIff(d, names, e);
    case NLet(p, _, value) =>
      PatternIff(d, names, p);
      if value.Some? { AcceptedIff(d, names, value.value); }
      if ProcessPattern(d, names, p).Some? { AlwaysIff(d, names, p); }
  }

  lemma {:induction false} StmtsIff(d: Driver, names: seq<string>, stmts: seq<NStmt>)
    ensures var r := ScopeOf(ProcessStmts(d, names, stmts));
            (r.Some? <==> AdmissibleStmts(d, names, stmts)) && (r.Some? ==> r.value == names + StmtsNames(d, stmts))
    decreases stmts, 0
  {
    if stmts != [] {
      var xs := StmtNames(d, stmts[0]);
      StmtIff(d, names, stmts[0]);
      StmtsIff(d, names + xs, stmts[1..]);
      assert names + xs + StmtsNames(d, stmts[1..]) == names + (xs + StmtsNames(d, stmts[1..]));
    }
  }
}
