/** Unification of types over an idempotent substitution, with trait bounds on type variables and a
    bottom type that unifies with everything. */
module Unification {
  import opened Options
  import opened Types

  // ----- the shape of types -----

  /** `a` and `b` are built by the same constructor from equally many sub-types. */
  predicate SameHead(a: Type, b: Type) {
    match a
    case Array(_, n) => b.Array? && b.length == n
    case Tuple(items) => b.Tuple? && |b.items| == |items|
    case Function(ps, _) => b.Function? && |b.params| == |ps|
    case NamedType(n, Args(args)) => b.NamedType? && b.path == n && b.args.Args? && |b.args.types| == |args|
    case _ => a == b
  }

  lemma SameHeadChildren(a: Type, b: Type)
    requires SameHead(a, b)
    ensures |Children(a)| == |Children(b)| && (Children(a) == Children(b) ==> a == b)
  {
    if a.Function? && Children(a) == Children(b) {
      var n := |a.params|;
      assert Children(a)[..n] == a.params && Children(b)[..n] == b.params;
      assert Children(a)[n] == a.value && Children(b)[n] == b.value;
    }
  }

  function Size(t: Type): nat
    decreases t
  {
    match t
    case Array(b, _) => 1 + Size(b)
    case Tuple(items) => 1 + SizeAll(items)
    case Function(ps, v) => 1 + SizeAll(ps) + Size(v)
    case NamedType(_, Args(args)) => 1 + SizeAll(args)
    case _ => 1
  }

  function SizeAll(ts: seq<Type>): nat
    decreases ts
  {
    if ts == [] then 0 else Size(ts[0]) + SizeAll(ts[1..])
  }

  function Vars(t: Type): set<string>
    decreases t
  {
    match t
    case TypeVar(n) => {n}
    case Array(b, _) => Vars(b)
    case Tuple(items) => VarsAll(items)
    case Function(ps, v) => VarsAll(ps) + Vars(v)
    case NamedType(_, Args(args)) => VarsAll(args)
    case _ => {}
  }

  function VarsAll(ts: seq<Type>): (r: set<string>)
    ensures forall i :: 0 <= i < |ts| ==> Vars(ts[i]) <= r
    ensures forall v :: v in r ==> exists i :: 0 <= i < |ts| && v in Vars(ts[i])
    decreases ts
  {
    if ts == [] then {} else Vars(ts[0]) + VarsAll(ts[1..])
  }

  /** Replaces every type variable by the type an assignment gives it. */
  function Map(f: string -> Type, t: Type): Type
    decreases t
  {
    match t
    case TypeVar(n) => f(n)
    case Array(b, l) => Array(Map(f, b), l)
    case Tuple(items) => Tuple(MapAll(f, items))
    case Function(ps, v) => Function(MapAll(f, ps), Map(f, v))
    case NamedType(n, Args(args)) => NamedType(n, Args(MapAll(f, args)))
    case _ => t
  }

  function MapAll(f: string -> Type, ts: seq<Type>): (r: seq<Type>)
    ensures |r| == |ts| && forall i :: 0 <= i < |ts| ==> r[i] == Map(f, ts[i])
    decreases ts
  {
    if ts == [] then [] else [Map(f, ts[0])] + MapAll(f, ts[1..])
  }

  lemma MapHead(f: string -> Type, t: Type)
    requires !t.TypeVar?
    ensures SameHead(t, Map(f, t)) && Children(Map(f, t)) == MapAll(f, Children(t))
  {
  }

  lemma {:induction false} VarsAppend(ts: seq<Type>, t: Type)
    ensures VarsAll(ts + [t]) == VarsAll(ts) + Vars(t)
    decreases |ts|
  {
    if ts == [] {
      assert ts + [t] == [t] && [t][1..] == [];
    } else {
      assert (ts + [t])[1..] == ts[1..] + [t];
      VarsAppend(ts[1..], t);
    }
  }

  lemma VarsOfChildren(t: Type)
    requires !t.TypeVar?
    ensures Vars(t) == VarsAll(Children(t))
  {
    if t.Function? {
      VarsAppend(t.params, t.value);
    } else if t.Array? {
      assert Children(t)[0] == t.base && Children(t)[1..] == [];
    }
  }

  lemma {:induction false} SizeAppend(a: seq<Type>, b: seq<Type>)
    ensures SizeAll(a + b) == SizeAll(a) + SizeAll(b)
    decreases |a|
  {
    if a == [] { assert a + b == b; } else { assert (a + b)[1..] == a[1..] + b; SizeAppend(a[1..], b); }
  }

  lemma SizeOfChildren(t: Type)
    ensures Size(t) == 1 + SizeAll(Children(t))
  {
    if t.Function? { SizeAppend(t.params, [t.value]); }
    if t.Function? || t.Array? { assert SizeAll([Children(t)[|Children(t)| - 1]]) == Size(Children(t)[|Children(t)| - 1]); }
  }

  lemma {:induction false} SizeOfOne(ts: seq<Type>, i: nat)
    requires i < |ts|
    ensures Size(ts[i]) <= SizeAll(ts)
    decreases |ts|
  {
    if i > 0 { SizeOfOne(ts[1..], i - 1); }
  }

  // ----- assignments -----

  /** Two assignments that agree on the variables of a type map it alike. */
  lemma {:induction false} MapSame(f: string -> Type, g: string -> Type, t: Type)
    requires forall v :: v in Vars(t) ==> f(v) == g(v)
    ensures Map(f, t) == Map(g, t)
    decreases Size(t)
  {
    if !t.TypeVar? {
      MapHead(f, t);
      MapHead(g, t);
      VarsOfChildren(t);
      SizeOfChildren(t);
      forall i | 0 <= i < |Children(t)| ensures Map(f, Children(t)[i]) == Map(g, Children(t)[i]) {
        SizeOfOne(Children(t), i);
        MapSame(f, g, Children(t)[i]);
      }
      SameHeadChildren(t, Map(f, t));
      SameHeadChildren(Map(f, t), Map(g, t));
    }
  }

  /** Mapping twice is mapping once with the composed assignment. */
  lemma {:induction false} MapTwice(f: string -> Type, g: string -> Type, h: string -> Type, t: Type)
    requires forall v :: v in Vars(t) ==> h(v) == Map(f, g(v))
    ensures Map(f, Map(g, t)) == Map(h, t)
    decreases Size(t)
  {
    if !t.TypeVar? {
      MapHead(g, t);
      MapHead(h, t);
      MapHead(f, Map(g, t));
      VarsOfChildren(t);
      SizeOfChildren(t);
      forall i | 0 <= i < |Children(t)| ensures Map(f, Map(g, Children(t)[i])) == Map(h, Children(t)[i]) {
        SizeOfOne(Children(t), i);
        MapTwice(f, g, h, Children(t)[i]);
      }
      assert Children(Map(f, Map(g, t))) == Children(Map(h, t));
      SameHeadChildren(Map(f, Map(g, t)), Map(h, t));
    }
  }

  /** The variables of a mapped type. */
  lemma {:induction false} VarsOfMap(f: string -> Type, t: Type, v: string)
    ensures v in Vars(Map(f, t)) <==> exists w :: w in Vars(t) && v in Vars(f(w))
    decreases Size(t)
  {
    if !t.TypeVar? {
      MapHead(f, t);
      VarsOfChildren(t);
      VarsOfChildren(Map(f, t));
      SizeOfChildren(t);
      forall i | 0 <= i < |Children(t)|
        ensures v in Vars(Map(f, Children(t)[i])) <==> exists w :: w in Vars(Children(t)[i]) && v in Vars(f(w))
      {
        SizeOfOne(Children(t), i);
        VarsOfMap(f, Children(t)[i], v);
      }
    }
  }

  /** The image of a type is at least as large as the image of each of its variables, and larger
      unless the type is that variable. */
  lemma {:induction false} SizeOfMap(f: string -> Type, t: Type, v: string)
    requires v in Vars(t)
    ensures Size(Map(f, t)) >= Size(f(v)) && (t != TypeVar(v) ==> Size(Map(f, t)) > Size(f(v)))
    decreases Size(t)
  {
    if !t.TypeVar? {
      MapHead(f, t);
      VarsOfChildren(t);
      SizeOfChildren(t);
      SizeOfChildren(Map(f, t));
      var i :| 0 <= i < |Children(t)| && v in Vars(Children(t)[i]);
      SizeOfOne(Children(t), i);
      SizeOfMap(f, Children(t)[i], v);
      SizeOfOne(Children(Map(f, t)), i);
    }
  }

  // ----- substitutions -----

  type Subst = map<string, Type>

  /** A substitution as an assignment; variables it does not bind stand for themselves. */
  function Fn(s: Subst): string -> Type { v => if v in s then s[v] else TypeVar(v) }

  function Apply(s: Subst, t: Type): Type { Map(Fn(s), t) }

  /** Substituting type arguments is applying them as a substitution. */
  lemma {:induction false} SubstitutionIsApply(m: Subst, t: Type)
    ensures SubstituteTypeVars(m, t) == Apply(m, t)
    decreases t
  {
    match t
    case Array(b, _) => SubstitutionIsApply(m, b);
    case Tuple(items) => SubstitutionsAreApply(m, items);
    case Function(ps, v) => SubstitutionsAreApply(m, ps); SubstitutionIsApply(m, v);
    case NamedType(_, Args(args)) => SubstitutionsAreApply(m, args);
    case _ =>
  }

  lemma {:induction false} SubstitutionsAreApply(m: Subst, ts: seq<Type>)
    ensures SubstituteAll(m, ts) == MapAll(Fn(m), ts)
    decreases ts
  {
    if ts != [] {
      SubstitutionIsApply(m, ts[0]);
      SubstitutionsAreApply(m, ts[1..]);
    }
  }

  /** No bound variable occurs in a type that a variable resolves to. */
  predicate Idempotent(s: Subst) { forall v :: v in s ==> Vars(s[v]) !! s.Keys }

  /** All variables involved are in the universe `u`. */
  predicate Inside(s: Subst, u: set<string>) { s.Keys <= u && forall v :: v in s ==> Vars(s[v]) <= u }

  /** No bound variable occurs in `t`. */
  predicate Resolved(s: Subst, t: Type) { Vars(t) !! s.Keys }

  lemma ApplyResolves(s: Subst, u: set<string>, t: Type)
    requires Idempotent(s)
    ensures Resolved(s, Apply(s, t))
    ensures Inside(s, u) && Vars(t) <= u ==> Vars(Apply(s, t)) <= u
  {
    forall v | v in Vars(Apply(s, t)) ensures v !in s && (Inside(s, u) && Vars(t) <= u ==> v in u) {
      VarsOfMap(Fn(s), t, v);
    }
  }

  lemma {:induction false} MapIdentity(f: string -> Type, t: Type)
    requires forall v :: v in Vars(t) ==> f(v) == TypeVar(v)
    ensures Map(f, t) == t
    decreases Size(t)
  {
    if !t.TypeVar? {
      MapHead(f, t);
      VarsOfChildren(t);
      SizeOfChildren(t);
      forall i | 0 <= i < |Children(t)| ensures Map(f, Children(t)[i]) == Children(t)[i] {
        SizeOfOne(Children(t), i);
        MapIdentity(f, Children(t)[i]);
      }
      SameHeadChildren(t, Map(f, t));
    }
  }

  lemma ApplyResolved(s: Subst, t: Type)
    requires Resolved(s, t)
    ensures Apply(s, t) == t
  {
    MapIdentity(Fn(s), t);
  }

  /** The substitution after binding `v` to `t`. */
  function Extend(s: Subst, v: string, t: Type): Subst {
    (map w | w in s :: Apply(map[v := t], s[w]))[v := t]
  }

  lemma ReplacedVars(v: string, t: Type, x: Type, w: string)
    requires w in Vars(Apply(map[v := t], x))
    ensures w in Vars(t) || (w in Vars(x) && w != v)
  {
    VarsOfMap(Fn(map[v := t]), x, w);
  }

  lemma ExtendIdempotent(s: Subst, v: string, t: Type)
    requires Idempotent(s) && v !in s && Resolved(s, t) && v !in Vars(t)
    ensures Idempotent(Extend(s, v, t)) && Extend(s, v, t).Keys == s.Keys + {v}
  {
    var s' := Extend(s, v, t);
    assert s'.Keys == s.Keys + {v};
    forall w | w in s' ensures Vars(s'[w]) !! s'.Keys {
      if w != v {
        forall x | x in Vars(s'[w]) ensures x !in s'.Keys { ReplacedVars(v, t, s[w], x); }
      }
    }
  }

  lemma ExtendInside(s: Subst, v: string, t: Type, u: set<string>)
    requires Inside(s, u) && v in u && Vars(t) <= u
    ensures Inside(Extend(s, v, t), u)
  {
    var s' := Extend(s, v, t);
    forall w | w in s' ensures Vars(s'[w]) <= u {
      if w != v {
        forall x | x in Vars(s'[w]) ensures x in u { ReplacedVars(v, t, s[w], x); }
      }
    }
  }

  /** Applying the extended substitution is applying the old one and then replacing `v`. */
  lemma ApplyExtend(s: Subst, v: string, t: Type, x: Type)
    requires v !in s
    ensures Apply(Extend(s, v, t), x) == Apply(map[v := t], Apply(s, x))
  {
    var f := Fn(map[v := t]);
    forall w | w in Vars(x) ensures Fn(Extend(s, v, t))(w) == Map(f, Fn(s)(w)) { }
    MapTwice(f, Fn(s), Fn(Extend(s, v, t)), x);
  }

  // ----- trait bounds -----

  type Bounds = set<(string, string)>

  function ElementaryBounds(t: Type): set<string>
    requires !t.TypeVar? && !t.NamedType?
  {
    match t
    case Bool => {"ToString"}
    case Int => {"ToString", "FromLiteral", "Add", "Sub", "Neg", "Mul", "Mod", "Pow", "Ord", "Eq"}
    case Fe => {"ToString", "FromLiteral", "Add", "Sub", "Neg", "Mul", "Pow", "Eq"}
    case String => {"ToString", "Add", "Eq"}
    case Expression => {"ToString", "FromLiteral", "Add", "Sub", "Neg", "Mul", "Pow", "Eq"}
    case Array(b, _) => if b.Expression? then {"Add", "ToSelectedExprs"} else {"Add"}
    case _ => {}
  }

  /** The bounds on type variables under which `t` satisfies the trait `b`, or nothing if it cannot. */
  function Required(t: Type, b: string): Option<Bounds>
    decreases t
  {
    match t
    case TypeVar(n) => Some({(n, b)})
    case Array(base, _) =>
      if b == "ToString" then Required(base, b)
      else if b in ElementaryBounds(t) then Some({}) else None
    case Tuple(items) =>
      if b == "ToString" then RequiredAll(items, b)
      else if b in ElementaryBounds(t) then Some({}) else None
    case NamedType(n, _) => if b == "ToSelectedExprs" && n == "std::prelude::SelectedExprs" then Some({}) else None
    case _ => if b in ElementaryBounds(t) then Some({}) else None
  }

  function RequiredAll(ts: seq<Type>, b: string): Option<Bounds>
    decreases ts
  {
    if ts == [] then Some({})
    else
      var h := Required(ts[0], b);
      var t := RequiredAll(ts[1..], b);
      if h.None? || t.None? then None else Some(h.value + t.value)
  }

  /** Under the bounds `bs` on its variables, `t` satisfies the trait `b`. */
  predicate Satisfies(bs: Bounds, t: Type, b: string) { Required(t, b).Some? && Required(t, b).value <= bs }

  // ----- unification -----

  datatype State = State(subst: Subst, bounds: Bounds)

  datatype Result = Unified(st: State) | Failed

  function BoundsOf(bs: Bounds, v: string): set<string> { set x | x in bs && x.0 == v :: x.1 }

  function AllRequired(t: Type, bs: set<string>): Bounds
  {
    set b, x | b in bs && Required(t, b).Some? && x in Required(t, b).value :: x
  }

  /** Binds `v` to `t`, which must not contain it and must satisfy its bounds. */
  function Bind(st: State, v: string, t: Type): Result {
    if v in Vars(t) then Failed
    else if exists b :: b in BoundsOf(st.bounds, v) && Required(t, b).None? then Failed
    else Unified(State(Extend(st.subst, v, t), st.bounds + AllRequired(t, BoundsOf(st.bounds, v))))
  }

  /** Both types are built alike; named types are compared by name only. */
  predicate Compatible(a: Type, b: Type) {
    || (a.Function? && b.Function? && |a.params| == |b.params|)
    || (a.Array? && b.Array? && a.length == b.length)
    || (a.Tuple? && b.Tuple? && |a.items| == |b.items|)
    || (a.NamedType? && b.NamedType? && a.path == b.path && a.args.Args? && b.args.Args? && a.args.types != [] && b.args.types != [])
  }

  ghost predicate Good(st: State, u: set<string>) { Idempotent(st.subst) && Inside(st.subst, u) }

  /** The state only gains bindings. */
  ghost predicate Grows(st: State, r: Result, u: set<string>) {
    r.Unified? ==> Good(r.st, u) && (r.st.subst == st.subst || st.subst.Keys < r.st.subst.Keys)
  }

  function Unify(st: State, x: Type, y: Type, ghost u: set<string>): (r: Result)
    requires Good(st, u) && Vars(x) <= u && Vars(y) <= u
    ensures Grows(st, r, u)
    decreases |u - st.subst.Keys|, Size(Apply(st.subst, x)), 0
  {
    var a, b := Apply(st.subst, x), Apply(st.subst, y);
    ApplyResolves(st.subst, u, x);
    ApplyResolves(st.subst, u, y);
    if a == b then Unified(st)
    else if a.Bottom? || b.Bottom? then Unified(st)
    else if a.TypeVar? then BindGood(st, a.name, b, u); Bind(st, a.name, b)
    else if b.TypeVar? then BindGood(st, b.name, a, u); Bind(st, b.name, a)
    else if Compatible(a, b) then
      VarsOfChildren(a);
      VarsOfChildren(b);
      SizeOfChildren(a);
      ResolvedChildren(st.subst, a);
      UnifyAll(st, Children(a), Children(b), u)
    else Failed
  }

  /** Unifies types pairwise, up to the end of the shorter list. */
  function UnifyAll(st: State, xs: seq<Type>, ys: seq<Type>, ghost u: set<string>): (r: Result)
    requires Good(st, u) && VarsAll(xs) <= u && VarsAll(ys) <= u
    ensures Grows(st, r, u)
    decreases |u - st.subst.Keys|, SizeAll(MapAll(Fn(st.subst), xs)), 1
  {
    if xs == [] || ys == [] then Unified(st)
    else
      HeadFits(st, xs, ys, u);
      var h := Unify(st, xs[0], ys[0], u);
      if h.Failed? then Failed
      else
        TailFits(st, h.st, xs, u);
        var r := UnifyAll(h.st, xs[1..], ys[1..], u);
        GrowsTwice(st, h.st, r, u);
        r
  }

  lemma GrowsTwice(st: State, st': State, r: Result, u: set<string>)
    requires (st'.subst == st.subst || st.subst.Keys < st'.subst.Keys) && Grows(st', r, u)
    ensures Grows(st, r, u)
  {
  }

  lemma HeadFits(st: State, xs: seq<Type>, ys: seq<Type>, u: set<string>)
    requires VarsAll(xs) <= u && VarsAll(ys) <= u && xs != [] && ys != []
    ensures Vars(xs[0]) <= u && Vars(ys[0]) <= u && VarsAll(xs[1..]) <= u && VarsAll(ys[1..]) <= u
    ensures Size(Apply(st.subst, xs[0])) <= SizeAll(MapAll(Fn(st.subst), xs))
  {
    MapAllTail(st.subst, xs);
    MapAllTail(st.subst, ys);
  }

  lemma TailFits(st: State, st': State, xs: seq<Type>, u: set<string>)
    requires Good(st, u) && Good(st', u) && (st'.subst == st.subst || st.subst.Keys < st'.subst.Keys) && xs != []
    ensures Smaller(st, xs, st', u)
  {
    MapAllTail(st.subst, xs);
    FewerUnbound(st, st', u);
  }

  /** One step of pairwise unification, with what its recursive calls need. */
  lemma UnifyAllStep(st: State, xs: seq<Type>, ys: seq<Type>, u: set<string>)
    requires Good(st, u) && VarsAll(xs) <= u && VarsAll(ys) <= u && xs != [] && ys != []
    ensures Vars(xs[0]) <= u && Vars(ys[0]) <= u && VarsAll(xs[1..]) <= u && VarsAll(ys[1..]) <= u
    ensures Size(Apply(st.subst, xs[0])) <= SizeAll(MapAll(Fn(st.subst), xs))
    ensures var h := Unify(st, xs[0], ys[0], u);
            if h.Failed? then UnifyAll(st, xs, ys, u) == Failed
            else Good(h.st, u) && UnifyAll(st, xs, ys, u) == UnifyAll(h.st, xs[1..], ys[1..], u) && Smaller(st, xs, h.st, u)
  {
    HeadFits(st, xs, ys, u);
    var h := Unify(st, xs[0], ys[0], u);
    if h.Unified? { TailFits(st, h.st, xs, u); }
  }

  /** Unifying the rest of the list is a smaller problem. */
  ghost predicate Smaller(st: State, xs: seq<Type>, st': State, u: set<string>) {
    xs != [] &&
    (|u - st'.subst.Keys| < |u - st.subst.Keys|
     || (st'.subst == st.subst && SizeAll(MapAll(Fn(st'.subst), xs[1..])) < SizeAll(MapAll(Fn(st.subst), xs))))
  }

  lemma MapAllTail(s: Subst, xs: seq<Type>)
    requires xs != []
    ensures SizeAll(MapAll(Fn(s), xs)) == Size(Apply(s, xs[0])) + SizeAll(MapAll(Fn(s), xs[1..])) && Size(Apply(s, xs[0])) > 0
    ensures VarsAll(xs) == Vars(xs[0]) + VarsAll(xs[1..])
  {
    assert MapAll(Fn(s), xs)[1..] == MapAll(Fn(s), xs[1..]);
    SizeOfChildren(Apply(s, xs[0]));
  }

  lemma FewerUnbound(st: State, st': State, u: set<string>)
    requires Good(st, u) && Good(st', u) && (st'.subst == st.subst || st.subst.Keys < st'.subst.Keys)
    ensures st'.subst == st.subst || |u - st'.subst.Keys| < |u - st.subst.Keys|
  {
    if st'.subst != st.subst {
      var v :| v in st'.subst.Keys && v !in st.subst.Keys;
      assert u - st'.subst.Keys <= (u - st.subst.Keys) - {v};
      SubsetSize(u - st'.subst.Keys, (u - st.subst.Keys) - {v});
    }
  }

  lemma {:induction false} SubsetSize(a: set<string>, b: set<string>)
    requires a <= b
    ensures |a| <= |b|
    decreases |a|
  {
    if a != {} {
      var x :| x in a;
      SubsetSize(a - {x}, b - {x});
    }
  }

  lemma ResolvedChildren(s: Subst, t: Type)
    requires Resolved(s, t) && !t.TypeVar?
    ensures MapAll(Fn(s), Children(t)) == Children(t)
  {
    VarsOfChildren(t);
    forall i | 0 <= i < |Children(t)| ensures Map(Fn(s), Children(t)[i]) == Children(t)[i] { ApplyResolved(s, Children(t)[i]); }
  }

  lemma BindGood(st: State, v: string, t: Type, u: set<string>)
    requires Good(st, u) && v in u && v !in st.subst && Resolved(st.subst, t) && Vars(t) <= u
    ensures Grows(st, Bind(st, v, t), u)
  {
    if v !in Vars(t) {
      ExtendIdempotent(st.subst, v, t);
      ExtendInside(st.subst, v, t, u);
    }
  }
}
