/** Unification is sound up to the bottom type and the ends of argument lists, most general, and keeps
    the recorded trait bounds. */
module UnifierTheorems {
  import opened Options
  import opened Types
  import opened Unification

  // ----- properties of all sub-types -----

  /** `p` holds of `t` and of all types inside it. */
  ghost predicate All(p: Type -> bool, t: Type)
    decreases t
  {
    p(t) && forall c :: c in Children(t) ==> All(p, c)
  }

  ghost predicate AllIn(p: Type -> bool, s: Subst) { forall v :: v in s ==> All(p, s[v]) }

  /** `p` depends only on the constructor and the number of sub-types, and admits type variables. */
  ghost predicate HeadOnly(p: Type -> bool) {
    (forall a, b {:trigger SameHead(a, b)} :: SameHead(a, b) && p(a) ==> p(b)) && forall v :: p(TypeVar(v))
  }

  lemma {:induction false} AllMap(p: Type -> bool, f: string -> Type, t: Type)
    requires HeadOnly(p) && All(p, t) && forall v :: v in Vars(t) ==> All(p, f(v))
    ensures All(p, Map(f, t))
    decreases Size(t)
  {
    if !t.TypeVar? {
      MapHead(f, t);
      VarsOfChildren(t);
      SizeOfChildren(t);
      forall c | c in Children(Map(f, t)) ensures All(p, c) {
        var i :| 0 <= i < |Children(t)| && c == Map(f, Children(t)[i]);
        SizeOfOne(Children(t), i);
        AllMap(p, f, Children(t)[i]);
      }
    }
  }

  lemma AllApply(p: Type -> bool, s: Subst, t: Type)
    requires HeadOnly(p) && AllIn(p, s) && All(p, t)
    ensures All(p, Apply(s, t))
  {
    forall v | v in Vars(t) ensures All(p, Fn(s)(v)) { if v !in s { assert p(TypeVar(v)); } }
    AllMap(p, Fn(s), t);
  }

  lemma AllExtend(p: Type -> bool, s: Subst, v: string, t: Type)
    requires HeadOnly(p) && AllIn(p, s) && All(p, t)
    ensures AllIn(p, Extend(s, v, t))
  {
    var one: Subst := map[v := t];
    forall w | w in Extend(s, v, t) ensures All(p, Extend(s, v, t)[w]) {
      if w != v { AllApply(p, one, s[w]); }
    }
  }

  /** Every named type has as many arguments as its declaration has type parameters. */
  function Kinded(arity: string -> nat): Type -> bool {
    (t: Type) => t.NamedType? ==> if t.args.NoArgs? then arity(t.path) == 0 else |t.args.types| == arity(t.path) > 0
  }

  function BottomFree(): Type -> bool { (t: Type) => !t.Bottom? }

  lemma KindedHeadOnly(arity: string -> nat)
    ensures HeadOnly(Kinded(arity))
  {
  }

  lemma BottomFreeHeadOnly()
    ensures HeadOnly(BottomFree())
  {
  }

  // ----- solutions -----

  /** The assignment `f` satisfies every equation of the substitution. */
  ghost predicate Solves(f: string -> Type, s: Subst) { forall v :: v in s ==> f(v) == Map(f, s[v]) }

  lemma SolvesApply(f: string -> Type, s: Subst, t: Type)
    requires Solves(f, s)
    ensures Map(f, Apply(s, t)) == Map(f, t)
  {
    forall v | v in Vars(t) ensures f(v) == Map(f, Fn(s)(v)) { }
    MapTwice(f, Fn(s), f, t);
  }

  lemma SolvesExtend(f: string -> Type, s: Subst, v: string, t: Type)
    requires v !in s
    ensures Solves(f, Extend(s, v, t)) <==> Solves(f, s) && f(v) == Map(f, t)
  {
    var s' := Extend(s, v, t);
    var one: Subst := map[v := t];
    if f(v) == Map(f, t) {
      forall w | w in s ensures Map(f, s'[w]) == Map(f, s[w]) { SolvesApply(f, one, s[w]); }
    } else {
      assert s'[v] == t;
    }
    assert forall w :: w in s ==> w in s';
  }

  /** A substitution solves itself. */
  lemma SolvesItself(s: Subst)
    requires Idempotent(s)
    ensures Solves(Fn(s), s)
  {
    forall v | v in s ensures Fn(s)(v) == Map(Fn(s), s[v]) { ApplyResolved(s, s[v]); }
  }

  // ----- agreement up to the bottom type -----

  /** Equal types, except where one of them is the bottom type. */
  predicate Agree(a: Type, b: Type)
    decreases a
  {
    || a.Bottom? || b.Bottom?
    || (SameHead(a, b) && |Children(a)| == |Children(b)| && forall i :: 0 <= i < |Children(a)| ==> Agree(Children(a)[i], Children(b)[i]))
  }

  lemma {:induction false} AgreeReflexive(a: Type)
    ensures Agree(a, a)
    decreases a
  {
    forall i | 0 <= i < |Children(a)| ensures Agree(Children(a)[i], Children(a)[i]) { AgreeReflexive(Children(a)[i]); }
  }

  /** Without the bottom type, types that agree are equal. */
  lemma {:induction false} AgreeExact(a: Type, b: Type)
    requires Agree(a, b) && All(BottomFree(), a) && All(BottomFree(), b)
    ensures a == b
    decreases a
  {
    assert BottomFree()(a) && BottomFree()(b);
    forall i | 0 <= i < |Children(a)| ensures Children(a)[i] == Children(b)[i] { AgreeExact(Children(a)[i], Children(b)[i]); }
    SameHeadChildren(a, b);
  }

  /** As `Agree`, but corresponding lists of sub-types are compared only up to the end of the shorter
      one. */
  predicate Truncated(a: Type, b: Type)
    decreases a
  {
    || a.Bottom? || b.Bottom? || a == b
    || (Compatible(a, b) && forall i :: 0 <= i < |Children(a)| && i < |Children(b)| ==> Truncated(Children(a)[i], Children(b)[i]))
  }

  /** Corresponding lists of type arguments have equal length. */
  predicate EqualLengths(a: Type, b: Type)
    decreases a
  {
    && (a.NamedType? && b.NamedType? ==> |Children(a)| == |Children(b)|)
    && forall i :: 0 <= i < |Children(a)| && i < |Children(b)| ==> EqualLengths(Children(a)[i], Children(b)[i])
  }

  lemma {:induction false} TruncatedSymmetric(a: Type, b: Type)
    requires Truncated(a, b)
    ensures Truncated(b, a)
    decreases a
  {
    if !a.Bottom? && !b.Bottom? && a != b {
      forall i | 0 <= i < |Children(b)| && i < |Children(a)| ensures Truncated(Children(b)[i], Children(a)[i]) {
        TruncatedSymmetric(Children(a)[i], Children(b)[i]);
      }
    }
  }

  /** Truncation is all that separates the two notions. */
  lemma {:induction false} AgreeIff(a: Type, b: Type)
    ensures Agree(a, b) <==> Truncated(a, b) && EqualLengths(a, b)
  {
    if Agree(a, b) { AgreeLengths(a, b); }
    if Truncated(a, b) && EqualLengths(a, b) { TruncatedAgree(a, b); }
  }

  lemma {:induction false} AgreeLengths(a: Type, b: Type)
    requires Agree(a, b)
    ensures Truncated(a, b) && EqualLengths(a, b)
    decreases a
  {
    if !a.Bottom? && !b.Bottom? {
      forall i | 0 <= i < |Children(a)| ensures Truncated(Children(a)[i], Children(b)[i]) && EqualLengths(Children(a)[i], Children(b)[i]) {
        AgreeLengths(Children(a)[i], Children(b)[i]);
      }
      if a != b { HeadsCompatible(a, b); }
    }
  }

  lemma {:induction false} TruncatedAgree(a: Type, b: Type)
    requires Truncated(a, b) && EqualLengths(a, b)
    ensures Agree(a, b)
    decreases a
  {
    if a == b {
      AgreeReflexive(a);
    } else if !a.Bottom? && !b.Bottom? {
      CompatibleHeads(a, b);
      forall i | 0 <= i < |Children(a)| ensures Agree(Children(a)[i], Children(b)[i]) { TruncatedAgree(Children(a)[i], Children(b)[i]); }
    }
  }

  lemma HeadsCompatible(a: Type, b: Type)
    requires SameHead(a, b) && a != b
    ensures Compatible(a, b)
  {
  }

  lemma CompatibleHeads(a: Type, b: Type)
    requires Compatible(a, b) && (a.NamedType? ==> |Children(a)| == |Children(b)|)
    ensures SameHead(a, b) && |Children(a)| == |Children(b)|
  {
  }

  /** Types with the declared numbers of arguments have equally long argument lists. */
  lemma {:induction false} KindedLengths(arity: string -> nat, a: Type, b: Type)
    requires All(Kinded(arity), a) && All(Kinded(arity), b) && Truncated(a, b)
    ensures EqualLengths(a, b)
    decreases a
  {
    assert Kinded(arity)(a) && Kinded(arity)(b);
    if a == b {
      SameLengths(a);
    } else {
      forall i | 0 <= i < |Children(a)| && i < |Children(b)| ensures EqualLengths(Children(a)[i], Children(b)[i]) {
        KindedLengths(arity, Children(a)[i], Children(b)[i]);
      }
    }
  }

  lemma {:induction false} SameLengths(a: Type)
    ensures EqualLengths(a, a)
    decreases a
  {
    forall i | 0 <= i < |Children(a)| ensures EqualLengths(Children(a)[i], Children(a)[i]) { SameLengths(Children(a)[i]); }
  }

  /** So have types with a common instance. */
  lemma {:induction false} InstanceLengths(f: string -> Type, a: Type, b: Type)
    requires Map(f, a) == Map(f, b) && Truncated(a, b) && All(BottomFree(), a) && All(BottomFree(), b)
    ensures EqualLengths(a, b)
    decreases a
  {
    assert BottomFree()(a) && BottomFree()(b);
    if a == b {
      SameLengths(a);
    } else {
      InstanceChildren(f, a, b);
      forall i | 0 <= i < |Children(a)| && i < |Children(b)| ensures EqualLengths(Children(a)[i], Children(b)[i]) {
        InstanceLengths(f, Children(a)[i], Children(b)[i]);
      }
    }
  }

  lemma {:induction false} InstanceChildren(f: string -> Type, a: Type, b: Type)
    requires Map(f, a) == Map(f, b) && Compatible(a, b)
    ensures |Children(a)| == |Children(b)|
    ensures forall i :: 0 <= i < |Children(a)| ==> Map(f, Children(a)[i]) == Map(f, Children(b)[i])
  {
    MapHead(f, a);
    MapHead(f, b);
    SameHeadChildren(a, Map(f, a));
    SameHeadChildren(b, Map(f, b));
    forall i | 0 <= i < |Children(a)| ensures Map(f, Children(a)[i]) == Map(f, Children(b)[i]) {
      assert MapAll(f, Children(a))[i] == MapAll(f, Children(b))[i];
    }
  }

  // ----- soundness -----

  /** Every solution of the result solves the given state and makes the two types agree, up to
      truncation. */
  ghost predicate Sound(f: string -> Type, st: State, r: Result, x: Type, y: Type) {
    r.Unified? && Solves(f, r.st.subst) ==> Solves(f, st.subst) && Truncated(Map(f, x), Map(f, y))
  }

  lemma BindSound(f: string -> Type, st: State, v: string, t: Type)
    requires v !in st.subst
    ensures Sound(f, st, Bind(st, v, t), TypeVar(v), t)
  {
    SolvesExtend(f, st.subst, v, t);
  }

  lemma {:induction false} UnifySound(f: string -> Type, st: State, x: Type, y: Type, u: set<string>)
    requires Good(st, u) && Vars(x) <= u && Vars(y) <= u
    ensures Sound(f, st, Unify(st, x, y, u), x, y)
    decreases |u - st.subst.Keys|, Size(Apply(st.subst, x)), 0
  {
    var a, b := Apply(st.subst, x), Apply(st.subst, y);
    ApplyResolves(st.subst, u, x);
    ApplyResolves(st.subst, u, y);
    if a == b || a.Bottom? || b.Bottom? {
      EqualSound(f, st, x, y);
    } else if a.TypeVar? {
      BindGood(st, a.name, b, u);
      BindSound(f, st, a.name, b);
      LiftSound(f, st, Bind(st, a.name, b), x, y, a, b);
    } else if b.TypeVar? {
      BindGood(st, b.name, a, u);
      BindSound(f, st, b.name, a);
      FlipSound(f, st, Bind(st, b.name, a), b, a);
      LiftSound(f, st, Bind(st, b.name, a), x, y, a, b);
    } else if Compatible(a, b) {
      VarsOfChildren(a);
      VarsOfChildren(b);
      SizeOfChildren(a);
      ResolvedChildren(st.subst, a);
      UnifyAllSound(f, st, Children(a), Children(b), u);
      NodeSound(f, st, UnifyAll(st, Children(a), Children(b), u), a, b);
      LiftSound(f, st, UnifyAll(st, Children(a), Children(b), u), x, y, a, b);
    }
  }

  predicate TruncatedAll(xs: seq<Type>, ys: seq<Type>) {
    forall i :: 0 <= i < |xs| && i < |ys| ==> Truncated(xs[i], ys[i])
  }

  ghost predicate SoundAll(f: string -> Type, st: State, r: Result, xs: seq<Type>, ys: seq<Type>) {
    r.Unified? && Solves(f, r.st.subst) ==> Solves(f, st.subst) && TruncatedAll(MapAll(f, xs), MapAll(f, ys))
  }

  lemma EqualSound(f: string -> Type, st: State, x: Type, y: Type)
    requires var a, b := Apply(st.subst, x), Apply(st.subst, y); a == b || a.Bottom? || b.Bottom?
    ensures Sound(f, st, Unified(st), x, y)
  {
    if Solves(f, st.subst) {
      SolvesApply(f, st.subst, x);
      SolvesApply(f, st.subst, y);
    }
  }

  /** What holds of the substituted types holds of the types. */
  lemma LiftSound(f: string -> Type, st: State, r: Result, x: Type, y: Type, a: Type, b: Type)
    requires a == Apply(st.subst, x) && b == Apply(st.subst, y) && Sound(f, st, r, a, b)
    ensures Sound(f, st, r, x, y)
  {
    if r.Unified? && Solves(f, r.st.subst) {
      SolvesApply(f, st.subst, x);
      SolvesApply(f, st.subst, y);
    }
  }

  lemma FlipSound(f: string -> Type, st: State, r: Result, a: Type, b: Type)
    requires Sound(f, st, r, a, b)
    ensures Sound(f, st, r, b, a)
  {
    if r.Unified? && Solves(f, r.st.subst) { TruncatedSymmetric(Map(f, a), Map(f, b)); }
  }

  lemma NodeSound(f: string -> Type, st: State, r: Result, a: Type, b: Type)
    requires Compatible(a, b) && SoundAll(f, st, r, Children(a), Children(b))
    ensures Sound(f, st, r, a, b)
  {
    if r.Unified? && Solves(f, r.st.subst) {
      MapHead(f, a);
      MapHead(f, b);
      assert Compatible(Map(f, a), Map(f, b));
    }
  }

  lemma {:induction false} UnifyAllSound(f: string -> Type, st: State, xs: seq<Type>, ys: seq<Type>, u: set<string>)
    requires Good(st, u) && VarsAll(xs) <= u && VarsAll(ys) <= u
    ensures SoundAll(f, st, UnifyAll(st, xs, ys, u), xs, ys)
    decreases |u - st.subst.Keys|, SizeAll(MapAll(Fn(st.subst), xs)), 1
  {
    if xs != [] && ys != [] {
      UnifyAllStep(st, xs, ys, u);
      UnifySound(f, st, xs[0], ys[0], u);
      var h := Unify(st, xs[0], ys[0], u);
      if h.Unified? {
        UnifyAllSound(f, h.st, xs[1..], ys[1..], u);
        ConsSound(f, st, h, UnifyAll(h.st, xs[1..], ys[1..], u), xs, ys);
      }
    }
  }

  lemma ConsSound(f: string -> Type, st: State, h: Result, r: Result, xs: seq<Type>, ys: seq<Type>)
    requires xs != [] && ys != [] && h.Unified?
    requires Sound(f, st, h, xs[0], ys[0]) && SoundAll(f, h.st, r, xs[1..], ys[1..])
    ensures SoundAll(f, st, r, xs, ys)
  {
    if r.Unified? && Solves(f, r.st.subst) {
      forall i | 0 <= i < |xs| && i < |ys| ensures Truncated(MapAll(f, xs)[i], MapAll(f, ys)[i]) {
        if i > 0 { assert Truncated(MapAll(f, xs[1..])[i - 1], MapAll(f, ys[1..])[i - 1]); }
      }
    }
  }

  /** Unification builds its substitution from the sub-types it is given. */
  lemma {:induction false} UnifyKeepsAll(p: Type -> bool, st: State, x: Type, y: Type, u: set<string>)
    requires Good(st, u) && Vars(x) <= u && Vars(y) <= u && HeadOnly(p) && AllIn(p, st.subst) && All(p, x) && All(p, y)
    ensures Unify(st, x, y, u).Unified? ==> AllIn(p, Unify(st, x, y, u).st.subst)
    decreases |u - st.subst.Keys|, Size(Apply(st.subst, x)), 0
  {
    var a, b := Apply(st.subst, x), Apply(st.subst, y);
    ApplyResolves(st.subst, u, x);
    ApplyResolves(st.subst, u, y);
    AllApply(p, st.subst, x);
    AllApply(p, st.subst, y);
    if a == b || a.Bottom? || b.Bottom? {
    } else if a.TypeVar? {
      AllExtend(p, st.subst, a.name, b);
    } else if b.TypeVar? {
      AllExtend(p, st.subst, b.name, a);
    } else if Compatible(a, b) {
      VarsOfChildren(a);
      VarsOfChildren(b);
      SizeOfChildren(a);
      ResolvedChildren(st.subst, a);
      UnifyAllKeepsAll(p, st, Children(a), Children(b), u);
    }
  }

  lemma {:induction false} UnifyAllKeepsAll(p: Type -> bool, st: State, xs: seq<Type>, ys: seq<Type>, u: set<string>)
    requires Good(st, u) && VarsAll(xs) <= u && VarsAll(ys) <= u && HeadOnly(p) && AllIn(p, st.subst)
    requires (forall t :: t in xs ==> All(p, t)) && forall t :: t in ys ==> All(p, t)
    ensures UnifyAll(st, xs, ys, u).Unified? ==> AllIn(p, UnifyAll(st, xs, ys, u).st.subst)
    decreases |u - st.subst.Keys|, SizeAll(MapAll(Fn(st.subst), xs)), 1
  {
    if xs != [] && ys != [] {
      UnifyAllStep(st, xs, ys, u);
      UnifyKeepsAll(p, st, xs[0], ys[0], u);
      var h := Unify(st, xs[0], ys[0], u);
      if h.Unified? { UnifyAllKeepsAll(p, h.st, xs[1..], ys[1..], u); }
    }
  }

  // ----- trait bounds under assignments -----

  /** If the variables of `t` satisfy what `t` requires of them, the mapped type satisfies the trait. */
  lemma {:induction false} RequiredMap(f: string -> Type, t: Type, b: string, bs: Bounds)
    requires Required(t, b).Some? && forall x :: x in Required(t, b).value ==> Satisfies(bs, f(x.0), x.1)
    ensures Satisfies(bs, Map(f, t), b)
    decreases t
  {
    match t
    case TypeVar(n) => assert (n, b) in Required(t, b).value;
    case Array(base, _) => if b == "ToString" { RequiredMap(f, base, b, bs); }
    case Tuple(items) => if b == "ToString" { RequiredMapAll(f, items, b, bs); }
    case _ =>
  }

  lemma {:induction false} RequiredMapAll(f: string -> Type, ts: seq<Type>, b: string, bs: Bounds)
    requires RequiredAll(ts, b).Some? && forall x :: x in RequiredAll(ts, b).value ==> Satisfies(bs, f(x.0), x.1)
    ensures RequiredAll(MapAll(f, ts), b).Some? && RequiredAll(MapAll(f, ts), b).value <= bs
    decreases ts
  {
    if ts != [] {
      RequiredMap(f, ts[0], b, bs);
      RequiredMapAll(f, ts[1..], b, bs);
      assert MapAll(f, ts)[1..] == MapAll(f, ts[1..]);
    }
  }

  /** The bound that only arrays of expressions have is asked of an array whose element type is not
      known yet. */
  predicate Undecided(t: Type, b: string) { b == "ToSelectedExprs" && t.Array? && t.base.TypeVar? }

  /** This is the only case in which replacing variables can make a type satisfy a trait. */
  lemma {:induction false} RequiredBack(f: string -> Type, t: Type, b: string)
    requires !Undecided(t, b) && Required(Map(f, t), b).Some?
    ensures Required(t, b).Some? && forall x :: x in Required(t, b).value ==> x.1 == b && Required(f(x.0), b).Some?
    decreases t
  {
    match t
    case Array(base, _) => if b == "ToString" { RequiredBack(f, base, b); }
    case Tuple(items) => if b == "ToString" { RequiredBackAll(f, items, b); }
    case _ =>
  }

  lemma {:induction false} RequiredBackAll(f: string -> Type, ts: seq<Type>, b: string)
    requires b != "ToSelectedExprs" && RequiredAll(MapAll(f, ts), b).Some?
    ensures RequiredAll(ts, b).Some? && forall x :: x in RequiredAll(ts, b).value ==> x.1 == b && Required(f(x.0), b).Some?
    decreases ts
  {
    if ts != [] {
      assert MapAll(f, ts)[1..] == MapAll(f, ts[1..]);
      RequiredBack(f, ts[0], b);
      RequiredBackAll(f, ts[1..], b);
    }
  }

  /** The types other than arrays, tuples and named types that satisfy each trait. */
  lemma TraitInstances(t: Type)
    requires !t.TypeVar? && !t.Array? && !t.Tuple? && !t.NamedType?
    ensures forall b :: Required(t, b).Some? ==> b in {"ToString", "FromLiteral", "Add", "Sub", "Neg", "Mul", "Mod", "Pow", "Ord", "Eq"}
    ensures Required(t, "ToString").Some? <==> t in {Bool, Int, Fe, String, Expression}
    ensures Required(t, "Add").Some? <==> t in {Int, Fe, String, Expression}
    ensures Required(t, "Eq").Some? <==> t in {Int, Fe, String, Expression}
    ensures forall b :: b in {"FromLiteral", "Sub", "Neg", "Mul", "Pow"} ==> (Required(t, b).Some? <==> t in {Int, Fe, Expression})
    ensures forall b :: b in {"Mod", "Ord"} ==> (Required(t, b).Some? <==> t == Int)
  {
  }

  /** Arrays add up, are printed if their items are, and can be selected if they hold expressions; tuples are
      only printed; of the named types only `SelectedExprs` satisfies a trait. */
  lemma StructuredInstances(t: Type, items: seq<Type>, length: Option<nat>, n: string, args: TypeArgs, b: string)
    ensures Required(NamedType(n, args), b).Some? <==> n == "std::prelude::SelectedExprs" && b == "ToSelectedExprs"
    ensures Required(Array(t, length), b).Some? <==> b == "Add" || (b == "ToString" && Required(t, b).Some?) || (b == "ToSelectedExprs" && t == Expression)
    ensures Required(Tuple(items), b).Some? <==> b == "ToString" && RequiredAll(items, b).Some?
  {
  }

  // ----- completeness -----

  /** The assignment gives every bounded variable a type that can satisfy the bound. */
  ghost predicate Respects(f: string -> Type, bs: Bounds) {
    forall x :: x in bs ==> Required(f(x.0), x.1).Some?
  }

  /** The binding fails because a bound is checked before the element type of an array is known. */
  predicate EagerBind(st: State, v: string, t: Type) {
    "ToSelectedExprs" in BoundsOf(st.bounds, v) && t.Array? && t.base.TypeVar?
  }

  /** Some binding of the run fails in this way. */
  ghost predicate Eager(st: State, x: Type, y: Type, u: set<string>)
    requires Good(st, u) && Vars(x) <= u && Vars(y) <= u
    decreases |u - st.subst.Keys|, Size(Apply(st.subst, x)), 0
  {
    var a, b := Apply(st.subst, x), Apply(st.subst, y);
    ApplyResolves(st.subst, u, x);
    ApplyResolves(st.subst, u, y);
    if a == b || a.Bottom? || b.Bottom? then false
    else if a.TypeVar? then EagerBind(st, a.name, b)
    else if b.TypeVar? then EagerBind(st, b.name, a)
    else if Compatible(a, b) then
      VarsOfChildren(a);
      VarsOfChildren(b);
      SizeOfChildren(a);
      ResolvedChildren(st.subst, a);
      EagerAll(st, Children(a), Children(b), u)
    else false
  }

  ghost predicate EagerAll(st: State, xs: seq<Type>, ys: seq<Type>, u: set<string>)
    requires Good(st, u) && VarsAll(xs) <= u && VarsAll(ys) <= u
    decreases |u - st.subst.Keys|, SizeAll(MapAll(Fn(st.subst), xs)), 1
  {
    if xs == [] || ys == [] then false
    else
      UnifyAllStep(st, xs, ys, u);
      var h := Unify(st, xs[0], ys[0], u);
      Eager(st, xs[0], ys[0], u) || (h.Unified? && EagerAll(h.st, xs[1..], ys[1..], u))
  }

  /** The assignment `f` solves the result; and if it respects the bounds, unification fails exactly if
      the run is eager, and otherwise `f` respects the bounds of the result. */
  ghost predicate Complete(f: string -> Type, st: State, r: Result, eager: bool) {
    && (r.Unified? ==> Solves(f, r.st.subst))
    && (Respects(f, st.bounds) ==> (r.Failed? <==> eager) && (r.Unified? ==> Respects(f, r.st.bounds)))
  }

  lemma OccursCheck(f: string -> Type, v: string, t: Type)
    requires v in Vars(t) && t != TypeVar(v)
    ensures f(v) != Map(f, t)
  {
    SizeOfMap(f, t, v);
  }

  lemma BindComplete(f: string -> Type, st: State, v: string, t: Type)
    requires v !in st.subst && t != TypeVar(v) && Solves(f, st.subst) && f(v) == Map(f, t)
    ensures Complete(f, st, Bind(st, v, t), EagerBind(st, v, t))
  {
    if v in Vars(t) { OccursCheck(f, v, t); }
    if Respects(f, st.bounds) && !EagerBind(st, v, t) { BindRespects(f, st, v, t); }
    SolvesExtend(f, st.subst, v, t);
  }

  lemma BindRespects(f: string -> Type, st: State, v: string, t: Type)
    requires v !in Vars(t) && f(v) == Map(f, t) && Respects(f, st.bounds) && !EagerBind(st, v, t)
    ensures Bind(st, v, t).Unified? && Respects(f, Bind(st, v, t).st.bounds)
  {
    forall b | b in BoundsOf(st.bounds, v)
      ensures Required(t, b).Some? && forall x :: x in Required(t, b).value ==> x.1 == b && Required(f(x.0), b).Some?
    {
      assert (v, b) in st.bounds && !Undecided(t, b);
      RequiredBack(f, t, b);
    }
  }

  /** Binding a variable to a type that has an instance satisfying its bounds fails exactly if it is
      eager. */
  lemma BindFailsIff(f: string -> Type, st: State, v: string, t: Type)
    requires v !in st.subst && t != TypeVar(v) && f(v) == Map(f, t) && forall b :: b in BoundsOf(st.bounds, v) ==> Required(f(v), b).Some?
    ensures Bind(st, v, t).Failed? <==> EagerBind(st, v, t)
  {
    if v in Vars(t) { OccursCheck(f, v, t); }
    if !EagerBind(st, v, t) {
      forall b | b in BoundsOf(st.bounds, v) ensures Required(t, b).Some? { RequiredBack(f, t, b); }
    } else {
      EagerBindFails(st, v, t);
    }
  }

  lemma HeadsTransitive(a: Type, b: Type, c: Type)
    requires SameHead(a, c) && SameHead(b, c)
    ensures SameHead(a, b)
  {
  }

  /** If an assignment solves the state and makes the types equal, it solves the result of unification;
      and if it also respects the bounds, unification succeeds unless its run is eager. */
  lemma {:induction false} UnifyComplete(f: string -> Type, st: State, x: Type, y: Type, u: set<string>)
    requires Good(st, u) && Vars(x) <= u && Vars(y) <= u && Solves(f, st.subst) && Map(f, x) == Map(f, y)
    ensures Complete(f, st, Unify(st, x, y, u), Eager(st, x, y, u))
    decreases |u - st.subst.Keys|, Size(Apply(st.subst, x)), 0
  {
    var a, b := Apply(st.subst, x), Apply(st.subst, y);
    ApplyResolves(st.subst, u, x);
    ApplyResolves(st.subst, u, y);
    SolvesApply(f, st.subst, x);
    SolvesApply(f, st.subst, y);
    if a == b || a.Bottom? || b.Bottom? {
    } else if a.TypeVar? {
      BindComplete(f, st, a.name, b);
    } else if b.TypeVar? {
      BindComplete(f, st, b.name, a);
    } else {
      MapHead(f, a);
      MapHead(f, b);
      HeadsTransitive(a, b, Map(f, a));
      HeadsCompatible(a, b);
      VarsOfChildren(a);
      VarsOfChildren(b);
      SizeOfChildren(a);
      ResolvedChildren(st.subst, a);
      UnifyAllComplete(f, st, Children(a), Children(b), u);
    }
  }

  lemma {:induction false} UnifyAllComplete(f: string -> Type, st: State, xs: seq<Type>, ys: seq<Type>, u: set<string>)
    requires Good(st, u) && VarsAll(xs) <= u && VarsAll(ys) <= u && Solves(f, st.subst) && MapAll(f, xs) == MapAll(f, ys)
    ensures Complete(f, st, UnifyAll(st, xs, ys, u), EagerAll(st, xs, ys, u))
    decreases |u - st.subst.Keys|, SizeAll(MapAll(Fn(st.subst), xs)), 1
  {
    if xs != [] && ys != [] {
      UnifyAllStep(st, xs, ys, u);
      assert MapAll(f, xs)[0] == MapAll(f, ys)[0];
      UnifyComplete(f, st, xs[0], ys[0], u);
      var h := Unify(st, xs[0], ys[0], u);
      if h.Unified? {
        EagerFails(st, xs[0], ys[0], u);
        assert MapAll(f, xs)[1..] == MapAll(f, xs[1..]) && MapAll(f, ys)[1..] == MapAll(f, ys[1..]);
        UnifyAllComplete(f, h.st, xs[1..], ys[1..], u);
      }
    }
  }

  /** An eager run fails. */
  lemma {:induction false} EagerFails(st: State, x: Type, y: Type, u: set<string>)
    requires Good(st, u) && Vars(x) <= u && Vars(y) <= u
    ensures Eager(st, x, y, u) ==> Unify(st, x, y, u).Failed?
    decreases |u - st.subst.Keys|, Size(Apply(st.subst, x)), 0
  {
    var a, b := Apply(st.subst, x), Apply(st.subst, y);
    ApplyResolves(st.subst, u, x);
    ApplyResolves(st.subst, u, y);
    if a == b || a.Bottom? || b.Bottom? {
    } else if a.TypeVar? {
      EagerBindFails(st, a.name, b);
    } else if b.TypeVar? {
      EagerBindFails(st, b.name, a);
    } else if Compatible(a, b) {
      VarsOfChildren(a);
      VarsOfChildren(b);
      SizeOfChildren(a);
      ResolvedChildren(st.subst, a);
      EagerAllFails(st, Children(a), Children(b), u);
    }
  }

  lemma EagerBindFails(st: State, v: string, t: Type)
    ensures EagerBind(st, v, t) ==> Bind(st, v, t).Failed?
  {
    if EagerBind(st, v, t) { assert Required(t, "ToSelectedExprs").None?; }
  }

  lemma {:induction false} EagerAllFails(st: State, xs: seq<Type>, ys: seq<Type>, u: set<string>)
    requires Good(st, u) && VarsAll(xs) <= u && VarsAll(ys) <= u
    ensures EagerAll(st, xs, ys, u) ==> UnifyAll(st, xs, ys, u).Failed?
    decreases |u - st.subst.Keys|, SizeAll(MapAll(Fn(st.subst), xs)), 1
  {
    if xs != [] && ys != [] {
      UnifyAllStep(st, xs, ys, u);
      EagerFails(st, xs[0], ys[0], u);
      var h := Unify(st, xs[0], ys[0], u);
      if h.Unified? { EagerAllFails(h.st, xs[1..], ys[1..], u); }
    }
  }

  predicate Deciding(bs: Bounds) { forall x :: x in bs ==> x.1 != "ToSelectedExprs" }

  ghost predicate Decides(r: Result, eager: bool) { !eager && (r.Unified? ==> Deciding(r.st.bounds)) }

  /** If no variable has the bound `ToSelectedExprs`, no run is eager. */
  lemma {:induction false} NeverEager(st: State, x: Type, y: Type, u: set<string>)
    requires Good(st, u) && Vars(x) <= u && Vars(y) <= u && Deciding(st.bounds)
    ensures Decides(Unify(st, x, y, u), Eager(st, x, y, u))
    decreases |u - st.subst.Keys|, Size(Apply(st.subst, x)), 0
  {
    var a, b := Apply(st.subst, x), Apply(st.subst, y);
    ApplyResolves(st.subst, u, x);
    ApplyResolves(st.subst, u, y);
    if a == b || a.Bottom? || b.Bottom? {
    } else if a.TypeVar? {
      BindDeciding(st, a.name, b);
    } else if b.TypeVar? {
      BindDeciding(st, b.name, a);
    } else if Compatible(a, b) {
      VarsOfChildren(a);
      VarsOfChildren(b);
      SizeOfChildren(a);
      ResolvedChildren(st.subst, a);
      NeverEagerAll(st, Children(a), Children(b), u);
    }
  }

  lemma {:induction false} NeverEagerAll(st: State, xs: seq<Type>, ys: seq<Type>, u: set<string>)
    requires Good(st, u) && VarsAll(xs) <= u && VarsAll(ys) <= u && Deciding(st.bounds)
    ensures Decides(UnifyAll(st, xs, ys, u), EagerAll(st, xs, ys, u))
    decreases |u - st.subst.Keys|, SizeAll(MapAll(Fn(st.subst), xs)), 1
  {
    if xs != [] && ys != [] {
      UnifyAllStep(st, xs, ys, u);
      NeverEager(st, xs[0], ys[0], u);
      var h := Unify(st, xs[0], ys[0], u);
      if h.Unified? { NeverEagerAll(h.st, xs[1..], ys[1..], u); }
    }
  }

  lemma BindDeciding(st: State, v: string, t: Type)
    requires Deciding(st.bounds)
    ensures Decides(Bind(st, v, t), EagerBind(st, v, t))
  {
    forall b, x | b in BoundsOf(st.bounds, v) && Required(t, b).Some? && x in Required(t, b).value ensures x.1 != "ToSelectedExprs" {
      assert (v, b) in st.bounds;
      RequiredVars(t, b, x);
    }
  }

  // ----- the theorems -----

  /** After success the two types agree up to the bottom type and the ends of argument lists. */
  lemma UnifiedTypesTruncate(st: State, x: Type, y: Type, u: set<string>)
    requires Good(st, u) && Vars(x) <= u && Vars(y) <= u && Unify(st, x, y, u).Unified?
    ensures var s := Unify(st, x, y, u).st.subst; Truncated(Apply(s, x), Apply(s, y))
  {
    var s := Unify(st, x, y, u).st.subst;
    SolvesItself(s);
    UnifySound(Fn(s), st, x, y, u);
  }

  /** After success the two types agree up to the bottom type iff corresponding argument lists have
      equal length. */
  lemma UnifiedTypesAgree(st: State, x: Type, y: Type, u: set<string>)
    requires Good(st, u) && Vars(x) <= u && Vars(y) <= u && Unify(st, x, y, u).Unified?
    ensures var s := Unify(st, x, y, u).st.subst; Agree(Apply(s, x), Apply(s, y)) <==> EqualLengths(Apply(s, x), Apply(s, y))
  {
    var s := Unify(st, x, y, u).st.subst;
    UnifiedTypesTruncate(st, x, y, u);
    AgreeIff(Apply(s, x), Apply(s, y));
  }

  /** This is so if all types have the numbers of arguments they are declared with. */
  lemma KindedTypesAgree(arity: string -> nat, st: State, x: Type, y: Type, u: set<string>)
    requires Good(st, u) && Vars(x) <= u && Vars(y) <= u && Unify(st, x, y, u).Unified?
    requires AllIn(Kinded(arity), st.subst) && All(Kinded(arity), x) && All(Kinded(arity), y)
    ensures var s := Unify(st, x, y, u).st.subst; Agree(Apply(s, x), Apply(s, y))
  {
    var s := Unify(st, x, y, u).st.subst;
    KindedHeadOnly(arity);
    UnifyKeepsAll(Kinded(arity), st, x, y, u);
    AllApply(Kinded(arity), s, x);
    AllApply(Kinded(arity), s, y);
    UnifiedTypesTruncate(st, x, y, u);
    KindedLengths(arity, Apply(s, x), Apply(s, y));
    UnifiedTypesAgree(st, x, y, u);
  }

  /** On bottom-free types, the substituted types are equal iff argument lists have equal length. */
  lemma UnifiedTypesEqual(st: State, x: Type, y: Type, u: set<string>)
    requires Good(st, u) && Vars(x) <= u && Vars(y) <= u && Unify(st, x, y, u).Unified?
    requires AllIn(BottomFree(), st.subst) && All(BottomFree(), x) && All(BottomFree(), y)
    ensures var s := Unify(st, x, y, u).st.subst;
            && All(BottomFree(), Apply(s, x)) && All(BottomFree(), Apply(s, y))
            && (Apply(s, x) == Apply(s, y) <==> EqualLengths(Apply(s, x), Apply(s, y)))
  {
    var s := Unify(st, x, y, u).st.subst;
    BottomFreeHeadOnly();
    UnifyKeepsAll(BottomFree(), st, x, y, u);
    AllApply(BottomFree(), s, x);
    AllApply(BottomFree(), s, y);
    UnifiedTypesAgree(st, x, y, u);
    if EqualLengths(Apply(s, x), Apply(s, y)) { AgreeExact(Apply(s, x), Apply(s, y)); } else { AgreeReflexive(Apply(s, x)); }
  }

  /** Unification succeeds and leaves no argument list longer than the one it is compared with. */
  ghost predicate Exact(st: State, x: Type, y: Type, u: set<string>)
    requires Good(st, u) && Vars(x) <= u && Vars(y) <= u
  {
    var r := Unify(st, x, y, u);
    r.Unified? && EqualLengths(Apply(r.st.subst, x), Apply(r.st.subst, y))
  }

  /** `f` solves the state, respects its bounds and makes the types equal. */
  ghost predicate Unifies(f: string -> Type, st: State, x: Type, y: Type) {
    Solves(f, st.subst) && Respects(f, st.bounds) && Map(f, x) == Map(f, y)
  }

  /** If some assignment unifies the types, then unification is exact or eager. */
  lemma UnifierFound(f: string -> Type, st: State, x: Type, y: Type, u: set<string>)
    requires Good(st, u) && Vars(x) <= u && Vars(y) <= u && Unifies(f, st, x, y)
    requires AllIn(BottomFree(), st.subst) && All(BottomFree(), x) && All(BottomFree(), y)
    ensures Exact(st, x, y, u) || Eager(st, x, y, u)
  {
    var r := Unify(st, x, y, u);
    UnifyComplete(f, st, x, y, u);
    if r.Unified? {
      UnifiedTypesEqual(st, x, y, u);
      UnifiedTypesTruncate(st, x, y, u);
      SolvesApply(f, r.st.subst, x);
      SolvesApply(f, r.st.subst, y);
      InstanceLengths(f, Apply(r.st.subst, x), Apply(r.st.subst, y));
    }
  }

  /** An exact result unifies the types. */
  lemma ResultUnifies(st: State, x: Type, y: Type, u: set<string>)
    requires Good(st, u) && Vars(x) <= u && Vars(y) <= u && BoundsHold(st) && Exact(st, x, y, u)
    requires AllIn(BottomFree(), st.subst) && All(BottomFree(), x) && All(BottomFree(), y)
    ensures Unifies(Fn(Unify(st, x, y, u).st.subst), st, x, y)
  {
    var r := Unify(st, x, y, u);
    var f := Fn(r.st.subst);
    SolvesItself(r.st.subst);
    UnifySound(f, st, x, y, u);
    UnifiedTypesEqual(st, x, y, u);
    UnifyKeepsBounds(st, x, y, u);
    forall b | b in st.bounds ensures Required(f(b.0), b.1).Some? { assert b in r.st.bounds; }
  }

  /** Most general: on bottom-free types, unification is exact if and only if its run is not eager and
      some assignment unifies the types; and then the solutions of the result are exactly the
      assignments that solve the state and make the types equal. */
  lemma MostGeneral(st: State, x: Type, y: Type, u: set<string>)
    requires Good(st, u) && Vars(x) <= u && Vars(y) <= u && BoundsHold(st)
    requires AllIn(BottomFree(), st.subst) && All(BottomFree(), x) && All(BottomFree(), y)
    ensures Exact(st, x, y, u) <==> !Eager(st, x, y, u) && exists f :: Unifies(f, st, x, y)
    ensures Exact(st, x, y, u) ==>
              forall f :: Solves(f, Unify(st, x, y, u).st.subst) <==> Solves(f, st.subst) && Map(f, x) == Map(f, y)
  {
    if Exact(st, x, y, u) {
      EagerFails(st, x, y, u);
      ResultUnifies(st, x, y, u);
      forall f ensures Solves(f, Unify(st, x, y, u).st.subst) <==> Solves(f, st.subst) && Map(f, x) == Map(f, y) {
        ResultSolutions(f, st, x, y, u);
      }
    }
    if f :| Unifies(f, st, x, y) { UnifierFound(f, st, x, y, u); }
  }

  lemma ResultSolutions(f: string -> Type, st: State, x: Type, y: Type, u: set<string>)
    requires Good(st, u) && Vars(x) <= u && Vars(y) <= u && Exact(st, x, y, u)
    requires AllIn(BottomFree(), st.subst) && All(BottomFree(), x) && All(BottomFree(), y)
    ensures Solves(f, Unify(st, x, y, u).st.subst) <==> Solves(f, st.subst) && Map(f, x) == Map(f, y)
  {
    var s := Unify(st, x, y, u).st.subst;
    if Solves(f, s) {
      UnifySound(f, st, x, y, u);
      UnifiedTypesEqual(st, x, y, u);
      SolvesApply(f, s, x);
      SolvesApply(f, s, y);
    }
    if Solves(f, st.subst) && Map(f, x) == Map(f, y) { UnifyComplete(f, st, x, y, u); }
  }

  /** Lists of type arguments are compared only up to the end of the shorter one. */
  lemma ArgumentListsTruncate()
    ensures var x, y := NamedType("A", Args([Int])), NamedType("A", Args([Int, Bool]));
            var st := State(map[], {});
            Good(st, {}) && Vars(x) == {} && Vars(y) == {} && Unify(st, x, y, {}) == Unified(st) && !Agree(Apply(map[], x), Apply(map[], y))
  {
    var x, y := NamedType("A", Args([Int])), NamedType("A", Args([Int, Bool]));
    var st := State(map[], {});
    ApplyResolved(map[], x);
    ApplyResolved(map[], y);
    ApplyResolved(map[], Int);
    assert Children(x) == [Int] && Children(y) == [Int, Bool];
    assert Children(x)[1..] == [];
    assert Unify(st, Int, Int, {}) == Unified(st);
    assert UnifyAll(st, Children(x), Children(y), {}) == UnifyAll(st, [], Children(y)[1..], {});
  }

  /** With the bound that only arrays of expressions satisfy, unification is not complete: the bound
      is checked when the variable is bound, before the element type is known. */
  lemma BoundsAreEager()
    ensures var st := State(map[], {("T", "ToSelectedExprs")});
            var x, y := TypeVar("T"), Array(TypeVar("E"), None);
            var f := (v: string) => if v == "E" then Expression else Array(Expression, None);
            && Good(st, {"T", "E"}) && Vars(x) <= {"T", "E"} && Vars(y) <= {"T", "E"}
            && Unifies(f, st, x, y) && Unify(st, x, y, {"T", "E"}).Failed? && Eager(st, x, y, {"T", "E"})
  {
    var st := State(map[], {("T", "ToSelectedExprs")});
    var x, y := TypeVar("T"), Array(TypeVar("E"), None);
    EagerVariable(st, "T", y, {"T", "E"});
  }

  /** Unifying an unbound variable with a type it cannot be bound to yet fails. */
  lemma EagerVariable(st: State, v: string, t: Type, u: set<string>)
    requires Good(st, u) && v in u && Vars(t) <= u && v !in st.subst && Resolved(st.subst, t)
    requires (v, "ToSelectedExprs") in st.bounds && t.Array? && t.base.TypeVar?
    ensures Unify(st, TypeVar(v), t, u).Failed? && Eager(st, TypeVar(v), t, u)
  {
    ApplyResolved(st.subst, t);
    assert "ToSelectedExprs" in BoundsOf(st.bounds, v);
    EagerFails(st, TypeVar(v), t, u);
  }

  // ----- recorded bounds -----

  /** Every bound recorded for a variable that has been eliminated holds of the type it resolves to,
      given the bounds on the remaining variables. */
  ghost predicate BoundsHold(st: State) {
    forall x :: x in st.bounds && x.0 in st.subst ==> Satisfies(st.bounds, st.subst[x.0], x.1)
  }

  lemma {:induction false} SatisfiesMore(bs: Bounds, cs: Bounds, t: Type, b: string)
    requires Satisfies(bs, t, b) && bs <= cs
    ensures Satisfies(cs, t, b)
  {
  }

  lemma BindKeepsBounds(st: State, v: string, t: Type)
    requires Idempotent(st.subst) && BoundsHold(st) && v !in st.subst && Resolved(st.subst, t)
    ensures Bind(st, v, t).Unified? ==> BoundsHold(Bind(st, v, t).st)
  {
    var r := Bind(st, v, t);
    if r.Unified? {
      var one: Subst := map[v := t];
      forall b | b in BoundsOf(st.bounds, v) ensures Satisfies(r.st.bounds, t, b) { }
      forall x | x in r.st.bounds && x.0 in r.st.subst ensures Satisfies(r.st.bounds, r.st.subst[x.0], x.1) {
        AddedBoundsResolved(st, v, t, x);
        if x.0 == v {
          assert x.1 in BoundsOf(st.bounds, v);
        } else {
          var w := st.subst[x.0];
          forall z | z in Required(w, x.1).value ensures Satisfies(r.st.bounds, Fn(one)(z.0), z.1) {
            if z.0 == v { assert z.1 in BoundsOf(st.bounds, v); } else { assert z == (z.0, z.1); }
          }
          RequiredMap(Fn(one), w, x.1, r.st.bounds);
        }
      }
    }
  }

  /** Binding adds bounds only on unbound variables other than the bound one. */
  lemma AddedBoundsResolved(st: State, v: string, t: Type, x: (string, string))
    requires Bind(st, v, t).Unified? && x in Bind(st, v, t).st.bounds && Resolved(st.subst, t)
    ensures x in st.bounds || (x.0 !in st.subst && x.0 != v)
  {
    if x !in st.bounds {
      var b :| b in BoundsOf(st.bounds, v) && Required(t, b).Some? && x in Required(t, b).value;
      RequiredVars(t, b, x);
    }
  }

  lemma {:induction false} RequiredVars(t: Type, b: string, x: (string, string))
    requires Required(t, b).Some? && x in Required(t, b).value
    ensures x.0 in Vars(t) && x.1 == b
    decreases t
  {
    match t
    case Array(base, _) => if b == "ToString" { RequiredVars(base, b, x); }
    case Tuple(items) => if b == "ToString" { RequiredVarsAll(items, b, x); }
    case _ =>
  }

  lemma {:induction false} RequiredVarsAll(ts: seq<Type>, b: string, x: (string, string))
    requires RequiredAll(ts, b).Some? && x in RequiredAll(ts, b).value
    ensures x.0 in VarsAll(ts) && x.1 == b
    decreases ts
  {
    if ts != [] {
      if x in Required(ts[0], b).value { RequiredVars(ts[0], b, x); } else { RequiredVarsAll(ts[1..], b, x); }
    }
  }

  lemma {:induction false} UnifyKeepsBounds(st: State, x: Type, y: Type, u: set<string>)
    requires Good(st, u) && Vars(x) <= u && Vars(y) <= u && BoundsHold(st)
    ensures Unify(st, x, y, u).Unified? ==> BoundsHold(Unify(st, x, y, u).st) && st.bounds <= Unify(st, x, y, u).st.bounds
    decreases |u - st.subst.Keys|, Size(Apply(st.subst, x)), 0
  {
    var a, b := Apply(st.subst, x), Apply(st.subst, y);
    ApplyResolves(st.subst, u, x);
    ApplyResolves(st.subst, u, y);
    if a == b || a.Bottom? || b.Bottom? {
    } else if a.TypeVar? {
      BindKeepsBounds(st, a.name, b);
    } else if b.TypeVar? {
      BindKeepsBounds(st, b.name, a);
    } else if Compatible(a, b) {
      VarsOfChildren(a);
      VarsOfChildren(b);
      SizeOfChildren(a);
      ResolvedChildren(st.subst, a);
      UnifyAllKeepsBounds(st, Children(a), Children(b), u);
    }
  }

  lemma {:induction false} UnifyAllKeepsBounds(st: State, xs: seq<Type>, ys: seq<Type>, u: set<string>)
    requires Good(st, u) && VarsAll(xs) <= u && VarsAll(ys) <= u && BoundsHold(st)
    ensures UnifyAll(st, xs, ys, u).Unified? ==> BoundsHold(UnifyAll(st, xs, ys, u).st) && st.bounds <= UnifyAll(st, xs, ys, u).st.bounds
    decreases |u - st.subst.Keys|, SizeAll(MapAll(Fn(st.subst), xs)), 1
  {
    if xs != [] && ys != [] {
      UnifyAllStep(st, xs, ys, u);
      UnifyKeepsBounds(st, xs[0], ys[0], u);
      var h := Unify(st, xs[0], ys[0], u);
      if h.Unified? { UnifyAllKeepsBounds(h.st, xs[1..], ys[1..], u); }
    }
  }
}
