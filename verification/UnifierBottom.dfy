/** The bottom type unifies with every type: which types unify although they contain it, and when
    unification succeeds on types that agree only up to it. */
module UnifierBottom {
  import opened Options
  import opened Types
  import opened Unification
  import opened UnifierTheorems

  // ----- pruning -----

  /** `a` is `b` with some sub-types replaced by the bottom type. */
  predicate Pruned(a: Type, b: Type)
    decreases a
  {
    || a.Bottom?
    || (SameHead(a, b) && |Children(a)| == |Children(b)| && forall i :: 0 <= i < |Children(a)| ==> Pruned(Children(a)[i], Children(b)[i]))
  }

  predicate PrunedAll(xs: seq<Type>, ys: seq<Type>) {
    |xs| == |ys| && forall i :: 0 <= i < |xs| ==> Pruned(xs[i], ys[i])
  }

  lemma {:induction false} PrunedSame(a: Type)
    ensures Pruned(a, a)
    decreases a
  {
    forall i | 0 <= i < |Children(a)| ensures Pruned(Children(a)[i], Children(a)[i]) { PrunedSame(Children(a)[i]); }
  }

  lemma {:induction false} PrunedTwice(a: Type, b: Type, c: Type)
    requires Pruned(a, b) && Pruned(b, c)
    ensures Pruned(a, c)
    decreases a
  {
    if !a.Bottom? {
      forall i | 0 <= i < |Children(a)| ensures Pruned(Children(a)[i], Children(c)[i]) {
        PrunedTwice(Children(a)[i], Children(b)[i], Children(c)[i]);
      }
    }
  }

  lemma {:induction false} PrunedMap(f: string -> Type, a: Type, b: Type)
    requires Pruned(a, b)
    ensures Pruned(Map(f, a), Map(f, b))
    decreases a
  {
    if a.TypeVar? {
      PrunedSame(f(a.name));
    } else if !a.Bottom? {
      forall i | 0 <= i < |Children(a)| ensures Pruned(Map(f, Children(a)[i]), Map(f, Children(b)[i])) {
        PrunedMap(f, Children(a)[i], Children(b)[i]);
      }
      MappedNode(f, a, b);
    }
  }

  lemma {:induction false} MappedNode(f: string -> Type, a: Type, b: Type)
    requires SameHead(a, b) && !a.TypeVar? && |Children(a)| == |Children(b)|
    requires forall i :: 0 <= i < |Children(a)| ==> Pruned(Map(f, Children(a)[i]), Map(f, Children(b)[i]))
    ensures Pruned(Map(f, a), Map(f, b))
  {
    MapHead(f, a);
    MapHead(f, b);
    assert SameHead(Map(f, a), Map(f, b));
  }

  /** Assignments that give pruned types give pruned images. */
  lemma {:induction false} PrunedAssignment(f: string -> Type, g: string -> Type, t: Type)
    requires forall v :: v in Vars(t) ==> Pruned(f(v), g(v))
    ensures Pruned(Map(f, t), Map(g, t))
    decreases Size(t)
  {
    if !t.TypeVar? {
      MapHead(f, t);
      MapHead(g, t);
      VarsOfChildren(t);
      SizeOfChildren(t);
      forall i | 0 <= i < |Children(t)| ensures Pruned(Children(Map(f, t))[i], Children(Map(g, t))[i]) {
        SizeOfOne(Children(t), i);
        PrunedAssignment(f, g, Children(t)[i]);
      }
      SameHeads(t, Map(f, t), Map(g, t));
    }
  }

  lemma SameHeads(t: Type, a: Type, b: Type)
    requires SameHead(t, a) && SameHead(t, b)
    ensures SameHead(a, b) && |Children(a)| == |Children(b)|
  {
    SameHeadChildren(t, a);
    SameHeadChildren(t, b);
  }

  lemma {:induction false} PrunedSize(a: Type, b: Type)
    requires Pruned(a, b)
    ensures Size(a) <= Size(b)
    decreases a
  {
    SizeOfChildren(a);
    SizeOfChildren(b);
    if !a.Bottom? { PrunedSizes(a, Children(a), Children(b)); } else { assert Children(a) == []; }
  }

  lemma {:induction false} PrunedSizes(parent: Type, xs: seq<Type>, ys: seq<Type>)
    requires PrunedAll(xs, ys) && forall x :: x in xs ==> x < parent
    ensures SizeAll(xs) <= SizeAll(ys)
    decreases parent, |xs|
  {
    if xs != [] {
      assert xs[0] in xs && forall x :: x in xs[1..] ==> x in xs;
      PrunedSize(xs[0], ys[0]);
      PrunedSizes(parent, xs[1..], ys[1..]);
    }
  }

  /** Pruning keeps agreement. */
  lemma {:induction false} PrunedAgrees(a: Type, x: Type, y: Type)
    requires Pruned(a, x) && Agree(x, y)
    ensures Agree(a, y) && Agree(y, a)
    decreases a
  {
    if !a.Bottom? && !y.Bottom? {
      HeadsChain(a, x, y);
      forall i | 0 <= i < |Children(a)|
        ensures Agree(Children(a)[i], Children(y)[i]) && Agree(Children(y)[i], Children(a)[i])
      {
        PrunedAgrees(Children(a)[i], Children(x)[i], Children(y)[i]);
      }
    }
  }

  lemma HeadsChain(a: Type, x: Type, y: Type)
    requires SameHead(a, x) && SameHead(x, y)
    ensures SameHead(a, y) && SameHead(y, a) && |Children(a)| == |Children(x)| == |Children(y)|
  {
    SameHeadChildren(a, x);
    SameHeadChildren(x, y);
  }

  /** A type that agrees with one without the bottom type is pruned from it. */
  lemma {:induction false} AgreesIsPruned(a: Type, x: Type)
    requires Agree(a, x) && All(BottomFree(), x)
    ensures Pruned(a, x)
    decreases a
  {
    assert BottomFree()(x);
    if !a.Bottom? {
      forall i | 0 <= i < |Children(a)| ensures Pruned(Children(a)[i], Children(x)[i]) { AgreesIsPruned(Children(a)[i], Children(x)[i]); }
    }
  }

  lemma {:induction false} PrunedExact(a: Type, x: Type)
    requires Pruned(a, x) && All(BottomFree(), a)
    ensures a == x
    decreases a
  {
    assert BottomFree()(a);
    forall i | 0 <= i < |Children(a)| ensures Children(a)[i] == Children(x)[i] { PrunedExact(Children(a)[i], Children(x)[i]); }
    SameHeadChildren(a, x);
  }

  // ----- a type unifies with all its prunings -----

  /** Unifying a type with itself, with sub-types on either side replaced by the bottom type, succeeds and
      changes nothing. */
  lemma {:induction false} BottomUnifies(st: State, x: Type, y: Type, u: set<string>)
    requires Good(st, u) && Vars(x) <= u && Vars(y) <= u && (Pruned(x, y) || Pruned(y, x))
    ensures Unify(st, x, y, u) == Unified(st)
  {
    if Pruned(x, y) { PrunedMap(Fn(st.subst), x, y); } else { PrunedMap(Fn(st.subst), y, x); }
    AppliedBottom(st, x, y, u);
  }

  /** It is enough that the types are so after substitution. */
  lemma {:induction false} AppliedBottom(st: State, x: Type, y: Type, u: set<string>)
    requires Good(st, u) && Vars(x) <= u && Vars(y) <= u
    requires Pruned(Apply(st.subst, x), Apply(st.subst, y)) || Pruned(Apply(st.subst, y), Apply(st.subst, x))
    ensures Unify(st, x, y, u) == Unified(st)
  {
    var a, b := Apply(st.subst, x), Apply(st.subst, y);
    ApplyResolves(st.subst, u, x);
    ApplyResolves(st.subst, u, y);
    ResolvedBottom(st, a, b, u);
    ApplyResolved(st.subst, a);
    ApplyResolved(st.subst, b);
  }

  /** The same of types without bound variables. */
  lemma {:induction false} ResolvedBottom(st: State, a: Type, b: Type, u: set<string>)
    requires Good(st, u) && Vars(a) <= u && Vars(b) <= u && (Pruned(a, b) || Pruned(b, a))
    requires Resolved(st.subst, a) && Resolved(st.subst, b)
    ensures Unify(st, a, b, u) == Unified(st)
    decreases Size(a) + Size(b), 0
  {
    ApplyResolved(st.subst, a);
    ApplyResolved(st.subst, b);
    if a != b && !a.Bottom? && !b.Bottom? {
      PrunedCompatible(a, b);
      VarsOfChildren(a);
      VarsOfChildren(b);
      SizeOfChildren(a);
      SizeOfChildren(b);
      ResolvedChildren(st.subst, a);
      BottomUnifiesAll(st, Children(a), Children(b), u);
    }
  }

  lemma PrunedCompatible(a: Type, b: Type)
    requires (Pruned(a, b) || Pruned(b, a)) && a != b && !a.Bottom? && !b.Bottom?
    ensures Compatible(a, b) && !a.TypeVar? && !b.TypeVar?
    ensures PrunedAll(Children(a), Children(b)) || PrunedAll(Children(b), Children(a))
  {
    if Pruned(a, b) { HeadsCompatible(a, b); } else { HeadsCompatible(b, a); }
  }

  lemma {:induction false} BottomUnifiesAll(st: State, xs: seq<Type>, ys: seq<Type>, u: set<string>)
    requires Good(st, u) && VarsAll(xs) <= u && VarsAll(ys) <= u && (PrunedAll(xs, ys) || PrunedAll(ys, xs))
    requires VarsAll(xs) !! st.subst.Keys && VarsAll(ys) !! st.subst.Keys
    ensures UnifyAll(st, xs, ys, u) == Unified(st)
    decreases SizeAll(xs) + SizeAll(ys), 1
  {
    if xs != [] && ys != [] {
      SplitLists(st.subst, xs, ys);
      UnifyAllStep(st, xs, ys, u);
      ResolvedBottom(st, xs[0], ys[0], u);
      BottomUnifiesAll(st, xs[1..], ys[1..], u);
    }
  }

  lemma {:induction false} SplitLists(s: Subst, xs: seq<Type>, ys: seq<Type>)
    requires xs != [] && ys != [] && (PrunedAll(xs, ys) || PrunedAll(ys, xs))
    requires VarsAll(xs) !! s.Keys && VarsAll(ys) !! s.Keys
    ensures Pruned(xs[0], ys[0]) || Pruned(ys[0], xs[0])
    ensures PrunedAll(xs[1..], ys[1..]) || PrunedAll(ys[1..], xs[1..])
    ensures Resolved(s, xs[0]) && Resolved(s, ys[0]) && VarsAll(xs[1..]) !! s.Keys && VarsAll(ys[1..]) !! s.Keys
    ensures SizeAll(xs) == Size(xs[0]) + SizeAll(xs[1..]) && SizeAll(ys) == Size(ys[0]) + SizeAll(ys[1..]) && Size(xs[0]) > 0
  {
    SizeOfChildren(xs[0]);
  }

  // ----- solutions up to the bottom type -----

  ghost predicate NoBottom(f: string -> Type) { forall v :: All(BottomFree(), f(v)) }

  /** The assignment satisfies every equation of the substitution, up to bottom types in it. */
  ghost predicate SolvesUpTo(f: string -> Type, s: Subst) { forall v :: v in s ==> Pruned(Map(f, s[v]), f(v)) }

  lemma ApplyPrunes(f: string -> Type, s: Subst, t: Type)
    requires SolvesUpTo(f, s)
    ensures Pruned(Map(f, Apply(s, t)), Map(f, t))
  {
    var h := (v: string) => Map(f, Fn(s)(v));
    MapTwice(f, Fn(s), h, t);
    forall v | v in Vars(t) ensures Pruned(h(v), f(v)) { if v !in s { PrunedSame(f(v)); } }
    PrunedAssignment(h, f, t);
  }

  lemma ExtendUpTo(f: string -> Type, s: Subst, v: string, t: Type)
    requires SolvesUpTo(f, s) && v !in s && Pruned(Map(f, t), f(v))
    ensures SolvesUpTo(f, Extend(s, v, t))
  {
    var s' := Extend(s, v, t);
    var one: Subst := map[v := t];
    forall w | w in s' ensures Pruned(Map(f, s'[w]), f(w)) {
      if w != v {
        ApplyPrunes(f, one, s[w]);
        PrunedTwice(Map(f, s'[w]), Map(f, s[w]), f(w));
      }
    }
  }

  // ----- completeness up to the bottom type -----

  /** To satisfy the trait, a bottom type inside `t` would have to. */
  predicate AsksBottom(t: Type, b: string)
    decreases t
  {
    match t
    case Bottom => true
    case Array(base, _) => if b == "ToString" then AsksBottom(base, b) else b == "ToSelectedExprs" && base.Bottom?
    case Tuple(items) => b == "ToString" && exists i :: 0 <= i < |items| && AsksBottom(items[i], b)
    case _ => false
  }

  /** The binding fails because a bound is checked before the element type of an array is known, or asked of
      the bottom type. */
  predicate PrematureBind(st: State, v: string, t: Type) {
    exists b :: b in BoundsOf(st.bounds, v) && (Undecided(t, b) || AsksBottom(t, b))
  }

  /** Some binding of the run fails in this way. */
  ghost predicate Premature(st: State, x: Type, y: Type, u: set<string>)
    requires Good(st, u) && Vars(x) <= u && Vars(y) <= u
    decreases |u - st.subst.Keys|, Size(Apply(st.subst, x)), 0
  {
    var a, b := Apply(st.subst, x), Apply(st.subst, y);
    ApplyResolves(st.subst, u, x);
    ApplyResolves(st.subst, u, y);
    if a == b || a.Bottom? || b.Bottom? then false
    else if a.TypeVar? then PrematureBind(st, a.name, b)
    else if b.TypeVar? then PrematureBind(st, b.name, a)
    else if Compatible(a, b) then
      VarsOfChildren(a);
      VarsOfChildren(b);
      SizeOfChildren(a);
      ResolvedChildren(st.subst, a);
      PrematureAll(st, Children(a), Children(b), u)
    else false
  }

  ghost predicate PrematureAll(st: State, xs: seq<Type>, ys: seq<Type>, u: set<string>)
    requires Good(st, u) && VarsAll(xs) <= u && VarsAll(ys) <= u
    decreases |u - st.subst.Keys|, SizeAll(MapAll(Fn(st.subst), xs)), 1
  {
    if xs == [] || ys == [] then false
    else
      UnifyAllStep(st, xs, ys, u);
      var h := Unify(st, xs[0], ys[0], u);
      Premature(st, xs[0], ys[0], u) || (h.Unified? && PrematureAll(h.st, xs[1..], ys[1..], u))
  }

  /** What a type requires of its variables, if an instance of it, filled in where it is the bottom type,
      satisfies the trait. */
  lemma {:induction false} RequiredFilled(f: string -> Type, t: Type, b: string, w: Type)
    requires NoBottom(f) && Pruned(Map(f, t), w) && Required(w, b).Some? && !Undecided(t, b) && !AsksBottom(t, b)
    ensures Required(t, b).Some? && forall x :: x in Required(t, b).value ==> x.1 == b && Required(f(x.0), b).Some?
    decreases t
  {
    match t
    case TypeVar(n) => PrunedExact(f(n), w);
    case Array(base, _) =>
      assert Children(Map(f, t)) == [Map(f, base)] && Children(w) == [w.base] && Pruned(Children(Map(f, t))[0], Children(w)[0]);
      if b == "ToString" { RequiredFilled(f, base, b, w.base); } else { FilledBase(f, t, b, w); }
    case Tuple(items) =>
      assert Children(Map(f, t)) == MapAll(f, items) && Children(w) == w.items;
      if b == "ToString" { RequiredFilledAll(f, items, b, w.items); }
    case _ =>
  }

  /** Whether the element type is that of expressions is known. */
  lemma FilledBase(f: string -> Type, t: Type, b: string, w: Type)
    requires t.Array? && w.Array? && b != "ToString" && Pruned(Map(f, t.base), w.base) && Required(w, b).Some?
    requires !Undecided(t, b) && !AsksBottom(t, b)
    ensures Required(t, b) == Some({})
  {
    if b == "ToSelectedExprs" && !t.base.TypeVar? {
      assert w.base == Expression;
      assert Map(f, t.base).Expression? <==> t.base.Expression?;
    }
  }

  lemma {:induction false} RequiredFilledAll(f: string -> Type, ts: seq<Type>, b: string, ws: seq<Type>)
    requires NoBottom(f) && PrunedAll(MapAll(f, ts), ws) && RequiredAll(ws, b).Some?
    requires b != "ToSelectedExprs" && forall i :: 0 <= i < |ts| ==> !AsksBottom(ts[i], b)
    ensures RequiredAll(ts, b).Some? && forall x :: x in RequiredAll(ts, b).value ==> x.1 == b && Required(f(x.0), b).Some?
    decreases ts
  {
    if ts != [] {
      assert MapAll(f, ts)[0] == Map(f, ts[0]);
      forall i | 0 <= i < |ts| - 1 ensures Pruned(MapAll(f, ts[1..])[i], ws[1..][i]) { assert MapAll(f, ts[1..])[i] == MapAll(f, ts)[i + 1]; }
      RequiredFilled(f, ts[0], b, ws[0]);
      RequiredFilledAll(f, ts[1..], b, ws[1..]);
    }
  }

  /** As `Complete`, up to the bottom type. */
  ghost predicate CompleteUpTo(f: string -> Type, st: State, r: Result, premature: bool) {
    && (r.Unified? ==> SolvesUpTo(f, r.st.subst))
    && (Respects(f, st.bounds) ==> (r.Failed? <==> premature) && (r.Unified? ==> Respects(f, r.st.bounds)))
  }

  lemma {:induction false} AsksBottomFails(t: Type, b: string)
    requires AsksBottom(t, b) || Undecided(t, b)
    ensures Required(t, b).None?
    decreases t
  {
    match t
    case Array(base, _) => if b == "ToString" { AsksBottomFails(base, b); }
    case Tuple(items) =>
      var i :| 0 <= i < |items| && AsksBottom(items[i], b);
      AsksBottomFails(items[i], b);
      OneFails(items, b, i);
    case _ =>
  }

  lemma {:induction false} OneFails(ts: seq<Type>, b: string, i: nat)
    requires i < |ts| && Required(ts[i], b).None?
    ensures RequiredAll(ts, b).None?
  {
    if i > 0 { OneFails(ts[1..], b, i - 1); }
  }

  lemma BindUpTo(f: string -> Type, st: State, v: string, t: Type)
    requires NoBottom(f) && v !in st.subst && t != TypeVar(v) && SolvesUpTo(f, st.subst) && Pruned(Map(f, t), f(v)) && !t.Bottom?
    ensures CompleteUpTo(f, st, Bind(st, v, t), PrematureBind(st, v, t))
  {
    if v in Vars(t) {
      SizeOfMap(f, t, v);
      PrunedSize(Map(f, t), f(v));
      assert false;
    }
    if PrematureBind(st, v, t) {
      var b :| b in BoundsOf(st.bounds, v) && (Undecided(t, b) || AsksBottom(t, b));
      AsksBottomFails(t, b);
    } else if Respects(f, st.bounds) {
      BindFilled(f, st, v, t);
    }
    ExtendUpTo(f, st.subst, v, t);
  }

  lemma BindFilled(f: string -> Type, st: State, v: string, t: Type)
    requires NoBottom(f) && v !in Vars(t) && Pruned(Map(f, t), f(v)) && Respects(f, st.bounds) && !PrematureBind(st, v, t)
    ensures Bind(st, v, t).Unified? && Respects(f, Bind(st, v, t).st.bounds)
  {
    forall b | b in BoundsOf(st.bounds, v)
      ensures Required(t, b).Some? && forall x :: x in Required(t, b).value ==> x.1 == b && Required(f(x.0), b).Some?
    {
      assert (v, b) in st.bounds && !Undecided(t, b) && !AsksBottom(t, b);
      RequiredFilled(f, t, b, f(v));
    }
  }

  /** What the substituted types keep of the agreement of two types. */
  lemma AppliedAgree(f: string -> Type, s: Subst, x: Type, y: Type)
    requires SolvesUpTo(f, s) && Agree(Map(f, x), Map(f, y))
    ensures Agree(Map(f, Apply(s, x)), Map(f, Apply(s, y)))
  {
    ApplyPrunes(f, s, x);
    ApplyPrunes(f, s, y);
    PrunedAgrees(Map(f, Apply(s, x)), Map(f, x), Map(f, y));
    PrunedAgrees(Map(f, Apply(s, y)), Map(f, y), Map(f, Apply(s, x)));
  }

  /** A type that agrees with a variable is pruned from what the variable stands for. */
  lemma VariableAgrees(f: string -> Type, v: string, t: Type)
    requires NoBottom(f) && (Agree(f(v), Map(f, t)) || Agree(Map(f, t), f(v)))
    ensures Pruned(Map(f, t), f(v))
  {
    PrunedSame(f(v));
    if Agree(f(v), Map(f, t)) { PrunedAgrees(f(v), f(v), Map(f, t)); }
    AgreesIsPruned(Map(f, t), f(v));
  }

  lemma {:induction false} VariableUpTo(f: string -> Type, st: State, v: string, t: Type)
    requires NoBottom(f) && v !in st.subst && t != TypeVar(v) && SolvesUpTo(f, st.subst) && !t.Bottom?
    requires Agree(f(v), Map(f, t)) || Agree(Map(f, t), f(v))
    ensures CompleteUpTo(f, st, Bind(st, v, t), PrematureBind(st, v, t))
  {
    VariableAgrees(f, v, t);
    BindUpTo(f, st, v, t);
  }

  /** If an assignment without the bottom type solves the state and makes the types agree, both up to the
      bottom type, then it so solves the result; and if it respects the bounds, unification fails exactly
      if some binding is premature. */
  lemma {:induction false} UnifyUpTo(f: string -> Type, st: State, x: Type, y: Type, u: set<string>)
    requires Good(st, u) && Vars(x) <= u && Vars(y) <= u && NoBottom(f) && SolvesUpTo(f, st.subst) && Agree(Map(f, x), Map(f, y))
    ensures CompleteUpTo(f, st, Unify(st, x, y, u), Premature(st, x, y, u))
    decreases |u - st.subst.Keys|, Size(Apply(st.subst, x)), 0
  {
    var a, b := Apply(st.subst, x), Apply(st.subst, y);
    ApplyResolves(st.subst, u, x);
    ApplyResolves(st.subst, u, y);
    AppliedAgree(f, st.subst, x, y);
    if a == b || a.Bottom? || b.Bottom? {
    } else if a.TypeVar? {
      VariableUpTo(f, st, a.name, b);
    } else if b.TypeVar? {
      VariableUpTo(f, st, b.name, a);
    } else {
      AgreeNode(f, a, b);
      VarsOfChildren(a);
      VarsOfChildren(b);
      SizeOfChildren(a);
      ResolvedChildren(st.subst, a);
      UnifyAllUpTo(f, st, Children(a), Children(b), u);
    }
  }

  predicate AgreeAll(xs: seq<Type>, ys: seq<Type>) { |xs| == |ys| && forall i :: 0 <= i < |xs| ==> Agree(xs[i], ys[i]) }

  lemma AgreeNode(f: string -> Type, a: Type, b: Type)
    requires Agree(Map(f, a), Map(f, b)) && a != b && !a.Bottom? && !b.Bottom? && !a.TypeVar? && !b.TypeVar?
    ensures Compatible(a, b) && AgreeAll(MapAll(f, Children(a)), MapAll(f, Children(b)))
  {
    MapHead(f, a);
    MapHead(f, b);
    assert SameHead(a, b);
    HeadsCompatible(a, b);
  }

  lemma {:induction false} UnifyAllUpTo(f: string -> Type, st: State, xs: seq<Type>, ys: seq<Type>, u: set<string>)
    requires Good(st, u) && VarsAll(xs) <= u && VarsAll(ys) <= u && NoBottom(f) && SolvesUpTo(f, st.subst)
    requires AgreeAll(MapAll(f, xs), MapAll(f, ys))
    ensures CompleteUpTo(f, st, UnifyAll(st, xs, ys, u), PrematureAll(st, xs, ys, u))
    decreases |u - st.subst.Keys|, SizeAll(MapAll(Fn(st.subst), xs)), 1
  {
    if xs != [] && ys != [] {
      UnifyAllStep(st, xs, ys, u);
      AgreeTail(f, xs, ys);
      UnifyUpTo(f, st, xs[0], ys[0], u);
      PrematureFails(st, xs[0], ys[0], u);
      var h := Unify(st, xs[0], ys[0], u);
      if h.Unified? {
        UnifyAllUpTo(f, h.st, xs[1..], ys[1..], u);
        ThenUpTo(f, st, h, UnifyAll(h.st, xs[1..], ys[1..], u), PrematureAll(h.st, xs[1..], ys[1..], u));
      }
    }
  }

  lemma {:induction false} AgreeTail(f: string -> Type, xs: seq<Type>, ys: seq<Type>)
    requires xs != [] && ys != [] && AgreeAll(MapAll(f, xs), MapAll(f, ys))
    ensures Agree(Map(f, xs[0]), Map(f, ys[0])) && AgreeAll(MapAll(f, xs[1..]), MapAll(f, ys[1..]))
  {
    assert MapAll(f, xs)[0] == Map(f, xs[0]) && MapAll(f, ys)[0] == Map(f, ys[0]);
    assert MapAll(f, xs)[1..] == MapAll(f, xs[1..]) && MapAll(f, ys)[1..] == MapAll(f, ys[1..]);
  }

  lemma ThenUpTo(f: string -> Type, st: State, h: Result, r: Result, premature: bool)
    requires h.Unified? && CompleteUpTo(f, st, h, false) && CompleteUpTo(f, h.st, r, premature)
    ensures CompleteUpTo(f, st, r, premature)
  {
  }

  /** A run with a premature binding fails. */
  lemma {:induction false} PrematureFails(st: State, x: Type, y: Type, u: set<string>)
    requires Good(st, u) && Vars(x) <= u && Vars(y) <= u
    ensures Premature(st, x, y, u) ==> Unify(st, x, y, u).Failed?
    decreases |u - st.subst.Keys|, Size(Apply(st.subst, x)), 0
  {
    var a, b := Apply(st.subst, x), Apply(st.subst, y);
    ApplyResolves(st.subst, u, x);
    ApplyResolves(st.subst, u, y);
    if a == b || a.Bottom? || b.Bottom? {
    } else if a.TypeVar? {
      PrematureBindFails(st, a.name, b);
    } else if b.TypeVar? {
      PrematureBindFails(st, b.name, a);
    } else if Compatible(a, b) {
      VarsOfChildren(a);
      VarsOfChildren(b);
      SizeOfChildren(a);
      ResolvedChildren(st.subst, a);
      PrematureAllFails(st, Children(a), Children(b), u);
    }
  }

  lemma PrematureBindFails(st: State, v: string, t: Type)
    ensures PrematureBind(st, v, t) ==> Bind(st, v, t).Failed?
  {
    if PrematureBind(st, v, t) {
      var b :| b in BoundsOf(st.bounds, v) && (Undecided(t, b) || AsksBottom(t, b));
      AsksBottomFails(t, b);
    }
  }

  lemma {:induction false} PrematureAllFails(st: State, xs: seq<Type>, ys: seq<Type>, u: set<string>)
    requires Good(st, u) && VarsAll(xs) <= u && VarsAll(ys) <= u
    ensures PrematureAll(st, xs, ys, u) ==> UnifyAll(st, xs, ys, u).Failed?
    decreases |u - st.subst.Keys|, SizeAll(MapAll(Fn(st.subst), xs)), 1
  {
    if xs != [] && ys != [] {
      UnifyAllStep(st, xs, ys, u);
      PrematureFails(st, xs[0], ys[0], u);
      var h := Unify(st, xs[0], ys[0], u);
      if h.Unified? { PrematureAllFails(h.st, xs[1..], ys[1..], u); }
    }
  }

  // ----- what is lost -----

  function Arr(t: Type): Type { Array(t, None) }

  function Empty(): State { State(map[], {}) }

  function BoundT(): State { State(map["T" := Arr(Bottom)], {}) }

  lemma BindT()
    ensures Good(Empty(), {"T"}) && Good(BoundT(), {"T"}) && Vars(TypeVar("T")) == {"T"} && Vars(Arr(Bottom)) == {}
    ensures Unify(Empty(), TypeVar("T"), Arr(Bottom), {"T"}) == Unified(BoundT())
  {
    assert Vars(Arr(Bottom)) == {};
    ApplyResolved(map[], Arr(Bottom));
    ApplyResolved(map[], TypeVar("T"));
    assert BoundsOf({}, "T") == {};
    assert Extend(map[], "T", Arr(Bottom)) == map["T" := Arr(Bottom)];
    assert AllRequired(Arr(Bottom), {}) == {};
  }

  lemma Forgotten(t: Type)
    requires t.Int? || t.Bool?
    ensures Good(BoundT(), {"T"}) && Vars(TypeVar("T")) == {"T"} && Vars(Arr(t)) == {}
    ensures Unify(BoundT(), TypeVar("T"), Arr(t), {"T"}) == Unified(BoundT())
  {
    BindT();
    ApplyResolved(BoundT().subst, Arr(t));
    assert Apply(BoundT().subst, TypeVar("T")) == Arr(Bottom);
    assert Pruned(Arr(Bottom), Arr(t));
    AppliedBottom(BoundT(), TypeVar("T"), Arr(t), {"T"});
  }

  function Vars3(): seq<Type> { [TypeVar("T"), TypeVar("T"), TypeVar("T")] }

  function Arrays3(): seq<Type> { [Arr(Bottom), Arr(Int), Arr(Bool)] }

  /** Unification can succeed on types that no assignment makes agree: a variable bound to an array of the
      bottom type unifies with arrays of different types. */
  lemma {:induction false} BottomForgets()
    ensures Good(Empty(), {"T"}) && VarsAll(Vars3()) <= {"T"} && VarsAll(Arrays3()) <= {"T"}
    ensures UnifyAll(Empty(), Vars3(), Arrays3(), {"T"}) == Unified(BoundT())
    ensures forall f :: NoBottom(f) ==> !AgreeAll(MapAll(f, Vars3()), MapAll(f, Arrays3()))
  {
    ThreeArrays();
    forall f | NoBottom(f) ensures !AgreeAll(MapAll(f, Vars3()), MapAll(f, Arrays3())) { NotBoth(f); }
  }

  lemma {:induction false} ThreeArrays()
    ensures Good(Empty(), {"T"}) && VarsAll(Vars3()) <= {"T"} && VarsAll(Arrays3()) <= {"T"}
    ensures UnifyAll(Empty(), Vars3(), Arrays3(), {"T"}) == Unified(BoundT())
  {
    var xs, ys := Vars3(), Arrays3();
    BindT();
    Forgotten(Int);
    Forgotten(Bool);
    assert xs[1..] == [TypeVar("T"), TypeVar("T")] && ys[1..] == [Arr(Int), Arr(Bool)];
    assert xs[1..][1..] == [TypeVar("T")] && ys[1..][1..] == [Arr(Bool)];
    assert xs[1..][1..][1..] == [];
    UnifyAllStep(Empty(), xs, ys, {"T"});
    UnifyAllStep(BoundT(), xs[1..], ys[1..], {"T"});
    UnifyAllStep(BoundT(), xs[1..][1..], ys[1..][1..], {"T"});
  }

  lemma NotBoth(f: string -> Type)
    requires NoBottom(f)
    ensures !AgreeAll(MapAll(f, Vars3()), MapAll(f, Arrays3()))
  {
    var xs, ys := MapAll(f, Vars3()), MapAll(f, Arrays3());
    assert All(BottomFree(), f("T")) && xs[1] == xs[2] == f("T") && ys[1] == Arr(Int) && ys[2] == Arr(Bool);
    if Agree(xs[1], ys[1]) { AgreesWithArray(f("T"), Int); }
    if Agree(xs[2], ys[2]) { AgreesWithArray(f("T"), Bool); }
  }

  lemma AgreesWithArray(t: Type, e: Type)
    requires All(BottomFree(), t) && Agree(t, Arr(e)) && e in {Int, Bool}
    ensures t == Arr(e)
  {
    assert Children(Arr(e)) == [e] && All(BottomFree(), e);
    AgreeExact(t, Arr(e));
  }
}
