/** The unifier: a triangular substitution that is resolved on demand. It refines unification over an
    idempotent substitution. */
module TypeUnifier {
  import opened Options
  import opened Collections
  import opened Types
  import opened Unification
  import opened UnifierTheorems

  /** `order` lists the bound variables so that the type bound to a variable mentions neither it nor
      any variable before it. */
  ghost predicate Triangular(s: Subst, order: seq<string>) {
    && (forall i, j :: 0 <= i < j < |order| ==> order[i] != order[j])
    && (forall v :: v in s <==> v in order)
    && (forall i, j :: 0 <= j <= i < |order| ==> order[i] in s && order[j] !in Vars(s[order[i]]))
  }

  /** `resolved` is the fully resolved form of `s`. */
  ghost predicate ResolvedForm(s: Subst, resolved: Subst) {
    resolved.Keys == s.Keys && Idempotent(resolved) && forall v :: v in s ==> resolved[v] == Apply(resolved, s[v])
  }

  /** The first `k` variables. */
  function Firsts(order: seq<string>, k: nat): set<string>
    requires k <= |order|
  {
    set i | 0 <= i < k :: order[i]
  }

  /** The position of a bound variable that is not among the first `k`: its type mentions only later
      variables, and resolves to what the variable resolves to. */
  lemma LaterOnly(s: Subst, order: seq<string>, resolved: Subst, n: string, k: nat) returns (i: nat)
    requires Triangular(s, order) && ResolvedForm(s, resolved) && n in s && k <= |order| && n !in Firsts(order, k)
    ensures k <= i < |order| && order[i] == n && Firsts(order, i + 1) !! Vars(s[n])
    ensures Apply(resolved, TypeVar(n)) == Apply(resolved, s[n])
  {
    i :| 0 <= i < |order| && order[i] == n;
  }

  lemma TriangularExtend(s: Subst, order: seq<string>, v: string, t: Type)
    requires Triangular(s, order) && v !in s && Vars(t) !! s.Keys && v !in Vars(t)
    ensures Triangular(s[v := t], order + [v])
  {
  }

  lemma ResolvedExtend(s: Subst, resolved: Subst, v: string, t: Type)
    requires ResolvedForm(s, resolved) && v !in s && Resolved(resolved, t) && v !in Vars(t)
    ensures ResolvedForm(s[v := t], Extend(resolved, v, t))
  {
    ExtendIdempotent(resolved, v, t);
    var r' := Extend(resolved, v, t);
    ApplyResolved(r', t);
    forall w | w in s ensures r'[w] == Apply(r', s[w]) { ResolvedOther(resolved, v, t, w, s[w]); }
    FormFrom(s, r', v, t);
  }

  lemma FormFrom(s: Subst, r': Subst, v: string, t: Type)
    requires r'.Keys == s.Keys + {v} && Idempotent(r') && v !in s && r'[v] == t && Apply(r', t) == t
    requires forall w :: w in s ==> r'[w] == Apply(r', s[w])
    ensures ResolvedForm(s[v := t], r')
  {
    forall w | w in s[v := t] ensures r'[w] == Apply(r', s[v := t][w]) {
      if w != v { assert w in s; }
    }
  }

  lemma ResolvedOther(resolved: Subst, v: string, t: Type, w: string, x: Type)
    requires v !in resolved && w in resolved && resolved[w] == Apply(resolved, x)
    ensures w in Extend(resolved, v, t) && Extend(resolved, v, t)[w] == Apply(Extend(resolved, v, t), x)
  {
    ApplyExtend(resolved, v, t, x);
  }

  /** Resolves a type. The variables before position `k` do not occur in it any more. */
  method ResolveType(s: Subst, ty: Type, ghost order: seq<string>, ghost resolved: Subst, ghost k: nat) returns (r: Type)
    requires Triangular(s, order) && ResolvedForm(s, resolved) && k <= |order| && Firsts(order, k) !! Vars(ty)
    ensures r == Apply(resolved, ty)
    decreases |order| - k, ty, 1
  {
    match ty
    case TypeVar(n) => r := ResolveVar(s, n, order, resolved, k);
    case Array(base, length) =>
      var b := ResolveType(s, base, order, resolved, k);
      r := Array(b, length);
    case Tuple(items) =>
      var ts := ResolveTypes(s, items, order, resolved, k);
      r := Tuple(ts);
    case Function(params, value) =>
      var ps := ResolveTypes(s, params, order, resolved, k);
      var v := ResolveType(s, value, order, resolved, k);
      r := Function(ps, v);
    case NamedType(n, Args(types)) =>
      var ts := ResolveTypes(s, types, order, resolved, k);
      r := NamedType(n, Args(ts));
    case _ => r := ty;
  }

  method ResolveVar(s: Subst, n: string, ghost order: seq<string>, ghost resolved: Subst, ghost k: nat) returns (r: Type)
    requires Triangular(s, order) && ResolvedForm(s, resolved) && k <= |order| && n !in Firsts(order, k)
    ensures r == Apply(resolved, TypeVar(n))
    decreases |order| - k, TypeVar(n), 0
  {
    if n in s {
      ghost var i := LaterOnly(s, order, resolved, n, k);
      r := ResolveType(s, s[n], order, resolved, i + 1);
    } else {
      r := TypeVar(n);
    }
  }

  method ResolveTypes(s: Subst, types: seq<Type>, ghost order: seq<string>, ghost resolved: Subst, ghost k: nat) returns (r: seq<Type>)
    requires Triangular(s, order) && ResolvedForm(s, resolved) && k <= |order| && Firsts(order, k) !! VarsAll(types)
    ensures r == MapAll(Fn(resolved), types)
    decreases |order| - k, types, 1
  {
    r := [];
    for n := 0 to |types|
      invariant |r| == n && forall i :: 0 <= i < n ==> r[i] == Apply(resolved, types[i])
    {
      var t := ResolveType(s, types[n], order, resolved, k);
      r := r + [t];
    }
  }

  function Pairs(m: map<string, set<string>>): Bounds { set v, b | v in m && b in m[v] :: (v, b) }

  lemma PairsOf(m: map<string, set<string>>, v: string)
    ensures BoundsOf(Pairs(m), v) == if v in m then m[v] else {}
  {
    forall b | v in m && b in m[v] ensures b in BoundsOf(Pairs(m), v) { assert (v, b) in Pairs(m); }
  }

  /** Bounds on unbound variables do not affect the bounds on bound ones. */
  lemma MoreBounds(st: State, bs: Bounds)
    requires BoundsHold(st) && st.bounds <= bs && forall x :: x in bs && x !in st.bounds ==> x.0 !in st.subst
    ensures BoundsHold(State(st.subst, bs))
  {
    forall x | x in bs && x.0 in st.subst ensures Satisfies(bs, st.subst[x.0], x.1) {
      SatisfiesMore(st.bounds, bs, st.subst[x.0], x.1);
    }
  }

  /** Checks a trait that depends on the type alone. */
  method CheckBound(t: Type, bound: string) returns (ok: bool)
    requires !t.TypeVar? && !((t.Array? || t.Tuple?) && bound == "ToString")
    ensures Required(t, bound) == if ok then Some({}) else None
  {
    if t.NamedType? {
      ok := bound == "ToSelectedExprs" && t.path == "std::prelude::SelectedExprs";
    } else {
      ok := bound in ElementaryBounds(t);
    }
  }

  // ----- fresh variables -----

  function VarName(k: nat): string { "T" + Digits(k) }

  lemma VarNamesDiffer(j: nat, k: nat)
    requires VarName(j) == VarName(k)
    ensures j == k
  {
    assert VarName(j)[1..] == Digits(j) && VarName(k)[1..] == Digits(k);
    DigitsInjective(j, k);
  }

  lemma LaterName(j: nat, k: nat)
    requires j > k
    ensures VarName(j) != VarName(k)
  {
    if VarName(j) == VarName(k) { VarNamesDiffer(j, k); }
  }

  function NewNames(base: nat, n: nat): (r: seq<string>)
    ensures |r| == n && forall i :: 0 <= i < n ==> r[i] == VarName(base + i + 1)
  {
    seq(n, i requires 0 <= i => VarName(base + i + 1))
  }

  lemma Consecutive(names: seq<string>, base: nat)
    requires names == NewNames(base, |names|)
    ensures Distinct(names)
  {
    forall i, j | 0 <= i < j < |names| ensures names[i] != names[j] {
      if names[i] == names[j] { VarNamesDiffer(base + i + 1, base + j + 1); }
    }
  }

  /** Bounds on a new variable leave other variables unmentioned. */
  lemma OtherBounds(bs: Bounds, n: string, bounds: set<string>, v: string)
    requires v != n && forall x :: x in bs ==> x.0 != v
    ensures forall x :: x in bs + AllRequired(TypeVar(n), bounds) ==> x.0 != v
  {
  }

  /** A type scheme: quantified variables with their bounds, and a type. */
  datatype Scheme = Scheme(vars: seq<(string, set<string>)>, ty: Type)

  /** Renames the first `|names|` variables of a scheme; of a repeated variable, the last one counts. */
  function Renaming(vars: seq<(string, set<string>)>, names: seq<string>): Subst
    requires |names| <= |vars|
  {
    if names == [] then map[]
    else var k := |names| - 1; Renaming(vars, names[..k])[vars[k].0 := TypeVar(names[k])]
  }

  /** The bounds of a scheme, on the new variables. */
  function SchemeBounds(vars: seq<(string, set<string>)>, names: seq<string>): Bounds
    requires |names| <= |vars|
  {
    if names == [] then {}
    else var k := |names| - 1; SchemeBounds(vars, names[..k]) + set b | b in vars[k].1 :: (names[k], b)
  }

  lemma SchemeBoundsStep(vars: seq<(string, set<string>)>, names: seq<string>, n: string)
    requires |names| < |vars|
    ensures SchemeBounds(vars, names + [n]) == SchemeBounds(vars, names) + AllRequired(TypeVar(n), vars[|names|].1)
    ensures Renaming(vars, names + [n]) == Renaming(vars, names)[vars[|names|].0 := TypeVar(n)]
  {
    assert (names + [n])[..|names|] == names;
    var bs := vars[|names|].1;
    forall b | b in bs ensures (n, b) in AllRequired(TypeVar(n), bs) { assert (n, b) in Required(TypeVar(n), b).value; }
  }

  /** The new variables take every value: instantiating the new type gives every instance of the
      scheme, and leaves all other variables alone. `g` gives the instance and `f` the assignment. */
  lemma SchemeInstances(scheme: Scheme, names: seq<string>, f: string -> Type, g: string -> Type)
    requires |names| == |scheme.vars|
    requires forall v :: v in Vars(scheme.ty) ==> g(v) == Map(f, Fn(Renaming(scheme.vars, names))(v))
    ensures Map(f, Apply(Renaming(scheme.vars, names), scheme.ty)) == Map(g, scheme.ty)
  {
    MapTwice(f, Fn(Renaming(scheme.vars, names)), g, scheme.ty);
  }

  class Unifier {
    var typeVarBounds: map<string, set<string>>
    var substitutions: Subst
    var lastTypeVar: nat
    ghost var order: seq<string>
    ghost var resolved: Subst

    ghost predicate Valid()
      reads this
    {
      Triangular(substitutions, order) && ResolvedForm(substitutions, resolved) && BoundsHold(Value())
    }

    ghost function Value(): State
      reads this
    {
      State(resolved, Pairs(typeVarBounds))
    }

    constructor ()
      ensures Valid() && Value() == State(map[], {}) && FreshNames()
    {
      typeVarBounds, substitutions, order, resolved := map[], map[], [], map[];
      lastTypeVar := 0;
    }

    /** The state does not mention a variable. */
    ghost predicate Unused(n: string)
      reads this
    {
      && n !in substitutions && (forall v :: v in substitutions ==> n !in Vars(substitutions[v]))
      && forall x :: x in Pairs(typeVarBounds) ==> x.0 != n
    }

    /** The state mentions no variable that is still to be created. */
    ghost predicate FreshNames()
      reads this
    {
      forall k :: k > lastTypeVar ==> Unused(VarName(k))
    }

    method NewTypeVarName() returns (n: string)
      modifies this`lastTypeVar
      ensures lastTypeVar == old(lastTypeVar) + 1 && n == VarName(lastTypeVar)
    {
      lastTypeVar := lastTypeVar + 1;
      n := VarName(lastTypeVar);
    }

    /** New variables with the bounds of the quantified ones. */
    method InstantiateVars(vars: seq<(string, set<string>)>) returns (names: seq<string>)
      requires Valid() && FreshNames()
      modifies this`typeVarBounds, this`lastTypeVar
      ensures Valid() && FreshNames() && names == NewNames(old(lastTypeVar), |vars|)
      ensures Pairs(typeVarBounds) == old(Pairs(typeVarBounds)) + SchemeBounds(vars, names)
    {
      names := [];
      while |names| < |vars|
        invariant Valid() && FreshNames() && |names| <= |vars| && lastTypeVar == old(lastTypeVar) + |names|
        invariant names == NewNames(old(lastTypeVar), |names|)
        invariant Pairs(typeVarBounds) == old(Pairs(typeVarBounds)) + SchemeBounds(vars, names)
      {
        var n := NewBoundedVar(vars[|names|].1);
        SchemeBoundsStep(vars, names, n);
        names := names + [n];
      }
    }

    /** Replaces the quantified variables of a scheme by new ones with the same bounds. */
    method InstantiateScheme(scheme: Scheme) returns (ty: Type, names: seq<string>)
      requires Valid() && FreshNames()
      modifies this`typeVarBounds, this`lastTypeVar
      ensures Valid() && FreshNames() && |names| == |scheme.vars| && Distinct(names)
      ensures forall i :: 0 <= i < |names| ==> old(Unused(names[i]))
      ensures ty == Apply(Renaming(scheme.vars, names), scheme.ty)
      ensures Pairs(typeVarBounds) == old(Pairs(typeVarBounds)) + SchemeBounds(scheme.vars, names)
    {
      ghost var last := lastTypeVar;
      names := InstantiateVars(scheme.vars);
      Consecutive(names, last);
      ty := Apply(Renaming(scheme.vars, names), scheme.ty);
    }

    /** A new variable with the given bounds. */
    method NewBoundedVar(bounds: set<string>) returns (n: string)
      requires Valid() && FreshNames()
      modifies this`typeVarBounds, this`lastTypeVar
      ensures Valid() && FreshNames() && lastTypeVar == old(lastTypeVar) + 1 && n == VarName(lastTypeVar)
      ensures Pairs(typeVarBounds) == old(Pairs(typeVarBounds)) + AllRequired(TypeVar(n), bounds)
    {
      n := NewTypeVarName();
      assert old(Unused(n));
      var ok := EnsureAll(TypeVar(n), bounds);
      assert ok;
      forall k | k > lastTypeVar ensures Unused(VarName(k)) {
        assert old(Unused(VarName(k)));
        LaterName(k, lastTypeVar);
        OtherBounds(old(Pairs(typeVarBounds)), n, bounds, VarName(k));
      }
    }

    /** Applies the substitution recursively. */
    method Substitute(ty: Type) returns (r: Type)
      requires Valid()
      ensures r == Apply(resolved, ty)
    {
      r := ResolveType(substitutions, ty, order, resolved, 0);
    }

    /** Records or checks that the type satisfies the trait `bound`. */
    method EnsureBound(ty: Type, bound: string) returns (ok: bool)
      requires Valid()
      modifies this`typeVarBounds
      ensures Valid() && old(Pairs(typeVarBounds)) <= Pairs(typeVarBounds)
      ensures forall x :: x in Pairs(typeVarBounds) && x !in old(Pairs(typeVarBounds)) ==> x.0 !in substitutions
      ensures ok <==> Required(Apply(resolved, ty), bound).Some?
      ensures ok ==> Pairs(typeVarBounds) == old(Pairs(typeVarBounds)) + Required(Apply(resolved, ty), bound).value
      decreases Size(Apply(resolved, ty)), 1
    {
      var t := Substitute(ty);
      ApplyResolves(resolved, {}, ty);
      ok := EnsureResolved(t, bound);
    }

    method EnsureResolved(t: Type, bound: string) returns (ok: bool)
      requires Valid() && Resolved(resolved, t)
      modifies this`typeVarBounds
      ensures Valid() && old(Pairs(typeVarBounds)) <= Pairs(typeVarBounds)
      ensures forall x :: x in Pairs(typeVarBounds) && x !in old(Pairs(typeVarBounds)) ==> x.0 !in substitutions
      ensures ok <==> Required(t, bound).Some?
      ensures ok ==> Pairs(typeVarBounds) == old(Pairs(typeVarBounds)) + Required(t, bound).value
      decreases Size(t), 0
    {
      if t.TypeVar? {
        AddTypeVarBound(t.name, bound);
        ok := true;
      } else if t.Array? && bound == "ToString" {
        ApplyResolved(resolved, t.base);
        ok := EnsureBound(t.base, bound);
      } else if t.Tuple? && bound == "ToString" {
        ok := EnsureBounds(t.items, bound);
      } else {
        ok := CheckBound(t, bound);
      }
    }

    method EnsureBounds(types: seq<Type>, bound: string) returns (ok: bool)
      requires Valid() && VarsAll(types) !! substitutions.Keys
      modifies this`typeVarBounds
      ensures Valid() && old(Pairs(typeVarBounds)) <= Pairs(typeVarBounds)
      ensures forall x :: x in Pairs(typeVarBounds) && x !in old(Pairs(typeVarBounds)) ==> x.0 !in substitutions
      ensures ok <==> RequiredAll(types, bound).Some?
      ensures ok ==> Pairs(typeVarBounds) == old(Pairs(typeVarBounds)) + RequiredAll(types, bound).value
      decreases SizeAll(types), 2, |types|
    {
      ok := true;
      if types != [] {
        ApplyResolved(resolved, types[0]);
        SizeOfChildren(types[0]);
        ok := EnsureBound(types[0], bound);
        if ok { ok := EnsureBounds(types[1..], bound); }
      }
    }

    method AddTypeVarBound(v: string, bound: string)
      requires Valid() && v !in substitutions
      modifies this`typeVarBounds
      ensures Valid() && Pairs(typeVarBounds) == old(Pairs(typeVarBounds)) + {(v, bound)}
    {
      var bounds := (if v in typeVarBounds then typeVarBounds[v] else {}) + {bound};
      typeVarBounds := typeVarBounds[v := bounds];
      MoreBounds(old(Value()), Pairs(typeVarBounds));
    }
  
    /** Binds an unbound variable to a type. */
    method AddSubstitution(v: string, ty: Type) returns (ok: bool)
      requires Valid() && v !in substitutions
      modifies this
      ensures Valid()
      ensures ok <==> Bind(old(Value()), v, Apply(old(resolved), ty)).Unified?
      ensures ok ==> Value() == Bind(old(Value()), v, Apply(old(resolved), ty)).st
      ensures !ok ==> resolved == old(resolved)
    {
      var t := Substitute(ty);
      ApplyResolves(resolved, {}, ty);
      if v in Vars(t) { return false; }
      ghost var st := Value();
      var bounds := if v in typeVarBounds then typeVarBounds[v] else {};
      PairsOf(typeVarBounds, v);
      ok := EnsureAll(t, bounds);
      BindResult(st, v, t);
      if ok { Insert(v, t, st); }
    }

    /** Enters a binding whose bounds have been ensured, coming from the state `st`. */
    method Insert(v: string, t: Type, ghost st: State)
      requires Valid() && v !in substitutions && v !in Vars(t) && Resolved(resolved, t)
      requires st.subst == resolved && BoundsHold(st) && Bind(st, v, t) == Unified(State(Extend(resolved, v, t), Pairs(typeVarBounds)))
      modifies this
      ensures Valid() && Value() == Bind(st, v, t).st
    {
      TriangularExtend(substitutions, order, v, t);
      ResolvedExtend(substitutions, resolved, v, t);
      BindKeepsBounds(st, v, t);
      substitutions, order, resolved := substitutions[v := t], order + [v], Extend(resolved, v, t);
    }

    /** Ensures the bounds in any order. */
    method EnsureAll(t: Type, bounds: set<string>) returns (ok: bool)
      requires Valid() && Resolved(resolved, t)
      modifies this`typeVarBounds
      ensures Valid()
      ensures ok <==> forall b :: b in bounds ==> Required(t, b).Some?
      ensures ok ==> Pairs(typeVarBounds) == old(Pairs(typeVarBounds)) + AllRequired(t, bounds)
    {
      ApplyResolved(resolved, t);
      var rest := bounds;
      ghost var done: set<string> := {};
      while rest != {}
        invariant Valid() && done + rest == bounds
        invariant forall b :: b in done ==> Required(t, b).Some?
        invariant Pairs(typeVarBounds) == old(Pairs(typeVarBounds)) + AllRequired(t, done)
        decreases rest
      {
        var b :| b in rest;
        ok := EnsureBound(t, b);
        if !ok { return; }
        AllRequiredMore(t, done, b);
        rest, done := rest - {b}, done + {b};
      }
      ok := true;
    }

    /** Makes two types equal by binding variables. `u` holds all variables involved. */
    method UnifyTypes(inner: Type, expected: Type, ghost u: set<string>) returns (ok: bool)
      requires Valid() && Good(Value(), u) && Vars(inner) <= u && Vars(expected) <= u
      modifies this
      ensures Valid() && Good(Value(), u)
      ensures ok <==> Unify(old(Value()), inner, expected, u).Unified?
      ensures ok ==> Value() == Unify(old(Value()), inner, expected, u).st
      decreases |u - resolved.Keys|, Size(Apply(resolved, inner)), 0
    {
      var a := Substitute(inner);
      var b := Substitute(expected);
      ApplyResolves(resolved, u, inner);
      ApplyResolves(resolved, u, expected);
      if a == b || a.Bottom? || b.Bottom? {
        ok := true;
      } else if a.TypeVar? {
        ok := BindVariable(a.name, b, u);
      } else if b.TypeVar? {
        ok := BindVariable(b.name, a, u);
      } else if Compatible(a, b) {
        VarsOfChildren(a);
        VarsOfChildren(b);
        SizeOfChildren(a);
        ResolvedChildren(resolved, a);
        ok := UnifyTypeLists(Children(a), Children(b), u);
      } else {
        ok := false;
      }
    }

    /** Binds an unbound variable to a substituted type. */
    method BindVariable(v: string, t: Type, ghost u: set<string>) returns (ok: bool)
      requires Valid() && Good(Value(), u) && v in u && v !in resolved && Resolved(resolved, t) && Vars(t) <= u
      modifies this
      ensures Valid() && Good(Value(), u)
      ensures ok <==> Bind(old(Value()), v, t).Unified?
      ensures ok ==> Value() == Bind(old(Value()), v, t).st
    {
      BindGood(Value(), v, t, u);
      ApplyResolved(resolved, t);
      ok := AddSubstitution(v, t);
    }

    method UnifyTypeLists(xs: seq<Type>, ys: seq<Type>, ghost u: set<string>) returns (ok: bool)
      requires Valid() && Good(Value(), u) && VarsAll(xs) <= u && VarsAll(ys) <= u
      modifies this
      ensures Valid() && Good(Value(), u)
      ensures ok <==> UnifyAll(old(Value()), xs, ys, u).Unified?
      ensures ok ==> Value() == UnifyAll(old(Value()), xs, ys, u).st
      decreases |u - resolved.Keys|, SizeAll(MapAll(Fn(resolved), xs)), 1
    {
      ok := true;
      if xs != [] && ys != [] {
        UnifyAllStep(Value(), xs, ys, u);
        ok := UnifyTypes(xs[0], ys[0], u);
        if ok { ok := UnifyTypeLists(xs[1..], ys[1..], u); }
      }
    }
  }

  lemma BindResult(st: State, v: string, t: Type)
    requires v !in Vars(t)
    ensures var bs := BoundsOf(st.bounds, v);
            if forall b :: b in bs ==> Required(t, b).Some? then Bind(st, v, t) == Unified(State(Extend(st.subst, v, t), st.bounds + AllRequired(t, bs)))
            else Bind(st, v, t) == Failed
  {
  }

  lemma AllRequiredMore(t: Type, bs: set<string>, b: string)
    requires Required(t, b).Some?
    ensures AllRequired(t, bs + {b}) == AllRequired(t, bs) + Required(t, b).value
  {
    forall x | x in AllRequired(t, bs + {b}) ensures x in AllRequired(t, bs) + Required(t, b).value {
      var c :| c in bs + {b} && Required(t, c).Some? && x in Required(t, c).value;
      if c != b { assert c in bs; }
    }
    forall x | x in AllRequired(t, bs) + Required(t, b).value ensures x in AllRequired(t, bs + {b}) {
      if x in AllRequired(t, bs) {
        var c :| c in bs && Required(t, c).Some? && x in Required(t, c).value;
        assert c in bs + {b};
      } else {
        assert b in bs + {b};
      }
    }
  }

  /** Following the bindings from the last one back. */
  lemma {:induction false} TriangularSolution(f: string -> Type, s: Subst, order: seq<string>, resolved: Subst, i: nat)
    requires Triangular(s, order) && ResolvedForm(s, resolved) && Solves(f, s) && i < |order|
    ensures f(order[i]) == Map(f, resolved[order[i]])
    decreases |order| - i
  {
    var t := s[order[i]];
    forall w | w in Vars(t) ensures f(w) == Map(f, Fn(resolved)(w)) {
      if w in resolved {
        var j :| 0 <= j < |order| && order[j] == w;
        assert i < j;
        TriangularSolution(f, s, order, resolved, j);
      }
    }
    MapTwice(f, Fn(resolved), f, t);
  }

  /** The triangular substitution and its resolved form have the same solutions. */
  lemma SameSolutions(f: string -> Type, s: Subst, order: seq<string>, resolved: Subst)
    requires Triangular(s, order) && ResolvedForm(s, resolved)
    ensures Solves(f, s) <==> Solves(f, resolved)
  {
    if Solves(f, s) {
      forall v | v in resolved ensures f(v) == Map(f, resolved[v]) {
        var i :| 0 <= i < |order| && order[i] == v;
        TriangularSolution(f, s, order, resolved, i);
      }
    }
    if Solves(f, resolved) {
      forall v | v in s ensures f(v) == Map(f, s[v]) { SolvesApply(f, resolved, s[v]); }
    }
  }
}
