/** The symbol table that creates columns: it dispenses a fresh id and a fresh name for every new column.
    Values computed over it survive the round trip, columns created on the way included. */
module CondenserRuns {
  import opened Collections
  import opened Congruence
  import opened Options
  import opened Types
  import opened PilLang
  import opened BigStep
  import opened PolyIds
  import opened Relation
  import opened Expressionizer
  import opened RoundTrip
  import opened BuildableRuns

  /** All symbols known so far, the table of column starts, and the id counters. */
  datatype Registry = Registry(symbols: seq<Symbol>, table: Table, counters: map<SymbolKind, nat>)

  /** What the symbol table knows besides the columns: `defined` are the names of all other definitions. */
  datatype Base = Base(
    p: Modulus,
    lib: IntLib,
    builtins: set<string>,
    defined: set<string>,
    publics: set<string>,
    lookup: (Registry, string, Option<seq<Type>>) -> Outcome<(Value, Registry)>,
    addProofItems: (Registry, Value) -> Outcome<Registry>,
    builtin: (Registry, string, seq<Value>) -> Outcome<(Value, Registry)>)

  function NamesOf(symbols: seq<Symbol>): set<string> { set c | c in symbols :: c.name }

  function FindColumn(symbols: seq<Symbol>, name: string): (r: Option<Symbol>)
    ensures r.Some? ==> r.value in symbols && r.value.name == name && r.value.kind.Poly?
  {
    if symbols == [] then None
    else if symbols[0].name == name && symbols[0].kind.Poly? then Some(symbols[0])
    else FindColumn(symbols[1..], name)
  }

  // ----- unused names -----

  /** The name itself, then the name with a number. */
  function Candidate(name: string, k: nat): string { if k == 0 then name else name + "_" + Digits(k) }

  lemma CandidatesDiffer(name: string, j: nat, k: nat)
    requires Candidate(name, j) == Candidate(name, k)
    ensures j == k
  {
    if j > 0 { assert |Candidate(name, j)| > |name| && Candidate(name, j)[|name| + 1..] == Digits(j); }
    if k > 0 { assert |Candidate(name, k)| > |name| && Candidate(name, k)[|name| + 1..] == Digits(k); }
    if j > 0 && k > 0 { DigitsInjective(j, k); }
  }

  ghost function Tried(name: string, k: nat): set<string> { set i | 0 <= i < k :: Candidate(name, i) }

  /** The first candidate from the k-th on that is not taken. */
  function FindUnused(name: string, taken: set<string>, k: nat): (r: string)
    ensures r !in taken
    decreases |taken - Tried(name, k)|
  {
    if Candidate(name, k) !in taken then Candidate(name, k)
    else
      TriedGrows(name, taken, k);
      FindUnused(name, taken, k + 1)
  }

  lemma TriedGrows(name: string, taken: set<string>, k: nat)
    requires Candidate(name, k) in taken
    ensures |taken - Tried(name, k + 1)| < |taken - Tried(name, k)|
  {
    var c := Candidate(name, k);
    forall i | 0 <= i < k ensures Candidate(name, i) != c { if Candidate(name, i) == c { CandidatesDiffer(name, i, k); } }
    assert Tried(name, k + 1) == Tried(name, k) + {c};
    assert taken - Tried(name, k + 1) == (taken - Tried(name, k)) - {c};
  }

  /** The name itself if it is free, or else with the smallest number that makes it so. */
  lemma {:induction false} FirstUnused(name: string, taken: set<string>, k: nat)
    ensures exists j: nat :: k <= j && FindUnused(name, taken, k) == Candidate(name, j) && forall i: nat :: k <= i < j ==> Candidate(name, i) in taken
    decreases |taken - Tried(name, k)|
  {
    if Candidate(name, k) in taken {
      TriedGrows(name, taken, k);
      FirstUnused(name, taken, k + 1);
      var j: nat :| k + 1 <= j && FindUnused(name, taken, k + 1) == Candidate(name, j) && forall i: nat :: k + 1 <= i < j ==> Candidate(name, i) in taken;
      forall i: nat | k <= i < j ensures Candidate(name, i) in taken { }
    } else {
      assert k <= k && FindUnused(name, taken, k) == Candidate(name, k);
    }
  }

  // ----- creating columns -----

  /** Kind and length of a new column. */
  datatype Shape = Shape(ptype: PolyType, length: Option<nat>)

  predicate AllExpressions(v: Value) { v.VArray? && forall y :: y in v.items ==> y.VExpr? }

  ghost function ShapeOf(p: Modulus, table: Table, ty: Option<Type>, v: Option<Value>): Outcome<Shape> {
    if v.Some? && ty == Some(Inter) then
      if v.value.VExpr? then Ok(Shape(Intermediate, None)) else Err(Panic)
    else if v.Some? && ty.Some? && ty.value.Array? && ty.value.base.Inter? then
      if !v.value.VArray? then Err(Panic)
      else if ty.value.length.Some? && ty.value.length.value != |v.value.items| then Err(TypeError)
      else if !AllExpressions(v.value) then Err(Panic)
      else Ok(Shape(Intermediate, Some(|v.value.items|)))
    else if ty.None? || ty == Some(Column) then
      if v.None? then Ok(Shape(Committed, None))
      else
        var e := ToExpr(p, table, v.value);
        if e.Err? then Err(e.error) else Ok(Shape(Constant, None))
    else Err(TypeError)
  }

  function NewSymbol(base: Base, s: Registry, name: string, shape: Shape): (c: Symbol)
    ensures c.kind.Poly? && c.name !in NamesOf(s.symbols) && c.name !in base.defined
  {
    var kind := Poly(shape.ptype);
    Symbol(FindUnused(name, NamesOf(s.symbols) + base.defined, 0), kind, Next(s.counters, kind), shape.length)
  }

  function Register(s: Registry, c: Symbol): Registry
    requires c.kind.Poly?
  {
    Registry(s.symbols + [c], s.table[(c.kind.ptype, c.id) := c.name], s.counters[c.kind := c.id + Length(c)])
  }

  ghost function NewColumn(base: Base, s: Registry, name: string, ty: Option<Type>, v: Option<Value>): Outcome<(Value, Registry)> {
    var shape := ShapeOf(base.p, s.table, ty, v);
    if shape.Err? then Err(shape.error)
    else
      var c := NewSymbol(base, s, name, shape.value);
      Ok((ColumnValue(c), Register(s, c)))
  }

  predicate OfInter(ty: Option<Type>) { ty == Some(Inter) || (ty.Some? && ty.value.Array? && ty.value.base == Inter) }

  /** What is created: one column, of a witness if there is no value, intermediate if its type says so, and
      otherwise fixed, with a value that converts to an expression. Only an array of intermediate columns is an
      array, with one column for each value, and of the declared length if there is one. */
  lemma CreatedColumn(base: Base, s: Registry, name: string, ty: Option<Type>, v: Option<Value>)
    ensures var r := NewColumn(base, s, name, ty, v);
            r.Ok? ==>
              && |r.value.1.symbols| == |s.symbols| + 1 && s.symbols <= r.value.1.symbols
              && var c := r.value.1.symbols[|s.symbols|];
              && c.kind == Poly(if v == None then Committed else if OfInter(ty) then Intermediate else Constant)
              && (c.length.Some? <==> ty.Some? && ty.value.Array?)
              && (c.length.Some? ==>
                    v.Some? && v.value.VArray? && c.length.value == |v.value.items|
                    && (ty.value.length.Some? ==> ty.value.length == c.length) && forall x :: x in v.value.items ==> x.VExpr?)
              && (c.kind == Poly(Constant) ==> ToExpr(base.p, s.table, v.value).Ok?)
              && r.value.0 == ColumnValue(c)
  {
  }

  function LookupColumn(base: Base, s: Registry, name: string, ts: Option<seq<Type>>): Outcome<(Value, Registry)> {
    var c := if name in base.defined then None else FindColumn(s.symbols, name);
    if c.Some? then Ok((ColumnValue(c.value), s)) else base.lookup(s, name, ts)
  }

  function PublicValue(base: Base, name: string): Outcome<Value> {
    if name in base.publics then Ok(VExpr(AlgPublic(name))) else Err(SymbolNotFound)
  }

  /** The symbol table. */
  ghost function CondenserSymbols(base: Base): Symbols<Registry> {
    GSymbols.Symbols(base.p, base.lib, base.builtins,
      (s: Registry, n: string, ts: Option<seq<Type>>) => LookupColumn(base, s, n, ts),
      (s: Registry, n: string) => PublicValue(base, n),
      (s: Registry, n: string, ty: Option<Type>, v: Option<Value>) => NewColumn(base, s, n, ty, v),
      (s: Registry, v: Value) => base.addProofItems(s, v),
      (s: Registry, n: string, vs: seq<Value>) => base.builtin(s, n, vs))
  }

  // ----- the registry only grows -----

  /** Ranges are disjoint, ids decode, and names are distinct from each other and from definitions. */
  ghost predicate Sound(base: Base, s: Registry) {
    Registered(s.symbols, s.table, s.counters) && DistinctNames(s.symbols) && forall c :: c in s.symbols ==> c.name !in base.defined
  }

  predicate DistinctNames(symbols: seq<Symbol>) { forall i, j :: 0 <= i < j < |symbols| ==> symbols[i].name != symbols[j].name }

  ghost function Later(base: Base): (Registry, Registry) -> bool {
    (a: Registry, b: Registry) => a.symbols <= b.symbols && (Sound(base, a) ==> Sound(base, b))
  }

  /** All symbols known in the state are in the context. */
  function Known(x: Context): Registry -> bool { (s: Registry) => forall c :: c in s.symbols ==> c in x.symbols }

  /** The other answers only add to the registry and keep it sound. */
  ghost predicate BaseGrows(base: Base) { base.builtins <= base.defined && forall s :: BaseGrowsAt(base, s) }

  ghost predicate BaseGrowsAt(base: Base, s: Registry) {
    && (forall n, ts :: AnswerBy(Later(base), s, base.lookup(s, n, ts)))
    && (forall n, vs :: AnswerBy(Later(base), s, base.builtin(s, n, vs)))
    && (forall v :: ItemsBy(Later(base), s, base.addProofItems(s, v)))
  }

  /** The other answers are buildable over the columns known in the end. */
  ghost predicate BaseBuilds(x: Context, base: Base) { forall s :: BaseBuildsAt(x, base, s) }

  ghost predicate BaseBuildsAt(x: Context, base: Base, s: Registry) {
    && (forall n, ts :: ResBuildable(x, Known(x), LiftPair(base.lookup(s, n, ts))))
    && (forall n, vs :: AllBuildable(x, vs) ==> ResBuildable(x, Known(x), LiftPair(base.builtin(s, n, vs))))
  }

  lemma RegisterKeeps(base: Base, s: Registry, name: string, shape: Shape)
    ensures Later(base)(s, Register(s, NewSymbol(base, s, name, shape)))
  {
    var c := NewSymbol(base, s, name, shape);
    if Sound(base, s) {
      RegisterOne(s.symbols, s.table, s.counters, c);
      forall i | 0 <= i < |s.symbols| ensures s.symbols[i].name != c.name { assert s.symbols[i].name in NamesOf(s.symbols); }
    }
  }

  lemma CondenserGrowsAt(base: Base, s: Registry)
    requires BaseGrows(base)
    ensures AnswersBy(CondenserSymbols(base), Later(base), s)
  {
    var sy := CondenserSymbols(base);
    assert BaseGrowsAt(base, s);
    forall n, ts ensures AnswerBy(Later(base), s, sy.lookup(s, n, ts)) { assert AnswerBy(Later(base), s, base.lookup(s, n, ts)); }
    forall n, ty, v ensures AnswerBy(Later(base), s, sy.newColumn(s, n, ty, v)) {
      var shape := ShapeOf(base.p, s.table, ty, v);
      if shape.Ok? { RegisterKeeps(base, s, n, shape.value); }
    }
    forall n, vs ensures AnswerBy(Later(base), s, sy.builtin(s, n, vs)) { assert AnswerBy(Later(base), s, base.builtin(s, n, vs)); }
    forall v ensures ItemsBy(Later(base), s, sy.addProofItems(s, v)) { assert ItemsBy(Later(base), s, base.addProofItems(s, v)); }
  }

  /** Evaluation only adds columns, and keeps the registry sound. */
  lemma EvalGrows(base: Base, fuel: nat, e: PExpr, l: seq<Value>, targs: map<string, Type>, s: Registry)
    requires BaseGrows(base)
    ensures ResBy(Later(base), s, Eval(fuel, CondenserSymbols(base), e, l, targs, s))
  {
    forall a ensures AnswersBy(CondenserSymbols(base), Later(base), a) { CondenserGrowsAt(base, a); }
    EvalBy(fuel, CondenserSymbols(base), Later(base), e, l, targs, s);
  }

  // ----- what it returns is buildable -----

  lemma ColumnBuildable(x: Context, c: Symbol)
    requires c.kind.Poly? && c in x.symbols
    ensures Buildable(x, ColumnValue(c))
  {
    var i :| 0 <= i < |x.symbols| && x.symbols[i] == c;
    forall k: nat | k < Length(c) ensures Buildable(x, Element(c, k)) { ElementBuildable(x, i, k); }
  }

  lemma ElementBuildable(x: Context, i: nat, k: nat)
    requires i < |x.symbols| && x.symbols[i].kind.Poly? && k < Length(x.symbols[i])
    ensures Buildable(x, Element(x.symbols[i], k))
  {
    var c := x.symbols[i];
    assert ElementOf(c, ElementName(c, k), c.kind.ptype, c.id + k);
  }

  lemma CondenserBackAt(x: Context, base: Base, s: Registry)
    requires BaseGrows(base)
    ensures AnswersBy(CondenserSymbols(base), Back(Known(x)), s)
  {
    CondenserGrowsAt(base, s);
    var sy := CondenserSymbols(base);
    forall n, ts ensures AnswerBy(Back(Known(x)), s, sy.lookup(s, n, ts)) { LaterBack(x, base, s, sy.lookup(s, n, ts)); }
    forall n, ty, v ensures AnswerBy(Back(Known(x)), s, sy.newColumn(s, n, ty, v)) { LaterBack(x, base, s, sy.newColumn(s, n, ty, v)); }
    forall n, vs ensures AnswerBy(Back(Known(x)), s, sy.builtin(s, n, vs)) { LaterBack(x, base, s, sy.builtin(s, n, vs)); }
    forall v ensures ItemsBy(Back(Known(x)), s, sy.addProofItems(s, v)) {
      assert ItemsBy(Later(base), s, sy.addProofItems(s, v));
    }
  }

  lemma LaterBack(x: Context, base: Base, s: Registry, o: Outcome<(Value, Registry)>)
    requires AnswerBy(Later(base), s, o)
    ensures AnswerBy(Back(Known(x)), s, o)
  {
  }

  lemma CondenserBuildsAt(x: Context, base: Base, s: Registry)
    requires BaseGrows(base) && BaseBuilds(x, base) && base.publics <= x.publics
    ensures BuildAt(x, CondenserSymbols(base), Known(x), s)
  {
    var sy := CondenserSymbols(base);
    assert BaseBuildsAt(x, base, s);
    forall n, ts ensures ResBuildable(x, Known(x), LiftPair(sy.lookup(s, n, ts))) {
      var c := if n in base.defined then None else FindColumn(s.symbols, n);
      if c.Some? && Known(x)(s) { ColumnBuildable(x, c.value); }
      assert ResBuildable(x, Known(x), LiftPair(base.lookup(s, n, ts)));
    }
    forall n, ty, v: Option<Value> ensures ResBuildable(x, Known(x), LiftPair(sy.newColumn(s, n, ty, v))) {
      NewColumnBuildable(x, base, s, n, ty, v);
    }
    forall n, vs | AllBuildable(x, vs) ensures ResBuildable(x, Known(x), LiftPair(sy.builtin(s, n, vs))) {
      assert ResBuildable(x, Known(x), LiftPair(base.builtin(s, n, vs)));
    }
  }

  lemma NewColumnBuildable(x: Context, base: Base, s: Registry, name: string, ty: Option<Type>, v: Option<Value>)
    ensures ResBuildable(x, Known(x), LiftPair(NewColumn(base, s, name, ty, v)))
  {
    var shape := ShapeOf(base.p, s.table, ty, v);
    if shape.Ok? {
      var c := NewSymbol(base, s, name, shape.value);
      assert c in Register(s, c).symbols;
      if Known(x)(Register(s, c)) { ColumnBuildable(x, c); }
    }
  }

  /** A symbol table that dispenses fresh columns builds only values over the columns it knows in the
      end. */
  lemma CondenserBuilds(x: Context, base: Base)
    requires x.p == base.p && PreludeDeclared(x) && BaseGrows(base) && BaseBuilds(x, base) && base.publics <= x.publics
    ensures SymbolsBuild(x, CondenserSymbols(base), Known(x))
  {
    var sy := CondenserSymbols(base);
    forall s ensures AnswersBy(sy, Back(Known(x)), s) { CondenserBackAt(x, base, s); }
    forall s ensures BuildAt(x, sy, Known(x), s) { CondenserBuildsAt(x, base, s); }
  }

  // ----- the round trip -----

  /** The world in which a value is evaluated again: at least the columns of `x` are known. */
  ghost function WorldOf(base: Base, x: Context): World<Registry> {
    World(CondenserSymbols(base), x, (s: Registry) => x.symbols <= s.symbols)
  }

  lemma {:induction false} FindDistinct(symbols: seq<Symbol>, i: nat)
    requires i < |symbols| && DistinctNames(symbols) && symbols[i].kind.Poly?
    ensures FindColumn(symbols, symbols[i].name) == Some(symbols[i])
    decreases |symbols|
  {
    if i > 0 {
      assert symbols[0].name != symbols[i].name;
      FindDistinct(symbols[1..], i - 1);
    }
  }

  lemma {:induction false} FindInPrefix(a: seq<Symbol>, b: seq<Symbol>, name: string)
    requires a <= b && FindColumn(a, name).Some?
    ensures FindColumn(b, name) == FindColumn(a, name)
    decreases |a|
  {
    if !(a[0].name == name && a[0].kind.Poly?) {
      assert a[1..] <= b[1..];
      FindInPrefix(a[1..], b[1..], name);
    }
  }

  /** Columns are found under their names, now and after more columns have been created. */
  lemma ColumnsFound(base: Base, x: Context, i: nat)
    requires DistinctNames(x.symbols) && i < |x.symbols| && x.symbols[i].name !in base.defined && base.builtins <= base.defined
    ensures ColumnKnown(WorldOf(base, x), x.symbols[i])
  {
    var w, c := WorldOf(base, x), x.symbols[i];
    if c.kind.Poly? {
      FindDistinct(x.symbols, i);
      forall s ensures LookupAt(w, s, c.name, ColumnValue(c)) {
        if x.symbols <= s.symbols { FindInPrefix(x.symbols, s.symbols, c.name); }
      }
    }
  }

  /** Any value computed over the symbol table, by any evaluation, is recomputed by its expression over
      the columns that exist in the end, those that the evaluation itself created included. */
  lemma CreatedColumnsRoundTrip(base: Base, x: Context, fuel: nat, e: PExpr, targs: map<string, Type>, s: Registry)
    requires BaseGrows(base) && Sound(base, s) && x.p == base.p && PreludeDeclared(x) && base.publics <= x.publics && BaseBuilds(x, base)
    requires var r := Eval(fuel, CondenserSymbols(base), e, [], targs, s);
             && r.Done? && x.symbols == r.sym.symbols && ToExpr(x.p, r.sym.table, r.value).Ok?
    requires PreludeKnown(WorldOf(base, x))
    ensures var sy := CondenserSymbols(base);
            var r := Eval(fuel, sy, e, [], targs, s);
            var q := Eval(0, sy, ToExpr(x.p, r.sym.table, r.value).value, [], map[], r.sym);
            q.Done? && VRel(r.value, q.value)
  {
    var w := WorldOf(base, x);
    var r := Eval(fuel, w.sy, e, [], targs, s);
    EvalGrows(base, fuel, e, [], targs, s);
    assert Sound(base, r.sym);
    RegisteredDecodes(r.sym.symbols, r.sym.table, r.sym.counters);
    CondenserBuilds(x, base);
    forall i | 0 <= i < |x.symbols| ensures ColumnKnown(w, x.symbols[i]) { ColumnsFound(base, x, i); }
    assert Knows(w);
    EvaluatedValueRoundTrips(w, Known(x), r.sym.table, fuel, e, targs, s);
  }

  // ----- an instance -----

  /** A symbol table whose other definitions are the values of a fixed prelude. */
  function PreludeBase(p: Modulus, lib: IntLib, publics: set<string>, prelude: map<string, Value>): Base {
    Base(p, lib, {"std::prelude::challenge"}, prelude.Keys + {"std::prelude::challenge"}, publics,
      (s: Registry, n: string, ts: Option<seq<Type>>) => if n in prelude then Ok((prelude[n], s)) else Err(SymbolNotFound),
      (s: Registry, v: Value) => Ok(s),
      (s: Registry, n: string, vs: seq<Value>) => Challenge(s, n, vs))
  }

  function Challenge(s: Registry, n: string, vs: seq<Value>): Outcome<(Value, Registry)> {
    if n == "std::prelude::challenge" && |vs| == 2 && vs[0].VInt? && vs[1].VInt? && vs[0].n >= 0 && vs[1].n >= 0
    then Ok((VExpr(AlgChallenge(vs[1].n, vs[0].n)), s))
    else Err(TypeError)
  }

  /** The prelude holds the booleans and the enum variants of the context, and nothing that mentions a
      column. */
  ghost predicate PreludeFits(x: Context, prelude: map<string, Value>) {
    && PreludeDeclared(x) && "std::prelude::challenge" !in prelude
    && HasEntry("std::prelude::true", VBool(true), prelude) && HasEntry("std::prelude::false", VBool(false), prelude)
    && (forall e, n :: (e, n) in x.plain ==> HasEntry(VariantName(e, n), VEnum(e, n, NoData), prelude))
    && (forall e, n :: (e, n) in x.withData ==> HasEntry(VariantName(e, n), VConstructor(e, n), prelude))
    && (forall n :: n in prelude ==> Buildable(x, prelude[n]))
  }

  predicate HasEntry(name: string, v: Value, prelude: map<string, Value>) { name in prelude && prelude[name] == v }

  lemma PreludeLookup(base: Base, x: Context, prelude: map<string, Value>, name: string, v: Value)
    requires base == PreludeBase(x.p, base.lib, x.publics, prelude) && HasEntry(name, v, prelude) && name != "std::prelude::challenge"
    ensures LookupGives(WorldOf(base, x), name, v)
  {
    forall s ensures LookupAt(WorldOf(base, x), s, name, v) { }
  }

  /** Such a symbol table meets all conditions of the round trip. */
  lemma PreludeBaseFits(base: Base, x: Context, prelude: map<string, Value>)
    requires base == PreludeBase(x.p, base.lib, x.publics, prelude) && PreludeFits(x, prelude)
    ensures BaseGrows(base) && BaseBuilds(x, base) && PreludeKnown(WorldOf(base, x))
  {
    forall s ensures BaseGrowsAt(base, s) { PreludeGrows(base, x, prelude, s); }
    forall s ensures BaseBuildsAt(x, base, s) { PreludeBuilds(base, x, prelude, s); }
    PreludeFound(base, x, prelude);
  }

  lemma {:induction false} PreludeGrows(base: Base, x: Context, prelude: map<string, Value>, s: Registry)
    requires base == PreludeBase(x.p, base.lib, x.publics, prelude)
    ensures BaseGrowsAt(base, s)
  {
  }

  lemma {:induction false} PreludeBuilds(base: Base, x: Context, prelude: map<string, Value>, s: Registry)
    requires base == PreludeBase(x.p, base.lib, x.publics, prelude) && forall n :: n in prelude ==> Buildable(x, prelude[n])
    ensures BaseBuildsAt(x, base, s)
  {
  }

  lemma {:induction false} PublicsFound(base: Base, x: Context, prelude: map<string, Value>)
    requires base == PreludeBase(x.p, base.lib, x.publics, prelude)
    ensures (forall s, n :: PublicAt(WorldOf(base, x), s, n)) && forall s, id, stage :: ChallengeAt(WorldOf(base, x), s, id, stage)
  {
  }

  lemma {:induction false} PreludeFound(base: Base, x: Context, prelude: map<string, Value>)
    requires base == PreludeBase(x.p, base.lib, x.publics, prelude) && PreludeFits(x, prelude)
    ensures PreludeKnown(WorldOf(base, x))
  {
    var w := WorldOf(base, x);
    PreludeLookup(base, x, prelude, "std::prelude::true", VBool(true));
    PreludeLookup(base, x, prelude, "std::prelude::false", VBool(false));
    forall e, n | (e, n) in x.plain ensures PlainKnown(w, e, n) {
      PreludeLookup(base, x, prelude, VariantName(e, n), VEnum(e, n, NoData));
    }
    forall e, n | (e, n) in x.withData ensures WithDataKnown(w, e, n) {
      PreludeLookup(base, x, prelude, VariantName(e, n), VConstructor(e, n));
    }
    PublicsFound(base, x, prelude);
  }
}
