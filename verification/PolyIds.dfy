/** Dispensing of symbol ids, and the search that maps the id of an array element back to its array. */
module PolyIds {
  import opened Options
  import opened PilLang

  datatype SymbolKind = Poly(ptype: PolyType) | Other

  datatype Symbol = Symbol(name: string, kind: SymbolKind, id: nat, length: Option<nat>)

  function Length(s: Symbol): nat { if s.length.Some? then s.length.value else 1 }

  /** `id` is one of the ids of `s`, among the ids of kind `k`. */
  predicate Covers(s: Symbol, k: SymbolKind, id: nat) { s.kind == k && s.id <= id < s.id + Length(s) }

  ghost predicate Disjoint(symbols: seq<Symbol>) {
    forall i, j, id :: 0 <= i < j < |symbols| && Covers(symbols[i], symbols[i].kind, id) ==> !Covers(symbols[j], symbols[i].kind, id)
  }

  const ALL_KINDS: set<SymbolKind> := {Poly(Committed), Poly(Constant), Poly(Intermediate), Other}

  function Next(counters: map<SymbolKind, nat>, k: SymbolKind): nat { if k in counters then counters[k] else 0 }

  predicate EndsAt(s: Symbol, k: SymbolKind, next: nat) { s.kind == k && s.id + Length(s) == next }

  /** The counter is zero or the end of some symbol. */
  ghost predicate Tight(symbols: seq<Symbol>, k: SymbolKind, next: nat) {
    next > 0 ==> exists i :: 0 <= i < |symbols| && EndsAt(symbols[i], k, next)
  }

  lemma TightLast(symbols: seq<Symbol>, s: Symbol, next: nat)
    requires EndsAt(s, s.kind, next)
    ensures Tight(symbols + [s], s.kind, next)
  {
    assert EndsAt((symbols + [s])[|symbols|], s.kind, next);
  }

  lemma TightMore(symbols: seq<Symbol>, s: Symbol, k: SymbolKind, next: nat)
    requires Tight(symbols, k, next)
    ensures Tight(symbols + [s], k, next)
  {
    if next > 0 {
      var i :| 0 <= i < |symbols| && EndsAt(symbols[i], k, next);
      assert EndsAt((symbols + [s])[i], k, next);
    }
  }

  /** No symbol reaches beyond the counter of its kind. */
  predicate Above(counters: map<SymbolKind, nat>, symbols: seq<Symbol>) {
    forall i :: 0 <= i < |symbols| ==> symbols[i].id + Length(symbols[i]) <= Next(counters, symbols[i].kind)
  }

  // ----- the id dispenser -----

  class Counters {
    var symbolCounters: map<SymbolKind, nat>

    predicate Valid() reads this { symbolCounters.Keys == ALL_KINDS }

    constructor ()
      ensures Valid() && Above(symbolCounters, [])
    {
      symbolCounters := map[Poly(Committed) := 0, Poly(Constant) := 0, Poly(Intermediate) := 0, Other := 0];
    }

    /** Counters above all the ids of existing symbols, and no larger than needed. */
    constructor WithExisting(symbols: seq<Symbol>)
      ensures Valid() && Above(symbolCounters, symbols)
      ensures forall k :: Tight(symbols, k, Next(symbolCounters, k))
    {
      var counters: map<SymbolKind, nat> := map[Poly(Committed) := 0, Poly(Constant) := 0, Poly(Intermediate) := 0, Other := 0];
      for n := 0 to |symbols|
        invariant counters.Keys == ALL_KINDS && Above(counters, symbols[..n])
        invariant forall k :: Tight(symbols[..n], k, Next(counters, k))
      {
        var symbol := symbols[n];
        KindIsKnown(symbol.kind);
        var next := symbol.id + Length(symbol);
        ghost var before := counters;
        if next > counters[symbol.kind] { counters := counters[symbol.kind := next]; }
        ghost var done := symbols[..n + 1];
        assert done == symbols[..n] + [symbol];
        forall k ensures Tight(done, k, Next(counters, k)) {
          if k == symbol.kind && next > before[k] { TightLast(symbols[..n], symbol, next); }
          else { TightMore(symbols[..n], symbol, k, Next(before, k)); }
        }
      }
      assert symbols[..|symbols|] == symbols;
      symbolCounters := counters;
    }

    /** Reserves `length` consecutive ids. */
    method DispenseSymbolId(kind: SymbolKind, length: Option<nat>) returns (id: nat)
      requires Valid()
      modifies this
      ensures Valid() && id == Next(old(symbolCounters), kind)
      ensures symbolCounters == old(symbolCounters)[kind := id + Length(Symbol("", kind, id, length))]
    {
      KindIsKnown(kind);
      id := symbolCounters[kind];
      symbolCounters := symbolCounters[kind := id + (if length.Some? then length.value else 1)];
    }
  }

  lemma KindIsKnown(k: SymbolKind)
    ensures k in ALL_KINDS
  {
    match k
    case Poly(Committed) =>
    case Poly(Constant) =>
    case Poly(Intermediate) =>
    case Other =>
  }

  // ----- the table of column starts -----

  type Table = map<(PolyType, nat), string>

  function Rank(t: PolyType): nat {
    match t
    case Committed => 0
    case Constant => 1
    case Intermediate => 2
  }

  /** The order of keys: polynomial type first, then id. */
  predicate Le(a: (PolyType, nat), b: (PolyType, nat)) { Rank(a.0) < Rank(b.0) || (a.0 == b.0 && a.1 <= b.1) }

  /** `k` is the largest key not above `bound`. */
  predicate IsFloor(table: Table, k: (PolyType, nat), bound: (PolyType, nat)) {
    k in table && Le(k, bound) && forall j :: j in table && Le(j, bound) ==> Le(j, k)
  }

  lemma FloorUnique(table: Table, a: (PolyType, nat), b: (PolyType, nat), bound: (PolyType, nat))
    requires IsFloor(table, a, bound) && IsFloor(table, b, bound)
    ensures a == b
  {
    assert Le(a, b) && Le(b, a);
  }

  /** The largest key not above `bound`, if there is one. */
  ghost function Floor(table: Table, bound: (PolyType, nat)): (r: Option<(PolyType, nat)>)
    ensures r.Some? ==> IsFloor(table, r.value, bound)
  {
    if k :| IsFloor(table, k, bound) then Some(k) else None
  }

  /** The names registered at the starts of columns and column arrays, entered in order. */
  function StartTable(symbols: seq<Symbol>): Table {
    if symbols == [] then map[]
    else
      var n := |symbols| - 1;
      var t := StartTable(symbols[..n]);
      if symbols[n].kind.Poly? then t[(symbols[n].kind.ptype, symbols[n].id) := symbols[n].name] else t
  }

  /** Every element of every symbol is found at the start of that symbol. */
  ghost predicate Decodes(symbols: seq<Symbol>, table: Table) {
    forall i, id :: 0 <= i < |symbols| && symbols[i].kind.Poly? && Covers(symbols[i], symbols[i].kind, id) ==>
      var key := (symbols[i].kind.ptype, symbols[i].id);
      Floor(table, (symbols[i].kind.ptype, id)) == Some(key) && table[key] == symbols[i].name
  }

  /** No symbol is entered after a non-empty one with the same start. */
  predicate NotShadowed(symbols: seq<Symbol>) {
    forall i, j :: 0 <= i < j < |symbols| && symbols[i].kind.Poly? && SameStart(symbols[i], symbols[j]) ==> Length(symbols[i]) == 0
  }

  predicate UniqueNames(symbols: seq<Symbol>) {
    forall i, j :: 0 <= i < j < |symbols| ==> symbols[i].name != symbols[j].name
  }

  predicate SameStart(a: Symbol, b: Symbol) { a.kind == b.kind && a.id == b.id }

  /** No symbol starts strictly inside the range of another one. */
  predicate NoneInside(symbols: seq<Symbol>) {
    forall i, j :: 0 <= i < |symbols| && 0 <= j < |symbols| && symbols[i].kind == symbols[j].kind ==>
      !(symbols[i].id < symbols[j].id < symbols[i].id + Length(symbols[i]))
  }

  lemma {:induction false} StartTableKeys(symbols: seq<Symbol>, t: PolyType, id: nat)
    ensures (t, id) in StartTable(symbols) <==> exists i :: 0 <= i < |symbols| && symbols[i].kind == Poly(t) && symbols[i].id == id
    decreases |symbols|
  {
    if symbols != [] {
      var n := |symbols| - 1;
      StartTableKeys(symbols[..n], t, id);
      if i :| 0 <= i < |symbols| && symbols[i].kind == Poly(t) && symbols[i].id == id {
        if i < n { assert symbols[..n][i].kind == Poly(t); }
      }
    }
  }

  /** The entry at the start of a symbol is the name of the last symbol entered there. */
  lemma {:induction false} StartTableEntry(symbols: seq<Symbol>, i: nat)
    requires i < |symbols| && symbols[i].kind.Poly?
    requires forall j :: i < j < |symbols| ==> !SameStart(symbols[i], symbols[j])
    ensures var key := (symbols[i].kind.ptype, symbols[i].id);
            key in StartTable(symbols) && StartTable(symbols)[key] == symbols[i].name
    decreases |symbols|
  {
    var n := |symbols| - 1;
    if i < n {
      var rest := symbols[..n];
      assert forall j :: i < j < n ==> rest[j] == symbols[j];
      StartTableEntry(rest, i);
      assert !SameStart(symbols[i], symbols[n]);
    }
  }

  lemma LastEntry(symbols: seq<Symbol>, j: nat)
    requires j < |symbols| && symbols[j].kind.Poly?
    ensures var key := (symbols[j].kind.ptype, symbols[j].id);
            key in StartTable(symbols) && exists k :: j <= k < |symbols| && StartTable(symbols)[key] == symbols[k].name
    decreases |symbols| - j
  {
    StartTableKeys(symbols, symbols[j].kind.ptype, symbols[j].id);
    if k :| j < k < |symbols| && SameStart(symbols[j], symbols[k]) {
      LastEntry(symbols, k);
    } else {
      StartTableEntry(symbols, j);
    }
  }

  /** The table finds a symbol by any of its ids if its start is entered under its name and no other
      start lies between. */
  lemma FloorAtStart(table: Table, t: PolyType, start: nat, id: nat)
    requires start <= id && (t, start) in table
    requires forall k :: (t, k) in table ==> !(start < k <= id)
    ensures Floor(table, (t, id)) == Some((t, start))
  {
    assert IsFloor(table, (t, start), (t, id)) by {
      forall j | j in table && Le(j, (t, id)) ensures Le(j, (t, start)) {
        if j.0 == t { assert (t, j.1) in table; }
      }
    }
    FloorUnique(table, Floor(table, (t, id)).value, (t, start), (t, id));
  }

  /** A table built from existing symbols decodes all their ids if and only if no entry is shadowed. */
  lemma ExistingDecodes(symbols: seq<Symbol>)
    requires NoneInside(symbols) && UniqueNames(symbols)
    ensures Decodes(symbols, StartTable(symbols)) <==> NotShadowed(symbols)
  {
    var table := StartTable(symbols);
    if NotShadowed(symbols) {
      forall i, id | 0 <= i < |symbols| && symbols[i].kind.Poly? && Covers(symbols[i], symbols[i].kind, id)
        ensures var key := (symbols[i].kind.ptype, symbols[i].id);
                Floor(table, (symbols[i].kind.ptype, id)) == Some(key) && table[key] == symbols[i].name
      {
        SymbolDecodes(symbols, i, id);
      }
    }
    if Decodes(symbols, table) {
      forall i, j | 0 <= i < j < |symbols| && symbols[i].kind.Poly? && SameStart(symbols[i], symbols[j])
        ensures Length(symbols[i]) == 0
      {
        if Length(symbols[i]) > 0 { ShadowedFails(symbols, i, j); }
      }
    }
  }

  lemma SymbolDecodes(symbols: seq<Symbol>, i: nat, id: nat)
    requires NoneInside(symbols) && NotShadowed(symbols)
    requires i < |symbols| && symbols[i].kind.Poly? && Covers(symbols[i], symbols[i].kind, id)
    ensures var key := (symbols[i].kind.ptype, symbols[i].id);
            Floor(StartTable(symbols), (symbols[i].kind.ptype, id)) == Some(key) && StartTable(symbols)[key] == symbols[i].name
  {
    var t := symbols[i].kind.ptype;
    StartTableEntry(symbols, i);
    forall k | (t, k) in StartTable(symbols) ensures !(symbols[i].id < k <= id) { StartTableKeys(symbols, t, k); }
    FloorAtStart(StartTable(symbols), t, symbols[i].id, id);
  }

  /** A symbol entered later at the same start is found instead. */
  lemma ShadowedFails(symbols: seq<Symbol>, i: nat, j: nat)
    requires UniqueNames(symbols)
    requires i < j < |symbols| && symbols[i].kind.Poly? && Length(symbols[i]) > 0 && SameStart(symbols[i], symbols[j])
    ensures !Decodes(symbols, StartTable(symbols))
  {
    assert Covers(symbols[i], symbols[i].kind, symbols[i].id);
    LastEntry(symbols, j);
    var key := (symbols[i].kind.ptype, symbols[i].id);
    var k :| j <= k < |symbols| && StartTable(symbols)[key] == symbols[k].name;
    assert symbols[i].name != symbols[k].name;
  }

  // ----- creating columns -----

  /** What holds of the symbols, the table and the counters at any time: the ranges are disjoint and
      below the counters, and every non-empty symbol is entered at its start. */
  ghost predicate Registered(symbols: seq<Symbol>, table: Table, counters: map<SymbolKind, nat>) {
    && Above(counters, symbols) && Disjoint(symbols)
    && (forall i :: 0 <= i < |symbols| && symbols[i].kind.Poly? && Length(symbols[i]) > 0 ==>
          Entered(table, symbols[i]))
    && (forall key :: key in table ==> key.1 <= Next(counters, Poly(key.0)))
    && (forall key, i :: key in table && 0 <= i < |symbols| ==> !Inside(key, symbols[i]))
  }

  predicate Entered(table: Table, s: Symbol)
    requires s.kind.Poly?
  {
    (s.kind.ptype, s.id) in table && table[(s.kind.ptype, s.id)] == s.name
  }

  predicate Inside(key: (PolyType, nat), s: Symbol) { s.kind == Poly(key.0) && s.id < key.1 < s.id + Length(s) }

  lemma RegisteredDecodes(symbols: seq<Symbol>, table: Table, counters: map<SymbolKind, nat>)
    requires Registered(symbols, table, counters)
    ensures Decodes(symbols, table)
  {
    forall i, id: nat | 0 <= i < |symbols| && symbols[i].kind.Poly? && Covers(symbols[i], symbols[i].kind, id)
      ensures var key := (symbols[i].kind.ptype, symbols[i].id);
              Floor(table, (symbols[i].kind.ptype, id)) == Some(key) && table[key] == symbols[i].name
    {
      var s := symbols[i];
      assert Entered(table, s);
      forall k | (s.kind.ptype, k) in table ensures !(s.id < k <= id) { assert !Inside((s.kind.ptype, k), s); }
      FloorAtStart(table, s.kind.ptype, s.id, id);
    }
  }

  lemma RegisterOne(symbols: seq<Symbol>, table: Table, counters: map<SymbolKind, nat>, s: Symbol)
    requires Registered(symbols, table, counters) && s.kind.Poly? && s.id == Next(counters, s.kind)
    ensures Registered(symbols + [s], table[(s.kind.ptype, s.id) := s.name], counters[s.kind := s.id + Length(s)])
  {
    var symbols', table', counters' := symbols + [s], table[(s.kind.ptype, s.id) := s.name], counters[s.kind := s.id + Length(s)];
    assert forall k :: Next(counters, k) <= Next(counters', k);
    assert Disjoint(symbols');
    assert forall i :: 0 <= i < |symbols| && symbols[i].kind.Poly? && Length(symbols[i]) > 0 ==> Entered(table', symbols[i]);
    forall key, i | key in table' && 0 <= i < |symbols'| ensures !Inside(key, symbols'[i]) {
      if key in table && i < |symbols| { assert !Inside(key, symbols[i]); }
    }
  }

  /** Existing symbols as a starting point. */
  lemma RegisterExisting(symbols: seq<Symbol>, counters: map<SymbolKind, nat>)
    requires Above(counters, symbols) && Disjoint(symbols) && NoneInside(symbols) && NotShadowed(symbols)
    ensures Registered(symbols, StartTable(symbols), counters)
  {
    var table := StartTable(symbols);
    forall i | 0 <= i < |symbols| && symbols[i].kind.Poly? && Length(symbols[i]) > 0 ensures Entered(table, symbols[i]) {
      StartTableEntry(symbols, i);
    }
    forall key | key in table ensures key.1 <= Next(counters, Poly(key.0)) { StartTableKeys(symbols, key.0, key.1); }
    forall key, i | key in table && 0 <= i < |symbols| ensures !Inside(key, symbols[i]) {
      StartTableKeys(symbols, key.0, key.1);
    }
  }

  /** The part of the condenser that creates columns. */
  class ColumnRegistry {
    const counters: Counters
    var polyIdToName: Table
    ghost var symbols: seq<Symbol>

    ghost predicate Valid()
      reads this, counters
    {
      counters.Valid() && Registered(symbols, polyIdToName, counters.symbolCounters)
    }

    constructor (existing: seq<Symbol>)
      requires Disjoint(existing) && NoneInside(existing) && NotShadowed(existing)
      ensures Valid() && symbols == existing && fresh(counters)
    {
      counters := new Counters.WithExisting(existing);
      polyIdToName := StartTable(existing);
      symbols := existing;
      new;
      RegisterExisting(existing, counters.symbolCounters);
    }

    /** Registers a new column or column array; an array may be empty. */
    method NewColumn(name: string, ptype: PolyType, length: Option<nat>) returns (symbol: Symbol)
      requires Valid()
      modifies this, counters
      ensures Valid() && symbols == old(symbols) + [symbol]
      ensures symbol.name == name && symbol.kind == Poly(ptype) && symbol.length == length
      ensures Decodes(symbols, polyIdToName)
    {
      var id := counters.DispenseSymbolId(Poly(ptype), length);
      symbol := Symbol(name, Poly(ptype), id, length);
      RegisterOne(symbols, polyIdToName, old(counters.symbolCounters), symbol);
      polyIdToName := polyIdToName[(ptype, id) := name];
      symbols := symbols + [symbol];
      RegisteredDecodes(symbols, polyIdToName, counters.symbolCounters);
    }
  }
}
