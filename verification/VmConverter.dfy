/** The compiler pass as it works in the source: loops that collect code lines, identities and looked-up
    columns, and nested loops that fill the ROM. */
module VmConverter {
  import opened Options
  import opened Collections
  import opened Congruence
  import opened Pil
  import opened Asm
  import opened VmCompile
  import opened VmTrace
  import opened VmTheorem
  import opened VmRuns

  /** One row of the ROM, by column. */
  type RomRow = map<Column, int>

  /** The literal arguments of the line's instruction fit its declaration. */
  predicate InstrOk(g: Program, line: CodeLine) {
    |line.instrs| <= 1 &&
    forall k :: 0 <= k < |line.instrs| ==>
      var d := FindInstr(Defs(g), line.instrs[k].0);
      d.Some? && |LiteralNames(d.value.inputs)| == |line.instrs[k].1|
  }

  // ----- write flags -----

  /** The entries set after the writes of the assignment registers in `done`. */
  function WriteEntry(line: CodeLine, done: set<string>, c: Column): int {
    match c
    case WriteFlag(a, r) => if a in done && a in line.writes && r in line.writes[a] then 1 else 0
    case _ => 0
  }

  /** All columns that the compiler looks up have an entry. */
  ghost predicate Complete(g: Program, row: RomRow) { forall c :: IsLookupColumn(g, c) ==> c in row }

  method FillWrites(g: Program, pos: map<string, nat>, line: CodeLine, zero: RomRow) returns (row: RomRow)
    requires LineOk(g.m, pos, line) && Complete(g, zero) && forall c :: c in zero ==> zero[c] == 0
    ensures row.Keys == zero.Keys && forall c :: c in row ==> row[c] == WriteEntry(line, line.writes.Keys, c)
  {
    row := zero;
    var rest := line.writes.Keys;
    while rest != {}
      invariant rest <= line.writes.Keys && row.Keys == zero.Keys
      invariant forall c :: c in row ==> row[c] == WriteEntry(line, line.writes.Keys - rest, c)
      decreases rest
    {
      var a :| a in rest;
      var writes := line.writes[a];
      for k := 0 to |writes|
        invariant row.Keys == zero.Keys
        invariant forall c :: c in row ==>
                    row[c] == if c.WriteFlag? && c.assign == a then (if c.reg in writes[..k] then 1 else 0)
                              else WriteEntry(line, line.writes.Keys - rest, c)
      {
        assert writes[k] in writes;
        assert IsLookupColumn(g, WriteFlag(a, writes[k]));
        row := row[WriteFlag(a, writes[k]) := 1];
        assert writes[..k + 1] == writes[..k] + [writes[k]];
      }
      assert writes[..|writes|] == writes;
      rest := rest - {a};
    }
  }

  // ----- right-hand sides -----

  /** The column that a term of the right-hand side of `a` adds to. */
  function TermColumn(a: string, comp: Component): Column {
    match comp
    case RegisterPart(r) => ReadCoef(a, r)
    case ConstantPart => Const(a)
    case FreePart => ReadFree(a)
  }

  function ValueColumn(c: Column): Option<(string, Component)> {
    match c
    case ReadCoef(a, r) => Some((a, RegisterPart(r)))
    case Const(a) => Some((a, ConstantPart))
    case ReadFree(a) => Some((a, FreePart))
    case _ => None
  }

  /** The entries after the right-hand sides of the assignment registers in `done`. */
  function ValueEntry(p: Modulus, line: CodeLine, done: set<string>, c: Column): int {
    var v := ValueColumn(c);
    if v.None? then WriteEntry(line, line.writes.Keys, c)
    else if v.value.0 in done && v.value.0 in line.value then Rep(p, CoeffSum(line.value[v.value.0], v.value.1))
    else 0
  }

  lemma AddRep(p: Modulus, x: int, y: int)
    ensures Rep(p, Rep(p, x) + y) == Rep(p, x + y)
  {
    CongAdd(p, Rep(p, x), x, y, y);
  }

  lemma CoeffStep(p: Modulus, terms: seq<Term>, k: nat)
    requires k < |terms|
    ensures forall comp :: Rep(p, CoeffSum(terms[..k + 1], comp))
                           == if comp == terms[k].comp then Rep(p, Rep(p, CoeffSum(terms[..k], comp)) + terms[k].coeff) else Rep(p, CoeffSum(terms[..k], comp))
  {
    assert terms[..k + 1][..k] == terms[..k];
    AddRep(p, CoeffSum(terms[..k], terms[k].comp), terms[k].coeff);
  }

  /** Adds the terms of one right-hand side. */
  method FillValue(p: Modulus, g: Program, pos: map<string, nat>, line: CodeLine, a: string, row0: RomRow, ghost done: set<string>)
    returns (row: RomRow)
    requires LineOk(g.m, pos, line) && Complete(g, row0) && a in line.value && a !in done
    requires forall c :: c in row0 ==> row0[c] == ValueEntry(p, line, done, c)
    ensures row.Keys == row0.Keys && forall c :: c in row ==> row[c] == ValueEntry(p, line, done + {a}, c)
  {
    row := row0;
    var terms := line.value[a];
    for k := 0 to |terms|
      invariant row.Keys == row0.Keys && TermsAdded(p, line, a, terms[..k], done, row)
    {
      var column := TermColumn(a, terms[k].comp);
      assert IsLookupColumn(g, column);
      TermStep(p, line, a, terms, k, done, row);
      row := row[column := Rep(p, row[column] + terms[k].coeff)];
    }
    assert terms[..|terms|] == terms;
  }

  /** The entries after the terms `ts` of the right-hand side of `a`. */
  ghost predicate TermsAdded(p: Modulus, line: CodeLine, a: string, ts: seq<Term>, done: set<string>, row: RomRow) {
    forall c :: c in row ==>
      row[c] == (var v := ValueColumn(c);
                 if v.Some? && v.value.0 == a then Rep(p, CoeffSum(ts, v.value.1)) else ValueEntry(p, line, done, c))
  }

  lemma TermStep(p: Modulus, line: CodeLine, a: string, terms: seq<Term>, k: nat, done: set<string>, row: RomRow)
    requires k < |terms| && TermsAdded(p, line, a, terms[..k], done, row) && TermColumn(a, terms[k].comp) in row
    ensures var column := TermColumn(a, terms[k].comp);
            TermsAdded(p, line, a, terms[..k + 1], done, row[column := Rep(p, row[column] + terms[k].coeff)])
  {
    CoeffStep(p, terms, k);
  }

  method FillValues(p: Modulus, g: Program, pos: map<string, nat>, line: CodeLine, row0: RomRow) returns (row: RomRow)
    requires LineOk(g.m, pos, line) && Complete(g, row0)
    requires forall c :: c in row0 ==> row0[c] == WriteEntry(line, line.writes.Keys, c)
    ensures row.Keys == row0.Keys && forall c :: c in row ==> row[c] == ValueEntry(p, line, line.value.Keys, c)
  {
    row := row0;
    var rest := line.value.Keys;
    ghost var done: set<string> := {};
    while rest != {}
      invariant rest <= line.value.Keys && done == line.value.Keys - rest && row.Keys == row0.Keys
      invariant forall c :: c in row ==> row[c] == ValueEntry(p, line, done, c)
      decreases rest
    {
      var a :| a in rest;
      row := FillValue(p, g, pos, line, a, row, done);
      rest, done := rest - {a}, done + {a};
    }
    assert done == line.value.Keys;
  }

  // ----- instructions -----

  /** The entries after the flag of the instruction and the stored registers in `done`. */
  function InstrEntry(p: Modulus, line: CodeLine, instr: string, done: set<string>, c: Column): int {
    match c
    case ReadFree(a) => if a in done && a in line.writes && line.writes[a] != [] then 1 else ValueEntry(p, line, line.value.Keys, c)
    case InstrFlag(i) => if i == instr then 1 else 0
    case _ => ValueEntry(p, line, line.value.Keys, c)
  }

  /** Lets the assignment registers that an instruction stores be free, and sets the instruction flag. */
  method FillFlags(p: Modulus, g: Program, pos: map<string, nat>, line: CodeLine, instr: string, row0: RomRow) returns (row: RomRow)
    requires LineOk(g.m, pos, line) && Complete(g, row0) && FindInstr(Defs(g), instr).Some?
    requires forall c :: c in row0 ==> row0[c] == ValueEntry(p, line, line.value.Keys, c)
    ensures row.Keys == row0.Keys && forall c :: c in row ==> row[c] == InstrEntry(p, line, instr, line.writes.Keys, c)
  {
    assert IsLookupColumn(g, InstrFlag(instr));
    row := row0[InstrFlag(instr) := 1];
    var rest := line.writes.Keys;
    while rest != {}
      invariant rest <= line.writes.Keys && row.Keys == row0.Keys
      invariant forall c :: c in row ==> row[c] == InstrEntry(p, line, instr, line.writes.Keys - rest, c)
      decreases rest
    {
      var a :| a in rest;
      assert IsLookupColumn(g, ReadFree(a));
      if line.writes[a] != [] { row := row[ReadFree(a) := 1]; }
      rest := rest - {a};
    }
  }

  function ParamEntry(params: map<string, int>, q: string): int { if q in params then params[q] else 0 }

  lemma ParamStep(pos: map<string, nat>, names: seq<string>, lits: seq<LitArg>, j: nat)
    requires |names| == |lits| && j < |names|
    ensures ParamValues(pos, names[..j + 1], lits[..j + 1]) == ParamValues(pos, names[..j], lits[..j])[names[j] := ResolveLit(pos, lits[j])]
  {
    assert names[..j + 1][..j] == names[..j] && lits[..j + 1][..j] == lits[..j];
  }

  /** Enters the literal arguments of an instruction; the other columns keep their entries. */
  method FillParams(g: Program, pos: map<string, nat>, instr: string, names: seq<string>, lits: seq<LitArg>, row0: RomRow) returns (row: RomRow)
    requires forall q :: q in names ==> Param(instr, q) in row0
    requires |names| == |lits| && forall c :: c in row0 && c.Param? && c.instr == instr ==> row0[c] == 0
    ensures row.Keys == row0.Keys
    ensures forall c :: c in row ==>
              row[c] == if c.Param? && c.instr == instr then ParamEntry(ParamValues(pos, names, lits), c.param) else row0[c]
  {
    row := row0;
    for j := 0 to |lits|
      invariant row.Keys == row0.Keys
      invariant forall c :: c in row ==>
                  row[c] == if c.Param? && c.instr == instr then ParamEntry(ParamValues(pos, names[..j], lits[..j]), c.param) else row0[c]
    {
      assert names[j] in names;
      ParamStep(pos, names, lits, j);
      row := row[Param(instr, names[j]) := ResolveLit(pos, lits[j])];
    }
    assert names[..|names|] == names && lits[..|lits|] == lits;
  }

  /** An entry of a line without an instruction. */
  lemma PlainEntry(p: Modulus, g: Program, pos: map<string, nat>, line: CodeLine, c: Column)
    requires line.instrs == []
    ensures RomEntry(p, g, pos, line, c) == ValueEntry(p, line, line.value.Keys, c)
  {
  }

  /** An entry of a line with an instruction. */
  lemma InstrEntryAgrees(p: Modulus, g: Program, pos: map<string, nat>, line: CodeLine, instr: string, lits: seq<LitArg>, names: seq<string>, c: Column)
    requires line.instrs == [(instr, lits)] && FindInstr(Defs(g), instr).Some?
    requires names == LiteralNames(FindInstr(Defs(g), instr).value.inputs) && |names| == |lits|
    ensures RomEntry(p, g, pos, line, c) ==
            if c.Param? && c.instr == instr then ParamEntry(ParamValues(pos, names, lits), c.param)
            else InstrEntry(p, line, instr, line.writes.Keys, c)
  {
  }

  /** The row of one code line. */
  method TranslateLine(p: Modulus, g: Program, pos: map<string, nat>, line: CodeLine, columns: set<Column>) returns (row: RomRow)
    requires LineOk(g.m, pos, line) && InstrOk(g, line) && forall c :: c in columns <==> IsLookupColumn(g, c)
    ensures row.Keys == columns && forall c :: c in columns ==> row[c] == RomEntry(p, g, pos, line, c)
  {
    var zero := map c | c in columns :: 0;
    row := FillWrites(g, pos, line, zero);
    row := FillValues(p, g, pos, line, row);
    if line.instrs == [] {
      forall c | c in columns ensures row[c] == RomEntry(p, g, pos, line, c) { PlainEntry(p, g, pos, line, c); }
    } else {
      var (instr, lits) := line.instrs[0];
      row := TranslateInstruction(p, g, pos, line, instr, lits, row);
    }
  }

  method TranslateInstruction(p: Modulus, g: Program, pos: map<string, nat>, line: CodeLine, instr: string, lits: seq<LitArg>, row0: RomRow) returns (row: RomRow)
    requires LineOk(g.m, pos, line) && InstrOk(g, line) && Complete(g, row0) && line.instrs == [(instr, lits)]
    requires forall c :: c in row0 ==> row0[c] == ValueEntry(p, line, line.value.Keys, c)
    ensures row.Keys == row0.Keys && forall c :: c in row ==> row[c] == RomEntry(p, g, pos, line, c)
  {
    assert line.instrs[0] == (instr, lits);
    row := FillFlags(p, g, pos, line, instr, row0);
    var names := LiteralNames(FindInstr(Defs(g), instr).value.inputs);
    forall q | q in names ensures Param(instr, q) in row { assert IsLookupColumn(g, Param(instr, q)); }
    row := FillParams(g, pos, instr, names, lits, row);
    forall c | c in row ensures row[c] == RomEntry(p, g, pos, line, c) { InstrEntryAgrees(p, g, pos, line, instr, lits, names, c); }
  }

  predicate LinesOk(g: Program, pos: map<string, nat>, lines: seq<CodeLine>) {
    forall i :: 0 <= i < |lines| ==> LineOk(g.m, pos, lines[i]) && InstrOk(g, lines[i])
  }

  /** Every row holds the entries of its code line. */
  ghost predicate RowsHold(p: Modulus, g: Program, pos: map<string, nat>, lines: seq<CodeLine>, rom: seq<RomRow>) {
    |rom| == |lines| && forall i, c :: 0 <= i < |lines| && IsLookupColumn(g, c) ==> c in rom[i] && rom[i][c] == RomEntry(p, g, pos, lines[i], c)
  }

  /** The ROM, one row per code line. */
  method TranslateCodeLines(p: Modulus, g: Program, pos: map<string, nat>, lines: seq<CodeLine>, columns: set<Column>) returns (rom: seq<RomRow>)
    requires LinesOk(g, pos, lines) && forall c :: c in columns <==> IsLookupColumn(g, c)
    ensures RowsHold(p, g, pos, lines, rom)
  {
    rom := [];
    for i := 0 to |lines|
      invariant |rom| == i
      invariant forall j, c :: 0 <= j < i && IsLookupColumn(g, c) ==> c in rom[j] && rom[j][c] == RomEntry(p, g, pos, lines[j], c)
    {
      var row := TranslateLine(p, g, pos, lines[i], columns);
      rom := rom + [row];
    }
  }

  // ----- what the passes over registers and instructions collect -----

  function ParamColumns(instr: string, names: seq<string>): seq<Column> {
    if names == [] then [] else [Param(instr, names[0])] + ParamColumns(instr, names[1..])
  }

  function WriteColumns(assigns: seq<string>, r: string): seq<Column> {
    if assigns == [] then [] else [WriteFlag(assigns[0], r)] + WriteColumns(assigns[1..], r)
  }

  function ReadColumns(a: string, regs: seq<string>): seq<Column> {
    if regs == [] then [] else [ReadCoef(a, regs[0])] + ReadColumns(a, regs[1..])
  }

  lemma {:induction false} ParamColumnsMembers(instr: string, names: seq<string>, c: Column)
    ensures c in ParamColumns(instr, names) <==> c.Param? && c.instr == instr && c.param in names
  {
    if names != [] { ParamColumnsMembers(instr, names[1..], c); }
  }

  lemma {:induction false} WriteColumnsMembers(assigns: seq<string>, r: string, c: Column)
    ensures c in WriteColumns(assigns, r) <==> c.WriteFlag? && c.reg == r && c.assign in assigns
  {
    if assigns != [] { WriteColumnsMembers(assigns[1..], r, c); }
  }

  lemma {:induction false} ReadColumnsMembers(a: string, regs: seq<string>, c: Column)
    ensures c in ReadColumns(a, regs) <==> c.ReadCoef? && c.assign == a && c.reg in regs
  {
    if regs != [] { ReadColumnsMembers(a, regs[1..], c); }
  }

  function BodyConstraints(d: InstrDef, body: seq<Identity>): seq<Identity> {
    if body == [] then []
    else (if TryExtractUpdate(body[0]).None? then [BodyConstraint(d, body[0])] else []) + BodyConstraints(d, body[1..])
  }

  lemma {:induction false} BodyConstraintsMembers(d: InstrDef, body: seq<Identity>, id: Identity)
    ensures id in BodyConstraints(d, body) <==> exists b :: b in body && TryExtractUpdate(b).None? && id == BodyConstraint(d, b)
  {
    if body != [] {
      BodyConstraintsMembers(d, body[1..], id);
      assert forall b :: b in body <==> b == body[0] || b in body[1..];
    }
  }

  /** Every register that an instruction updates is declared. */
  predicate Declared(names: set<string>, d: InstrDef) {
    && (forall b :: b in d.body && TryExtractUpdate(b).Some? ==> TryExtractUpdate(b).value.0 in names)
    && (forall l, r :: l in d.links && r in l.nextRegs ==> r in names)
  }

  type Updates = map<string, seq<Update>>

  /** Adds the update of a link to every register it mentions as `R'`. */
  method LinkPass(d: InstrDef, u0: Updates) returns (u: Updates)
    requires Declared(u0.Keys, d)
    ensures u.Keys == u0.Keys && forall r :: r in u ==> u[r] == u0[r] + LinkUpdates(Col(InstrFlag(d.name)), d.links, r)
  {
    u := u0;
    var flag := Col(InstrFlag(d.name));
    for k := 0 to |d.links|
      invariant u.Keys == u0.Keys
      invariant forall r :: r in u ==> u[r] + LinkUpdates(flag, d.links[k..], r) == u0[r] + LinkUpdates(flag, d.links, r)
    {
      var l := d.links[k];
      assert l in d.links && d.links[k..][0] == l && d.links[k..][1..] == d.links[k + 1..];
      var before := u;
      u := OneLink(CombineFlags(Some(flag), l.flag), (set r | r in l.nextRegs), u);
      forall r | r in u ensures u[r] + LinkUpdates(flag, d.links[k + 1..], r) == u0[r] + LinkUpdates(flag, d.links, r) {
        var step := if r in l.nextRegs then [Update(CombineFlags(Some(flag), l.flag), Next(Named(r)))] else [];
        assert before[r] + (step + LinkUpdates(flag, d.links[k + 1..], r)) == before[r] + step + LinkUpdates(flag, d.links[k + 1..], r);
      }
    }
    assert d.links[|d.links|..] == [];
  }

  method OneLink(flag: Expr, regs: set<string>, u0: Updates) returns (u: Updates)
    requires regs <= u0.Keys
    ensures u.Keys == u0.Keys && forall r :: r in u ==> u[r] == u0[r] + if r in regs then [Update(flag, Next(Named(r)))] else []
  {
    u := u0;
    var rest := regs;
    while rest != {}
      invariant rest <= regs && u.Keys == u0.Keys
      invariant forall r :: r in u ==> u[r] == u0[r] + if r in regs && r !in rest then [Update(flag, Next(Named(r)))] else []
      decreases rest
    {
      var r :| r in rest;
      u := u[r := u[r] + [Update(flag, Next(Named(r)))]];
      rest := rest - {r};
    }
  }

  /** The update of `r` that one item of a body stands for, if any. */
  function ItemUpdate(d: InstrDef, b: Identity, r: string): seq<Update> {
    var x := TryExtractUpdate(b);
    if x.Some? && x.value.0 == r then [Update(Col(InstrFlag(d.name)), LinearizedUpdate(d, r, x.value.1).e)] else []
  }

  function ItemConstraint(d: InstrDef, b: Identity): seq<Identity> {
    if TryExtractUpdate(b).None? then [BodyConstraint(d, b)] else []
  }

  method OneItem(d: InstrDef, b: Identity, u0: Updates) returns (u: Updates, pil: seq<Identity>, defs: seq<Definition>)
    requires TryExtractUpdate(b).Some? ==> TryExtractUpdate(b).value.0 in u0
    ensures u.Keys == u0.Keys && (forall r :: r in u ==> u[r] == u0[r] + ItemUpdate(d, b, r)) && pil == ItemConstraint(d, b)
    ensures defs == ItemDefinitions(d, b)
  {
    var x := TryExtractUpdate(b);
    u, pil, defs := u0, [], [];
    if x.Some? {
      var (r, rhs) := x.value;
      var lin := LinearizedUpdate(d, r, rhs);
      defs := lin.defs;
      u := u[r := u[r] + [Update(Col(InstrFlag(d.name)), lin.e)]];
    } else {
      pil := [BodyConstraint(d, b)];
    }
  }

  /** Turns updates in the body into conditional updates and everything else into constraints; the
      products of the updates become definitions of intermediate columns. */
  method BodyPass(d: InstrDef, u0: Updates) returns (u: Updates, pil: seq<Identity>, defs: seq<Definition>)
    requires Declared(u0.Keys, d)
    ensures u.Keys == u0.Keys && forall r :: r in u ==> u[r] == u0[r] + BodyUpdates(d, d.body, r)
    ensures pil == BodyConstraints(d, d.body) && defs == BodyDefinitions(d, d.body)
  {
    u, pil, defs := u0, [], [];
    for k := 0 to |d.body|
      invariant BodyAfter(d, d.body[..k], u0, u) && pil == BodyConstraints(d, d.body[..k]) && defs == BodyDefinitions(d, d.body[..k])
    {
      var b := d.body[k];
      assert b in d.body;
      assert d.body[..k + 1] == d.body[..k] + [b];
      var before := u;
      var c, ds;
      u, c, ds := OneItem(d, b, u);
      pil, defs := pil + c, defs + ds;
      BodyAfterStep(d, d.body[..k], b, u0, before, u);
      ConstraintsSnoc(d, d.body[..k], b);
      BodyDefinitionsSnoc(d, d.body[..k], b);
    }
    assert d.body[..|d.body|] == d.body;
  }

  ghost predicate BodyAfter(d: InstrDef, body: seq<Identity>, u0: Updates, u: Updates) {
    u.Keys == u0.Keys && forall r :: r in u ==> u[r] == u0[r] + BodyUpdates(d, body, r)
  }

  lemma BodyAfterStep(d: InstrDef, body: seq<Identity>, b: Identity, u0: Updates, u: Updates, u': Updates)
    requires BodyAfter(d, body, u0, u) && u'.Keys == u.Keys && forall r :: r in u' ==> u'[r] == u[r] + ItemUpdate(d, b, r)
    ensures BodyAfter(d, body + [b], u0, u')
  {
    forall r | r in u' ensures u'[r] == u0[r] + BodyUpdates(d, body + [b], r) {
      BodySnoc(d, body, b, r);
      Assoc(u0[r], BodyUpdates(d, body, r), ItemUpdate(d, b, r));
    }
  }

  lemma {:induction false} BodySnoc(d: InstrDef, body: seq<Identity>, b: Identity, r: string)
    ensures BodyUpdates(d, body + [b], r) == BodyUpdates(d, body, r) + ItemUpdate(d, b, r)
    decreases |body|
  {
    if body == [] {
      assert body + [b] == [b] && [b][1..] == [];
    } else {
      assert (body + [b])[1..] == body[1..] + [b];
      BodySnoc(d, body[1..], b, r);
    }
  }

  lemma {:induction false} ConstraintsSnoc(d: InstrDef, body: seq<Identity>, b: Identity)
    ensures BodyConstraints(d, body + [b]) == BodyConstraints(d, body) + ItemConstraint(d, b)
    decreases |body|
  {
    if body == [] {
      assert body + [b] == [b] && [b][1..] == [];
    } else {
      assert (body + [b])[1..] == body[1..] + [b];
      ConstraintsSnoc(d, body[1..], b);
    }
  }

  lemma {:induction false} BodyDefinitionsSnoc(d: InstrDef, body: seq<Identity>, b: Identity)
    ensures BodyDefinitions(d, body + [b]) == BodyDefinitions(d, body) + ItemDefinitions(d, b)
    decreases |body|
  {
    if body == [] {
      assert body + [b] == [b] && [b][1..] == [];
    } else {
      assert (body + [b])[1..] == body[1..] + [b];
      BodyDefinitionsSnoc(d, body[1..], b);
    }
  }

  lemma {:induction false} DefinitionsSnoc(defs: seq<InstrDef>, d: InstrDef)
    ensures Definitions(defs + [d]) == Definitions(defs) + BodyDefinitions(d, d.body)
    decreases |defs|
  {
    if defs == [] {
      assert defs + [d] == [d] && [d][1..] == [];
    } else {
      assert (defs + [d])[1..] == defs[1..] + [d];
      DefinitionsSnoc(defs[1..], d);
    }
  }

  lemma {:induction false} InstrSnoc(defs: seq<InstrDef>, d: InstrDef, r: string)
    ensures InstrUpdates(defs + [d], r) == InstrUpdates(defs, r) + UpdatesOf(d, r)
    decreases |defs|
  {
    if defs == [] {
      assert defs + [d] == [d] && [d][1..] == [];
    } else {
      assert (defs + [d])[1..] == defs[1..] + [d];
      InstrSnoc(defs[1..], d, r);
    }
  }

  function RegisterColumns(g: Program, r: RegDecl): seq<Column> {
    if r.ty == Write then WriteColumns(RegNames(g.m.regs, Assignment), r.name) else []
  }

  /** The updates of a register before any instruction. */
  function OwnUpdates(g: Program, r: RegDecl): seq<Update> {
    if r.ty == Write then WriteUpdates(RegNames(g.m.regs, Assignment), r.name) else []
  }

  function InstrColumns(d: InstrDef): seq<Column> { [InstrFlag(d.name)] + ParamColumns(d.name, LiteralNames(d.inputs)) }

  function AssignColumns(g: Program, a: string): seq<Column> { [Const(a), ReadFree(a)] + ReadColumns(a, ReadRegs(g.m)) }

  // ----- the converter -----

  /** The write flags of a register and its updates through assignment registers. */
  method WriteFlags(assigns: seq<string>, r: string) returns (columns: seq<Column>, conditioned: seq<Update>)
    ensures columns == WriteColumns(assigns, r) && conditioned == WriteUpdates(assigns, r)
  {
    columns, conditioned := [], [];
    for k := 0 to |assigns|
      invariant columns + WriteColumns(assigns[k..], r) == WriteColumns(assigns, r)
      invariant conditioned + WriteUpdates(assigns[k..], r) == WriteUpdates(assigns, r)
    {
      assert assigns[k..][0] == assigns[k] && assigns[k..][1..] == assigns[k + 1..];
      columns := columns + [WriteFlag(assigns[k], r)];
      conditioned := conditioned + [Update(Col(WriteFlag(assigns[k], r)), Col(Named(assigns[k])))];
    }
    assert assigns[|assigns|..] == [];
  }

  method LiteralColumns(instr: string, names: seq<string>) returns (columns: seq<Column>)
    ensures columns == ParamColumns(instr, names)
  {
    columns := [];
    for k := 0 to |names|
      invariant columns + ParamColumns(instr, names[k..]) == ParamColumns(instr, names)
    {
      assert names[k..][0] == names[k] && names[k..][1..] == names[k + 1..];
      columns := columns + [Param(instr, names[k])];
    }
    assert names[|names|..] == [];
  }

  class Converter {
    const p: Modulus
    const g: Program
    var pil: seq<Identity>
    var definitions: seq<Definition>
    var lineLookup: seq<Column>
    var updates: Updates

    constructor (modulus: Modulus, program: Program)
      ensures p == modulus && g == program && pil == [] && definitions == [] && lineLookup == [] && updates == map[]
    {
      p, g, pil, definitions, lineLookup, updates := modulus, program, [], [], [], map[];
    }

    /** A write register gets a write flag per assignment register. */
    method HandleRegisterDeclaration(r: RegDecl)
      modifies this
      ensures pil == old(pil) && definitions == old(definitions) && lineLookup == old(lineLookup) + RegisterColumns(g, r)
      ensures updates == old(updates)[r.name := OwnUpdates(g, r)]
    {
      var columns, conditioned := [], [];
      if r.ty == Write { columns, conditioned := WriteFlags(RegNames(g.m.regs, Assignment), r.name); }
      lineLookup := lineLookup + columns;
      updates := updates[r.name := conditioned];
    }

    /** Flag and parameters of an instruction are looked up; its body gives updates and constraints. */
    method HandleInstructionDef(d: InstrDef)
      requires Declared(updates.Keys, d)
      modifies this
      ensures pil == old(pil) + BodyConstraints(d, d.body) && definitions == old(definitions) + BodyDefinitions(d, d.body)
      ensures lineLookup == old(lineLookup) + InstrColumns(d)
      ensures updates.Keys == old(updates).Keys && forall r :: r in updates ==> updates[r] == old(updates)[r] + UpdatesOf(d, r)
    {
      var params := LiteralColumns(d.name, LiteralNames(d.inputs));
      lineLookup := lineLookup + ([InstrFlag(d.name)] + params);
      var linked := LinkPass(d, updates);
      var constraints, defs;
      var before := updates;
      updates, constraints, defs := BodyPass(d, linked);
      pil, definitions := pil + constraints, definitions + defs;
      forall r | r in updates ensures updates[r] == before[r] + UpdatesOf(d, r) {
        Assoc(before[r], LinkUpdates(Col(InstrFlag(d.name)), d.links, r), BodyUpdates(d, d.body, r));
      }
    }

    /** The value of an assignment register is an affine combination of the readable registers. */
    method CreateConstraintsForAssignmentReg(a: string)
      modifies this
      ensures pil == old(pil) + [AssignIdentity(g.m, a)] && definitions == old(definitions) && updates == old(updates)
      ensures lineLookup == old(lineLookup) + AssignColumns(g, a)
    {
      lineLookup := lineLookup + [Const(a), ReadFree(a)];
      var regs := ReadRegs(g.m);
      var sum: seq<Expr> := [];
      for k := 0 to |regs|
        invariant pil == old(pil) && definitions == old(definitions) && updates == old(updates) && sum == ReadProducts(a, regs[..k])
        invariant lineLookup + ReadColumns(a, regs[k..]) == old(lineLookup) + ([Const(a), ReadFree(a)] + ReadColumns(a, regs))
      {
        assert regs[k..][0] == regs[k] && regs[k..][1..] == regs[k + 1..];
        assert regs[..k + 1][..k] == regs[..k];
        lineLookup := lineLookup + [ReadCoef(a, regs[k])];
        sum := sum + [Mul(Col(ReadCoef(a, regs[k])), Col(Named(regs[k])))];
      }
      assert regs[|regs|..] == [] && regs[..|regs|] == regs;
      pil := pil + [Identity(Col(Named(a)), SumExpr(sum + [Col(Const(a)), Mul(Col(ReadFree(a)), Col(FreeValue(a)))]))];
    }

    /** Registers first, then instructions and the implicit return, then assignment registers, and last
        the update identities of all registers. */
    method CollectConstraints()
      requires pil == [] && definitions == [] && lineLookup == [] && updates == map[] && NamesDistinct(g.m.regs)
      requires forall d :: d in Defs(g) ==> Declared(Names(g.m.regs), d)
      modifies this
      ensures lineLookup == RegsColumns(g, g.m.regs) + DefsColumns(Defs(g)) + AssignsColumns(g, RegNames(g.m.regs, Assignment))
      ensures pil == DefsConstraints(Defs(g)) + AssignIdentities(g, RegNames(g.m.regs, Assignment)) + RegsIdentities(g, g.m.regs)
      ensures definitions == Definitions(Defs(g))
    {
      DeclareRegisters();
      DefineInstructions();
      assert pil == DefsConstraints(Defs(g)) && definitions == Definitions(Defs(g));
      ConstrainAssignmentRegisters();
      AddRegisterIdentities();
    }

    method DeclareRegisters()
      requires pil == [] && definitions == [] && lineLookup == [] && updates == map[] && NamesDistinct(g.m.regs)
      modifies this
      ensures pil == [] && definitions == [] && lineLookup == RegsColumns(g, g.m.regs) && OwnState(g, g.m.regs, updates)
    {
      var regs := g.m.regs;
      for k := 0 to |regs|
        invariant pil == [] && definitions == [] && lineLookup == RegsColumns(g, regs[..k]) && OwnState(g, regs[..k], updates)
      {
        OwnStepAt(g, regs, k, updates);
        HandleRegisterDeclaration(regs[k]);
      }
      assert regs[..|regs|] == regs;
    }

    method DefineInstructions()
      requires OwnState(g, g.m.regs, updates) && forall d :: d in Defs(g) ==> Declared(Names(g.m.regs), d)
      modifies this
      ensures pil == old(pil) + DefsConstraints(Defs(g)) && lineLookup == old(lineLookup) + DefsColumns(Defs(g))
      ensures definitions == old(definitions) + Definitions(Defs(g)) && FullState(g, updates)
    {
      var defs := Defs(g);
      for k := 0 to |defs|
        invariant pil == old(pil) + DefsConstraints(defs[..k]) && lineLookup == old(lineLookup) + DefsColumns(defs[..k])
        invariant definitions == old(definitions) + Definitions(defs[..k]) && After(old(updates), updates, defs[..k])
      {
        assert defs[k] in defs;
        assert defs[..k + 1] == defs[..k] + [defs[k]];
        DefsStep(defs[..k], defs[k]);
        DefinitionsSnoc(defs[..k], defs[k]);
        Assoc(old(definitions), Definitions(defs[..k]), BodyDefinitions(defs[k], defs[k].body));
        Assoc(old(pil), DefsConstraints(defs[..k]), BodyConstraints(defs[k], defs[k].body));
        Assoc(old(lineLookup), DefsColumns(defs[..k]), InstrColumns(defs[k]));
        ghost var before := updates;
        HandleInstructionDef(defs[k]);
        AfterStep(old(updates), before, updates, defs[..k], defs[k]);
      }
      assert defs[..|defs|] == defs;
      AfterAll(g, old(updates), updates);
    }

    method ConstrainAssignmentRegisters()
      modifies this
      ensures lineLookup == old(lineLookup) + AssignsColumns(g, RegNames(g.m.regs, Assignment))
      ensures pil == old(pil) + AssignIdentities(g, RegNames(g.m.regs, Assignment)) && definitions == old(definitions) && updates == old(updates)
    {
      var assigns := RegNames(g.m.regs, Assignment);
      for k := 0 to |assigns|
        invariant lineLookup == old(lineLookup) + AssignsColumns(g, assigns[..k]) && updates == old(updates)
        invariant pil == old(pil) + AssignIdentities(g, assigns[..k]) && definitions == old(definitions)
      {
        assert assigns[..k + 1] == assigns[..k] + [assigns[k]];
        AssignsStep(g, assigns[..k], assigns[k]);
        Assoc(old(pil), AssignIdentities(g, assigns[..k]), [AssignIdentity(g.m, assigns[k])]);
        Assoc(old(lineLookup), AssignsColumns(g, assigns[..k]), AssignColumns(g, assigns[k]));
        CreateConstraintsForAssignmentReg(assigns[k]);
      }
      assert assigns[..|assigns|] == assigns;
    }

    method AddRegisterIdentities()
      requires FullState(g, updates)
      modifies this
      ensures pil == old(pil) + RegsIdentities(g, g.m.regs) && definitions == old(definitions) && lineLookup == old(lineLookup)
    {
      var regs := g.m.regs;
      for k := 0 to |regs|
        invariant pil == old(pil) + RegsIdentities(g, regs[..k]) && updates == old(updates)
        invariant definitions == old(definitions) && lineLookup == old(lineLookup)
      {
        assert regs[..k + 1] == regs[..k] + [regs[k]];
        IdentitiesStep(g, regs[..k], regs[k]);
        FullStateAt(g, updates, regs[k]);
        Assoc(old(pil), RegsIdentities(g, regs[..k]), RegisterIdentities(g, regs[k]));
        pil := pil + IdentitiesFor(regs[k], updates[regs[k].name]);
      }
      assert regs[..|regs|] == regs;
    }
  }

  /** Every register has the updates it starts with. */
  ghost predicate OwnState(g: Program, regs: seq<RegDecl>, u: Updates) {
    u.Keys == Names(regs) && forall r :: r in regs ==> r.name in u && u[r.name] == OwnUpdates(g, r)
  }

  /** Every register has all its updates. */
  ghost predicate FullState(g: Program, u: Updates) {
    u.Keys == Names(g.m.regs) && forall r :: r in g.m.regs ==> r.name in u && u[r.name] == RegisterUpdates(g, r)
  }

  ghost predicate After(u0: Updates, u: Updates, defs: seq<InstrDef>) {
    u.Keys == u0.Keys && forall x :: x in u ==> u[x] == u0[x] + InstrUpdates(defs, x)
  }

  lemma OwnStep(g: Program, regs: seq<RegDecl>, r: RegDecl, u: Updates)
    requires OwnState(g, regs, u) && NamesDistinct(regs + [r])
    ensures OwnState(g, regs + [r], u[r.name := OwnUpdates(g, r)])
    ensures RegsColumns(g, regs + [r]) == RegsColumns(g, regs) + RegisterColumns(g, r)
  {
    assert (regs + [r])[..|regs|] == regs;
    forall s | s in regs ensures s.name != r.name {
      var i :| 0 <= i < |regs| && regs[i] == s;
      assert (regs + [r])[i].name != (regs + [r])[|regs|].name;
    }
  }

  lemma OwnStepAt(g: Program, regs: seq<RegDecl>, k: nat, u: Updates)
    requires k < |regs| && OwnState(g, regs[..k], u) && NamesDistinct(regs)
    ensures OwnState(g, regs[..k + 1], u[regs[k].name := OwnUpdates(g, regs[k])])
    ensures RegsColumns(g, regs[..k + 1]) == RegsColumns(g, regs[..k]) + RegisterColumns(g, regs[k])
  {
    assert regs[..k + 1] == regs[..k] + [regs[k]];
    OwnStep(g, regs[..k], regs[k], u);
  }

  lemma DefsStep(defs: seq<InstrDef>, d: InstrDef)
    ensures DefsColumns(defs + [d]) == DefsColumns(defs) + InstrColumns(d)
    ensures DefsConstraints(defs + [d]) == DefsConstraints(defs) + BodyConstraints(d, d.body)
  {
    assert (defs + [d])[..|defs|] == defs;
  }

  lemma AssignsStep(g: Program, assigns: seq<string>, a: string)
    ensures AssignsColumns(g, assigns + [a]) == AssignsColumns(g, assigns) + AssignColumns(g, a)
    ensures AssignIdentities(g, assigns + [a]) == AssignIdentities(g, assigns) + [AssignIdentity(g.m, a)]
  {
    assert (assigns + [a])[..|assigns|] == assigns;
  }

  lemma IdentitiesStep(g: Program, regs: seq<RegDecl>, r: RegDecl)
    ensures RegsIdentities(g, regs + [r]) == RegsIdentities(g, regs) + RegisterIdentities(g, r)
  {
    assert (regs + [r])[..|regs|] == regs;
  }

  lemma FullStateAt(g: Program, u: Updates, r: RegDecl)
    requires FullState(g, u) && r in g.m.regs
    ensures r.name in u && IdentitiesFor(r, u[r.name]) == RegisterIdentities(g, r)
  {
  }

  lemma AfterStep(u0: Updates, u: Updates, u': Updates, defs: seq<InstrDef>, d: InstrDef)
    requires After(u0, u, defs) && u'.Keys == u.Keys && forall x :: x in u' ==> u'[x] == u[x] + UpdatesOf(d, x)
    ensures After(u0, u', defs + [d])
  {
    forall x | x in u' ensures u'[x] == u0[x] + InstrUpdates(defs + [d], x) {
      InstrSnoc(defs, d, x);
      Assoc(u0[x], InstrUpdates(defs, x), UpdatesOf(d, x));
    }
  }

  lemma AfterAll(g: Program, u0: Updates, u: Updates)
    requires OwnState(g, g.m.regs, u0) && After(u0, u, Defs(g))
    ensures FullState(g, u)
  {
    forall r | r in g.m.regs ensures r.name in u && u[r.name] == RegisterUpdates(g, r) { assert r.name in u0; }
  }

  function Names(regs: seq<RegDecl>): set<string> { set r | r in regs :: r.name }

  function RegsColumns(g: Program, regs: seq<RegDecl>): seq<Column> {
    if regs == [] then [] else RegsColumns(g, regs[..|regs| - 1]) + RegisterColumns(g, regs[|regs| - 1])
  }

  function RegsIdentities(g: Program, regs: seq<RegDecl>): seq<Identity> {
    if regs == [] then [] else RegsIdentities(g, regs[..|regs| - 1]) + RegisterIdentities(g, regs[|regs| - 1])
  }

  function DefsColumns(defs: seq<InstrDef>): seq<Column> {
    if defs == [] then [] else DefsColumns(defs[..|defs| - 1]) + InstrColumns(defs[|defs| - 1])
  }

  function DefsConstraints(defs: seq<InstrDef>): seq<Identity> {
    if defs == [] then [] else DefsConstraints(defs[..|defs| - 1]) + BodyConstraints(defs[|defs| - 1], defs[|defs| - 1].body)
  }

  function AssignsColumns(g: Program, assigns: seq<string>): seq<Column> {
    if assigns == [] then [] else AssignsColumns(g, assigns[..|assigns| - 1]) + AssignColumns(g, assigns[|assigns| - 1])
  }

  function AssignIdentities(g: Program, assigns: seq<string>): seq<Identity> {
    if assigns == [] then [] else AssignIdentities(g, assigns[..|assigns| - 1]) + [AssignIdentity(g.m, assigns[|assigns| - 1])]
  }

  // ----- the collected lists are the identities and looked-up columns of the compiled machine -----

  lemma {:induction false} RegsColumnsMembers(g: Program, regs: seq<RegDecl>, c: Column)
    ensures c in RegsColumns(g, regs) <==> exists r :: r in regs && c in RegisterColumns(g, r)
    decreases |regs|
  {
    if regs != [] {
      var n := |regs| - 1;
      RegsColumnsMembers(g, regs[..n], c);
      if c in RegsColumns(g, regs[..n]) {
        var r :| r in regs[..n] && c in RegisterColumns(g, r);
        assert r in regs;
      } else if c in RegisterColumns(g, regs[n]) {
        assert regs[n] in regs;
      } else {
        assert forall r :: r in regs ==> r in regs[..n] || r == regs[n];
      }
    }
  }

  lemma {:induction false} DefsColumnsMembers(defs: seq<InstrDef>, c: Column)
    ensures c in DefsColumns(defs) <==> exists d :: d in defs && c in InstrColumns(d)
    decreases |defs|
  {
    if defs != [] {
      var n := |defs| - 1;
      DefsColumnsMembers(defs[..n], c);
      assert forall d :: d in defs <==> d in defs[..n] || d == defs[n];
    }
  }

  lemma {:induction false} AssignsColumnsMembers(g: Program, assigns: seq<string>, c: Column)
    ensures c in AssignsColumns(g, assigns) <==> exists a :: a in assigns && c in AssignColumns(g, a)
    decreases |assigns|
  {
    if assigns != [] {
      var n := |assigns| - 1;
      AssignsColumnsMembers(g, assigns[..n], c);
      assert forall a :: a in assigns <==> a in assigns[..n] || a == assigns[n];
    }
  }

  lemma RegisterColumnIs(g: Program, c: Column)
    ensures (exists r :: r in g.m.regs && c in RegisterColumns(g, r)) <==> c.WriteFlag? && IsLookupColumn(g, c)
  {
    forall r | r in g.m.regs ensures c in RegisterColumns(g, r) <==> r.ty == Write && c.WriteFlag? && c.reg == r.name && HasReg(g.m.regs, c.assign, Assignment) {
      WriteColumnsMembers(RegNames(g.m.regs, Assignment), r.name, c);
    }
    if c.WriteFlag? && IsLookupColumn(g, c) { assert RegDecl(c.reg, Write) in g.m.regs; }
  }

  lemma InstrColumnIs(g: Program, c: Column)
    ensures (exists d :: d in Defs(g) && c in InstrColumns(d)) <==> (c.InstrFlag? || c.Param?) && IsLookupColumn(g, c)
  {
    forall d | d in Defs(g)
      ensures c in InstrColumns(d) <==> (c.InstrFlag? && c.instr == d.name) || (c.Param? && c.instr == d.name && c.param in LiteralNames(d.inputs))
    {
      ParamColumnsMembers(d.name, LiteralNames(d.inputs), c);
    }
  }

  lemma AssignColumnIs(g: Program, c: Column)
    ensures (exists a :: a in RegNames(g.m.regs, Assignment) && c in AssignColumns(g, a))
            <==> (c.Const? || c.ReadFree? || c.ReadCoef?) && IsLookupColumn(g, c)
  {
    forall a | a in RegNames(g.m.regs, Assignment)
      ensures c in AssignColumns(g, a) <==>
              (c.Const? && c.assign == a) || (c.ReadFree? && c.assign == a) || (c.ReadCoef? && c.assign == a && c.reg in ReadRegs(g.m))
    {
      ReadColumnsMembers(a, ReadRegs(g.m), c);
    }
    if (c.Const? || c.ReadFree? || c.ReadCoef?) && IsLookupColumn(g, c) {
      assert c.assign in RegNames(g.m.regs, Assignment);
      assert c in AssignColumns(g, c.assign);
    }
  }

  /** The looked-up columns are exactly the ones collected. */
  lemma CollectedColumns(g: Program, c: Column)
    ensures c in RegsColumns(g, g.m.regs) + DefsColumns(Defs(g)) + AssignsColumns(g, RegNames(g.m.regs, Assignment)) <==> IsLookupColumn(g, c)
  {
    RegsColumnsMembers(g, g.m.regs, c);
    DefsColumnsMembers(Defs(g), c);
    AssignsColumnsMembers(g, RegNames(g.m.regs, Assignment), c);
    RegisterColumnIs(g, c);
    InstrColumnIs(g, c);
    AssignColumnIs(g, c);
  }

  lemma {:induction false} DefsConstraintsMembers(defs: seq<InstrDef>, id: Identity)
    ensures id in DefsConstraints(defs) <==> exists d, b :: d in defs && b in d.body && TryExtractUpdate(b).None? && id == BodyConstraint(d, b)
    decreases |defs|
  {
    if defs != [] {
      var n := |defs| - 1;
      DefsConstraintsMembers(defs[..n], id);
      BodyConstraintsMembers(defs[n], defs[n].body, id);
      assert forall d :: d in defs <==> d in defs[..n] || d == defs[n];
    }
  }

  lemma {:induction false} AssignIdentitiesMembers(g: Program, assigns: seq<string>, id: Identity)
    ensures id in AssignIdentities(g, assigns) <==> exists a :: a in assigns && id == AssignIdentity(g.m, a)
    decreases |assigns|
  {
    if assigns != [] {
      var n := |assigns| - 1;
      AssignIdentitiesMembers(g, assigns[..n], id);
      assert forall a :: a in assigns <==> a in assigns[..n] || a == assigns[n];
    }
  }

  lemma {:induction false} RegsIdentitiesMembers(g: Program, regs: seq<RegDecl>, id: Identity)
    ensures id in RegsIdentities(g, regs) <==> exists r :: r in regs && id in RegisterIdentities(g, r)
    decreases |regs|
  {
    if regs != [] {
      var n := |regs| - 1;
      RegsIdentitiesMembers(g, regs[..n], id);
      assert forall r :: r in regs <==> r in regs[..n] || r == regs[n];
    }
  }

  /** The identities of the compiled machine are its own and exactly the ones collected. */
  lemma CollectedIdentities(g: Program, id: Identity)
    ensures id in g.m.pil || id in DefsConstraints(Defs(g)) + AssignIdentities(g, RegNames(g.m.regs, Assignment)) + RegsIdentities(g, g.m.regs)
            <==> IsIdentity(g, id)
  {
    DefsConstraintsMembers(Defs(g), id);
    AssignIdentitiesMembers(g, RegNames(g.m.regs, Assignment), id);
    RegsIdentitiesMembers(g, g.m.regs, id);
  }

  // ----- the whole pass -----

  lemma {:induction false} LiteralCount(p: Modulus, inputs: seq<Input>, args: seq<AsmExpr>)
    requires |inputs| <= |args| && HandleInputs(p, inputs, args).Some?
    ensures |HandleInputs(p, inputs, args).value.lits| == |LiteralNames(inputs)|
    decreases |inputs|
  {
    if inputs != [] {
      LiteralCount(p, inputs[..|inputs| - 1], args);
      LiteralNamesSnoc(inputs);
    }
  }

  lemma BatchInstrOk(p: Modulus, g: Program, b: Batch)
    requires HandleBatch(p, g, b).Some?
    ensures InstrOk(g, HandleBatch(p, g, b).value)
  {
    BatchLine(p, g, b);
    var act := ActionOf(b);
    if act.Invoke? { LiteralCount(p, InstrOf(g, act).inputs, act.args); }
  }

  /** One code line per batch; fails on the first batch that is rejected. */
  method HandleBatches(p: Modulus, g: Program) returns (lines: Option<seq<CodeLine>>)
    ensures lines == CodeLines(p, g, g.rom)
  {
    var out: seq<CodeLine> := [];
    for k := 0 to |g.rom|
      invariant CodeLines(p, g, g.rom[..k]) == Some(out)
    {
      LinesStep(p, g, g.rom, k);
      var l := HandleBatch(p, g, g.rom[k]);
      if l.None? {
        RejectedPrefix(p, g, g.rom, k + 1);
        return None;
      }
      out := out + [l.value];
    }
    assert g.rom[..|g.rom|] == g.rom;
    lines := Some(out);
  }

  lemma LinesStep(p: Modulus, g: Program, rom: Rom, k: nat)
    requires k < |rom|
    ensures var front := CodeLines(p, g, rom[..k]);
            var l := HandleBatch(p, g, rom[k]);
            CodeLines(p, g, rom[..k + 1]) == if front.None? || l.None? then None else Some(front.value + [l.value])
  {
    assert rom[..k + 1][..k] == rom[..k];
  }

  lemma {:induction false} RejectedPrefix(p: Modulus, g: Program, rom: Rom, k: nat)
    requires k <= |rom| && CodeLines(p, g, rom[..k]).None?
    ensures CodeLines(p, g, rom).None?
    decreases |rom|
  {
    if k < |rom| {
      assert rom[..|rom| - 1][..k] == rom[..k];
      RejectedPrefix(p, g, rom[..|rom| - 1], k);
    } else {
      assert rom[..k] == rom;
    }
  }

  /** Label positions; fails on a label that occurs twice. */
  method ComputeLabelPositions(lines: seq<CodeLine>) returns (pos: Option<map<string, nat>>)
    ensures pos == LabelPositions(lines)
  {
    var acc: map<string, nat> := map[];
    for k := 0 to |lines|
      invariant LabelPositions(lines[..k]) == Some(acc)
    {
      assert lines[..k + 1][..k] == lines[..k];
      if acc.Keys * lines[k].labels != {} {
        DuplicateLabel(lines, k + 1);
        return None;
      }
      acc := acc + (map l | l in lines[k].labels :: k);
    }
    assert lines[..|lines|] == lines;
    pos := Some(acc);
  }

  lemma {:induction false} DuplicateLabel(lines: seq<CodeLine>, k: nat)
    requires k <= |lines| && LabelPositions(lines[..k]).None?
    ensures LabelPositions(lines).None?
    decreases |lines|
  {
    if k < |lines| {
      assert lines[..|lines| - 1][..k] == lines[..k];
      DuplicateLabel(lines[..|lines| - 1], k);
    } else {
      assert lines[..k] == lines;
    }
  }

  datatype Compiled = Compiled(pil: seq<Identity>, definitions: seq<Definition>, lookup: seq<Column>, rom: seq<RomRow>)

  /** The lists hold exactly the identities, the intermediate columns and the looked-up columns of the
      compiled machine. */
  ghost predicate Collects(g: Program, pil: seq<Identity>, definitions: seq<Definition>, lookup: seq<Column>) {
    definitions == Definitions(Defs(g)) && (forall id :: id in pil <==> IsIdentity(g, id)) && forall c :: c in lookup <==> IsLookupColumn(g, c)
  }

  /** The ROM has one row per batch, with the entries of its code line. */
  ghost predicate RomHolds(p: Modulus, g: Program, rom: seq<RomRow>)
    requires Accepted(p, g)
  {
    RowsHold(p, g, Labels(p, g), Lines(p, g), rom)
  }

  method Collect(p: Modulus, g: Program) returns (pil: seq<Identity>, definitions: seq<Definition>, lookup: seq<Column>)
    requires NamesDistinct(g.m.regs) && forall d :: d in Defs(g) ==> Declared(Names(g.m.regs), d)
    ensures Collects(g, pil, definitions, lookup)
  {
    var cv := new Converter(p, g);
    cv.CollectConstraints();
    pil, definitions, lookup := g.m.pil + cv.pil, cv.definitions, cv.lineLookup;
    forall id ensures id in pil <==> IsIdentity(g, id) { CollectedIdentities(g, id); }
    forall c ensures c in lookup <==> IsLookupColumn(g, c) { CollectedColumns(g, c); }
  }

  /** All code lines touch only existing ROM columns. */
  method CheckLines(m: Machine, pos: map<string, nat>, lines: seq<CodeLine>) returns (ok: bool)
    ensures ok <==> forall i :: 0 <= i < |lines| ==> LineOk(m, pos, lines[i])
  {
    for i := 0 to |lines|
      invariant forall j :: 0 <= j < i ==> LineOk(m, pos, lines[j])
    {
      if !LineOk(m, pos, lines[i]) { return false; }
    }
    ok := true;
  }

  method AcceptProgram(p: Modulus, g: Program) returns (ok: bool, lines: seq<CodeLine>, pos: map<string, nat>)
    ensures ok <==> Accepted(p, g)
    ensures ok ==> lines == Lines(p, g) && pos == Labels(p, g)
  {
    ok, lines, pos := false, [], map[];
    var ls := HandleBatches(p, g);
    if ls.None? { return; }
    lines := ls.value;
    var ps := ComputeLabelPositions(lines);
    if ps.None? { return; }
    pos := ps.value;
    ok := CheckLines(g.m, pos, lines);
  }

  lemma AcceptedLines(p: Modulus, g: Program)
    requires Accepted(p, g)
    ensures LinesOk(g, Labels(p, g), Lines(p, g))
  {
    forall i | 0 <= i < |Lines(p, g)| ensures InstrOk(g, Lines(p, g)[i]) { BatchInstrOk(p, g, g.rom[i]); }
  }

  method BuildRom(p: Modulus, g: Program, columns: set<Column>) returns (rom: Option<seq<RomRow>>)
    requires forall c :: c in columns <==> IsLookupColumn(g, c)
    ensures (rom.Some? <==> Accepted(p, g)) && (rom.Some? ==> RomHolds(p, g, rom.value))
  {
    var ok, lines, pos := AcceptProgram(p, g);
    if !ok { return None; }
    AcceptedLines(p, g);
    var rows := TranslateCodeLines(p, g, pos, lines, columns);
    rom := Some(rows);
  }

  /** The constraints, looked-up columns and ROM of a machine, if it is accepted. */
  method ConvertMachine(p: Modulus, g: Program) returns (r: Option<Compiled>)
    requires NamesDistinct(g.m.regs) && forall d :: d in Defs(g) ==> Declared(Names(g.m.regs), d)
    ensures r.Some? <==> Accepted(p, g)
    ensures r.Some? ==> Collects(g, r.value.pil, r.value.definitions, r.value.lookup) && RomHolds(p, g, r.value.rom)
  {
    var pil, definitions, lookup := Collect(p, g);
    var rom := BuildRom(p, g, set c | c in lookup);
    if rom.None? { return None; }
    r := Some(Compiled(pil, definitions, lookup, rom.value));
  }

  // ----- the output of the pass accepts exactly the runs -----

  /** The row agrees with row `k` of the padded ROM on the line number and the looked-up columns. */
  ghost predicate InRom(g: Program, r: Compiled, cur: Row, k: nat) {
    |r.rom| > 0 &&
    var i := PaddedIndex(k, |r.rom|);
    cur(Named(PcName(g.m))) == i && forall c :: c in r.lookup ==> c in r.rom[i] && cur(c) == r.rom[i][c]
  }

  /** An identity with the generated intermediate columns replaced by their definitions. */
  function Expanded(r: Compiled, id: Identity): Identity {
    Identity(Expand(r.definitions, id.lhs), Expand(r.definitions, id.rhs))
  }

  ghost predicate RowChecks(p: Modulus, g: Program, r: Compiled, height: nat, cur: Row, nxt: Row, i: nat, n: nat) {
    && (forall c :: 0 <= cur(c) < p) && FixedOk(cur, i, n)
    && (forall id :: id in r.pil ==> Holds(p, Expanded(r, id), cur, nxt))
    && (exists k: nat :: k < height && InRom(g, r, cur, k))
  }

  /** The table satisfies the generated identities and the lookup into the generated ROM. */
  ghost predicate TableChecks(p: Modulus, g: Program, r: Compiled, height: nat, t: seq<Row>) {
    |t| > 0 && forall i :: 0 <= i < |t| ==> RowChecks(p, g, r, height, t[i], t[NextIndex(i, |t|)], i, |t|)
  }

  lemma InRomIff(p: Modulus, g: Program, r: Compiled, cur: Row, k: nat)
    requires Accepted(p, g) && |g.rom| > 0 && Collects(g, r.pil, r.definitions, r.lookup) && RomHolds(p, g, r.rom)
    ensures InRom(g, r, cur, k) <==> MatchesRom(p, g, cur, k)
  {
    var i := PaddedIndex(k, |g.rom|);
    assert |r.rom| == |g.rom| == |Lines(p, g)|;
    forall c | IsLookupColumn(g, c) ensures c in r.rom[i] && r.rom[i][c] == RomEntry(p, g, Labels(p, g), Lines(p, g)[i], c) { }
  }

  lemma RowChecksIff(p: Modulus, g: Program, r: Compiled, height: nat, cur: Row, nxt: Row, i: nat, n: nat)
    requires Accepted(p, g) && |g.rom| > 0 && Collects(g, r.pil, r.definitions, r.lookup) && RomHolds(p, g, r.rom)
    ensures RowChecks(p, g, r, height, cur, nxt, i, n) <==> RowSatisfies(p, g, height, cur, nxt, i, n)
  {
    forall k: nat ensures InRom(g, r, cur, k) <==> MatchesRom(p, g, cur, k) { InRomIff(p, g, r, cur, k); }
    assert forall id :: id in r.pil <==> IsIdentity(g, id);
    assert forall id :: Expanded(r, id) == ExpandIdentity(g, id);
  }

  lemma TableChecksIff(p: Modulus, g: Program, r: Compiled, height: nat, t: seq<Row>)
    requires Accepted(p, g) && |g.rom| > 0 && Collects(g, r.pil, r.definitions, r.lookup) && RomHolds(p, g, r.rom)
    ensures TableChecks(p, g, r, height, t) <==> Satisfies(p, g, height, t)
  {
    forall i | 0 <= i < |t|
      ensures RowChecks(p, g, r, height, t[i], t[NextIndex(i, |t|)], i, |t|) <==> RowSatisfies(p, g, height, t[i], t[NextIndex(i, |t|)], i, |t|)
    {
      RowChecksIff(p, g, r, height, t[i], t[NextIndex(i, |t|)], i, |t|);
    }
  }

  /** The generated constraints accept exactly the runs that add up the values of all writers. */
  lemma OutputAcceptsSums(p: Modulus, g: Program, r: Compiled, height: nat, t: seq<Row>)
    requires WellFormed(p, g) && |g.rom| <= height && Collects(g, r.pil, r.definitions, r.lookup) && RomHolds(p, g, r.rom)
    ensures IsSumRun(p, g, t) <==> exists t' :: SameRun(t, t') && TableChecks(p, g, r, height, t')
  {
    CompilationSums(p, g, height, t);
    forall t' ensures TableChecks(p, g, r, height, t') <==> Satisfies(p, g, height, t') { TableChecksIff(p, g, r, height, t'); }
  }

  /** They accept exactly the runs of the program, if at most one writer of a register takes effect in a
      row. */
  lemma OutputAcceptsRuns(p: Modulus, g: Program, r: Compiled, height: nat, t: seq<Row>)
    requires WellFormed(p, g) && |g.rom| <= height && AllExclusive(p, g, t)
    requires Collects(g, r.pil, r.definitions, r.lookup) && RomHolds(p, g, r.rom)
    ensures IsRun(p, g, t) <==> exists t' :: SameRun(t, t') && TableChecks(p, g, r, height, t')
  {
    RunIff(p, g, t);
    OutputAcceptsSums(p, g, r, height, t);
  }
}
