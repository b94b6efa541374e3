/** The compiler from assembly programs to constraints: affine right-hand sides, code lines,
    ROM contents, and the identities and lookup of the compiled machine. */
module VmCompile {
  import opened Options
  import opened Congruence
  import opened Pil
  import opened Asm

  // ----- affine right-hand sides -----

  datatype Component = RegisterPart(name: string) | ConstantPart | FreePart

  datatype Term = Term(coeff: int, comp: Component)

  function Scale(p: Modulus, f: int, ts: seq<Term>): (r: seq<Term>)
    ensures |r| == |ts|
  {
    seq(|ts|, i requires 0 <= i < |ts| => Term(Rep(p, f * ts[i].coeff), ts[i].comp))
  }

  predicate IsConstant(ts: seq<Term>) {
    |ts| == 1 && ts[0].comp == ConstantPart
  }

  /** Turns an expression into a sum of terms; `None` where the compiler rejects the expression. */
  function ProcessValue(p: Modulus, e: AsmExpr): Option<seq<Term>> {
    match e
    case Number(n) => Some([Term(Rep(p, n), ConstantPart)])
    case Ref(x) => Some([Term(1, RegisterPart(x))])
    case FreeInput => Some([Term(1, FreePart)])
    case Other => None
    case Minus(a) =>
      var t := ProcessValue(p, a);
      if t.None? then None else Some(Scale(p, -1, t.value))
    case Bin(op, a, b) =>
      var l := ProcessValue(p, a);
      var r := ProcessValue(p, b);
      if l.None? || r.None? then None
      else match op
        case AddOp => Some(l.value + r.value)
        case SubOp => Some(l.value + Scale(p, -1, r.value))
        case MulOp =>
          if IsConstant(l.value) then Some(Scale(p, l.value[0].coeff, r.value))
          else if IsConstant(r.value) then Some(Scale(p, r.value[0].coeff, l.value))
          else None
        case PowOp =>
          if IsConstant(l.value) && IsConstant(r.value) && 0 <= r.value[0].coeff <= U32_MAX
          then Some([Term(Rep(p, Pow(l.value[0].coeff, r.value[0].coeff)), ConstantPart)])
          else None
        case OtherOp => None
  }

  function TermValue(t: Term, cur: Row, free: int): int {
    t.coeff * match t.comp
      case RegisterPart(x) => cur(Named(x))
      case ConstantPart => 1
      case FreePart => free
  }

  function TermSum(ts: seq<Term>, cur: Row, free: int): int {
    if ts == [] then 0 else TermSum(ts[..|ts| - 1], cur, free) + TermValue(ts[|ts| - 1], cur, free)
  }

  // ----- code lines -----

  datatype LitArg = LabelRef(name: string) | LitNum(n: int)

  datatype CodeLine = CodeLine(
    writes: map<string, seq<string>>,          // assignment register -> registers written from it
    value: map<string, seq<Term>>,             // assignment register -> its right-hand side
    labels: set<string>,
    instrs: seq<(string, seq<LitArg>)>)

  const EMPTY_LINE := CodeLine(map[], map[], {}, [])

  function LiteralArg(p: Modulus, kind: LiteralKind, a: AsmExpr): Option<LitArg> {
    match kind
    case LabelKind => if a.Ref? then Some(LabelRef(a.name)) else None
    case UnsignedConstant => if a.Number? && a.n < p / 2 then Some(LitNum(Rep(p, a.n))) else None
    case SignedConstant =>
      if a.Number? && a.n < p then Some(LitNum(a.n))
      else if a.Minus? && a.e.Number? && a.e.n < p then Some(LitNum(Rep(p, 0 - a.e.n)))
      else None
  }

  datatype Inputs = Inputs(value: map<string, seq<Term>>, lits: seq<LitArg>)

  /** Folds over the declared inputs and the given arguments. */
  function HandleInputs(p: Modulus, inputs: seq<Input>, args: seq<AsmExpr>): Option<Inputs>
    requires |inputs| <= |args|
  {
    if inputs == [] then Some(Inputs(map[], []))
    else
      var k := |inputs| - 1;
      var acc := HandleInputs(p, inputs[..k], args);
      if acc.None? then None
      else match inputs[k]
        case InReg(a) =>
          var v := ProcessValue(p, args[k]);
          if v.None? || a in acc.value.value then None
          else Some(acc.value.(value := acc.value.value[a := v.value]))
        case InLit(_, kind) =>
          var l := LiteralArg(p, kind, args[k]);
          if l.None? then None else Some(acc.value.(lits := acc.value.lits + [l.value]))
  }

  /** Maps each output register to the register its value is stored in. */
  function HandleOutputs(outputs: seq<string>, targets: seq<AsmExpr>): Option<map<string, seq<string>>>
    requires |outputs| == |targets|
  {
    if outputs == [] then Some(map[])
    else
      var k := |outputs| - 1;
      var acc := HandleOutputs(outputs[..k], targets[..k]);
      if acc.None? || !targets[k].Ref? || outputs[k] in acc.value then None
      else Some(acc.value[outputs[k] := [targets[k].name]])
  }

  function HandleInstruction(p: Modulus, g: Program, instr: string, args: seq<AsmExpr>): Option<CodeLine> {
    var d := FindInstr(Defs(g), instr);
    if d.None? || |d.value.inputs| + |d.value.outputs| != |args| then None
    else
      var ins := HandleInputs(p, d.value.inputs, args);
      var outs := HandleOutputs(d.value.outputs, args[|d.value.inputs|..]);
      if ins.None? || outs.None? then None
      else Some(CodeLine(outs.value, ins.value.value, {}, [(instr, ins.value.lits)]))
  }

  /** The caller names the output registers of the instruction, in order. */
  predicate OutputsMatch(g: Program, instr: string, lhs: seq<(string, string)>) {
    var d := FindInstr(Defs(g), instr);
    d.Some? && forall k :: 0 <= k < |lhs| && k < |d.value.outputs| ==> d.value.outputs[k] == lhs[k].1
  }

  function HandleStatement(p: Modulus, g: Program, s: Stmt): Option<CodeLine> {
    match s
    case Assign(r, a, e) =>
      var v := ProcessValue(p, e);
      if v.None? then None else Some(EMPTY_LINE.(writes := map[a := [r]], value := map[a := v.value]))
    case CallAssign(lhs, instr, args) =>
      if !OutputsMatch(g, instr, lhs) then None
      else HandleInstruction(p, g, instr, args + seq(|lhs|, k requires 0 <= k < |lhs| => Ref(lhs[k].0)))
    case Instruction(instr, args) => HandleInstruction(p, g, instr, args)
    case Return(args) => HandleInstruction(p, g, RETURN, args)
    case Label(l) => Some(EMPTY_LINE.(labels := {l}))
    case DebugDirective => Some(EMPTY_LINE)
  }

  /** Merges the lines of a batch; every line but the last must be a label or a directive. */
  function HandleBatch(p: Modulus, g: Program, b: Batch): Option<CodeLine> {
    if b == [] then None
    else
      var e := HandleStatement(p, g, b[|b| - 1]);
      if |b| == 1 || e.None? then e
      else
        var acc := HandleBatch(p, g, b[..|b| - 1]);
        if acc.None? || acc.value.writes != map[] || acc.value.value != map[] || acc.value.instrs != [] then None
        else Some(CodeLine(e.value.writes, e.value.value, acc.value.labels + e.value.labels, e.value.instrs))
  }

  function CodeLines(p: Modulus, g: Program, rom: Rom): (r: Option<seq<CodeLine>>)
    ensures r.Some? ==> |r.value| == |rom|
    ensures r.Some? ==> forall i :: 0 <= i < |rom| ==> HandleBatch(p, g, rom[i]) == Some(r.value[i])
  {
    if rom == [] then Some([])
    else
      var front := CodeLines(p, g, rom[..|rom| - 1]);
      var l := HandleBatch(p, g, rom[|rom| - 1]);
      if front.None? || l.None? then None else Some(front.value + [l.value])
  }

  /** Label positions; `None` on a duplicate label. */
  function LabelPositions(lines: seq<CodeLine>): Option<map<string, nat>> {
    if lines == [] then Some(map[])
    else
      var k := |lines| - 1;
      var acc := LabelPositions(lines[..k]);
      if acc.None? || acc.value.Keys * lines[k].labels != {} then None
      else Some(acc.value + (map l | l in lines[k].labels :: k))
  }

  // ----- ROM -----

  function CoeffSum(ts: seq<Term>, comp: Component): int {
    if ts == [] then 0
    else CoeffSum(ts[..|ts| - 1], comp) + (if ts[|ts| - 1].comp == comp then ts[|ts| - 1].coeff else 0)
  }

  function ResolveLit(pos: map<string, nat>, l: LitArg): int {
    match l
    case LabelRef(name) => if name in pos then pos[name] else 0
    case LitNum(n) => n
  }

  /** Later parameters of the same name overwrite earlier ones. */
  function ParamValues(pos: map<string, nat>, names: seq<string>, lits: seq<LitArg>): map<string, int>
    requires |names| == |lits|
  {
    if names == [] then map[]
    else
      var k := |names| - 1;
      ParamValues(pos, names[..k], lits[..k])[names[k] := ResolveLit(pos, lits[k])]
  }

  /** Entry of the ROM column matched with column `c`, for one code line. */
  function RomEntry(p: Modulus, g: Program, pos: map<string, nat>, line: CodeLine, c: Column): int {
    match c
    case WriteFlag(a, r) => if a in line.writes && r in line.writes[a] then 1 else 0
    case ReadCoef(a, r) => if a in line.value then Rep(p, CoeffSum(line.value[a], RegisterPart(r))) else 0
    case Const(a) => if a in line.value then Rep(p, CoeffSum(line.value[a], ConstantPart)) else 0
    case ReadFree(a) =>
      if line.instrs != [] && a in line.writes && line.writes[a] != [] then 1
      else if a in line.value then Rep(p, CoeffSum(line.value[a], FreePart))
      else 0
    case InstrFlag(i) => if line.instrs != [] && line.instrs[0].0 == i then 1 else 0
    case Param(i, q) =>
      if line.instrs != [] && line.instrs[0].0 == i then
        var d := FindInstr(Defs(g), i);
        if d.Some? && |LiteralNames(d.value.inputs)| == |line.instrs[0].1| then
          var vs := ParamValues(pos, LiteralNames(d.value.inputs), line.instrs[0].1);
          if q in vs then vs[q] else 0
        else 0
      else 0
    case _ => 0
  }

  function ReadRegs(m: Machine): seq<string> {
    RegNames(m.regs, Write) + RegNames(m.regs, Pc) + RegNames(m.regs, ReadOnly)
  }

  /** The ROM columns that a line touches exist. */
  predicate LineOk(m: Machine, pos: map<string, nat>, line: CodeLine) {
    && (forall a :: a in line.writes ==>
          HasReg(m.regs, a, Assignment) && forall r :: r in line.writes[a] ==> HasReg(m.regs, r, Write))
    && (forall a :: a in line.value ==>
          HasReg(m.regs, a, Assignment)
          && forall k :: 0 <= k < |line.value[a]| && line.value[a][k].comp.RegisterPart? ==>
               line.value[a][k].comp.name in ReadRegs(m))
    && (forall k, j :: 0 <= k < |line.instrs| && 0 <= j < |line.instrs[k].1| && line.instrs[k].1[j].LabelRef? ==>
          line.instrs[k].1[j].name in pos)
  }

  // ----- identities -----

  function SubstParams(e: Expr, instr: string, names: seq<string>): Expr {
    match e
    case Num(_) => e
    case Col(c) => if c.Named? && c.name in names then Col(Param(instr, c.name)) else e
    case Next(c) => if c.Named? && c.name in names then Next(Param(instr, c.name)) else e
    case Neg(a) => Neg(SubstParams(a, instr, names))
    case Add(a, b) => Add(SubstParams(a, instr, names), SubstParams(b, instr, names))
    case Sub(a, b) => Sub(SubstParams(a, instr, names), SubstParams(b, instr, names))
    case Mul(a, b) => Mul(SubstParams(a, instr, names), SubstParams(b, instr, names))
  }

  function LinkUpdates(flag: Expr, links: seq<LinkDecl>, r: string): seq<Update> {
    if links == [] then []
    else (if r in links[0].nextRegs then [Update(CombineFlags(Some(flag), links[0].flag), Next(Named(r)))] else [])
         + LinkUpdates(flag, links[1..], r)
  }

  /** The right-hand side of an update, with literal parameters replaced and products extracted. */
  function LinearizedUpdate(d: InstrDef, r: string, rhs: Expr): Linear {
    Linearize(d.name, r, SubstParams(rhs, d.name, LiteralNames(d.inputs)))
  }

  /** If `id` has the form `x' = e`, returns `x` and `e`. */
  function TryExtractUpdate(id: Identity): Option<(string, Expr)> {
    if id.lhs.Next? && id.lhs.c.Named? then Some((id.lhs.c.name, id.rhs)) else None
  }

  function BodyUpdates(d: InstrDef, body: seq<Identity>, r: string): seq<Update> {
    if body == [] then []
    else
      var u := TryExtractUpdate(body[0]);
      (if u.Some? && u.value.0 == r
       then [Update(Col(InstrFlag(d.name)), LinearizedUpdate(d, r, u.value.1).e)]
       else [])
      + BodyUpdates(d, body[1..], r)
  }

  /** The updates of register `r` that instruction `d` contributes: links first, then the body. */
  function UpdatesOf(d: InstrDef, r: string): seq<Update> {
    LinkUpdates(Col(InstrFlag(d.name)), d.links, r) + BodyUpdates(d, d.body, r)
  }

  function InstrUpdates(defs: seq<InstrDef>, r: string): seq<Update> {
    if defs == [] then [] else UpdatesOf(defs[0], r) + InstrUpdates(defs[1..], r)
  }

  function WriteUpdates(assigns: seq<string>, r: string): seq<Update> {
    if assigns == [] then []
    else [Update(Col(WriteFlag(assigns[0], r)), Col(Named(assigns[0])))] + WriteUpdates(assigns[1..], r)
  }

  function RegisterUpdates(g: Program, r: RegDecl): seq<Update> {
    (if r.ty == Write then WriteUpdates(RegNames(g.m.regs, Assignment), r.name) else [])
    + InstrUpdates(Defs(g), r.name)
  }

  function DefaultUpdate(r: RegDecl): Option<Expr> {
    match r.ty
    case Pc => Some(Add(Col(Named(r.name)), Num(1)))
    case Assignment => None
    case _ => Some(Col(Named(r.name)))
  }

  function RegisterIdentities(g: Program, r: RegDecl): seq<Identity> { IdentitiesFor(r, RegisterUpdates(g, r)) }

  /** The identities of a register with the given conditional updates. */
  function IdentitiesFor(r: RegDecl, updates: seq<Update>): seq<Identity> {
    var u := UpdateExpression(updates, DefaultUpdate(r));
    var lhs := Next(Named(r.name));
    if u.None? then []
    else match r.ty
      case Pc =>
        [Identity(Col(PcUpdate), u.value),
         Identity(lhs, Mul(Sub(Num(1), Next(FirstStep)), Col(PcUpdate)))]
      case ReadOnly =>
        [Identity(Mul(Sub(Num(1), Col(InstrFlag(RESET))), Sub(lhs, u.value)), Num(0))]
      case _ => [Identity(lhs, u.value)]
  }

  /** `make_conditional(l = r, flag)`. */
  function MakeConditional(id: Identity, flag: Expr): Identity {
    Identity(Mul(flag, Sub(id.lhs, id.rhs)), Num(0))
  }

  function BodyConstraint(d: InstrDef, id: Identity): Identity {
    var names := LiteralNames(d.inputs);
    MakeConditional(Identity(SubstParams(id.lhs, d.name, names), SubstParams(id.rhs, d.name, names)),
                    Col(InstrFlag(d.name)))
  }

  function ReadProducts(a: string, regs: seq<string>): seq<Expr> {
    if regs == [] then []
    else ReadProducts(a, regs[..|regs| - 1])
         + [Mul(Col(ReadCoef(a, regs[|regs| - 1])), Col(Named(regs[|regs| - 1])))]
  }

  function AssignIdentity(m: Machine, a: string): Identity {
    Identity(Col(Named(a)),
             SumExpr(ReadProducts(a, ReadRegs(m)) + [Col(Const(a)), Mul(Col(ReadFree(a)), Col(FreeValue(a)))]))
  }

  function ItemDefinitions(d: InstrDef, id: Identity): seq<Definition> {
    var u := TryExtractUpdate(id);
    if u.Some? then LinearizedUpdate(d, u.value.0, u.value.1).defs else []
  }

  function BodyDefinitions(d: InstrDef, body: seq<Identity>): seq<Definition> {
    if body == [] then [] else ItemDefinitions(d, body[0]) + BodyDefinitions(d, body[1..])
  }

  function Definitions(defs: seq<InstrDef>): seq<Definition> {
    if defs == [] then [] else BodyDefinitions(defs[0], defs[0].body) + Definitions(defs[1..])
  }

  // ----- the compiled machine -----

  ghost predicate IsIdentity(g: Program, id: Identity) {
    || id in g.m.pil
    || (exists d, b :: d in Defs(g) && b in d.body && TryExtractUpdate(b).None? && id == BodyConstraint(d, b))
    || (exists a :: HasReg(g.m.regs, a, Assignment) && id == AssignIdentity(g.m, a))
    || (exists r :: r in g.m.regs && id in RegisterIdentities(g, r))
  }

  /** Columns matched against the ROM. */
  predicate IsLookupColumn(g: Program, c: Column) {
    match c
    case WriteFlag(a, r) => HasReg(g.m.regs, a, Assignment) && HasReg(g.m.regs, r, Write)
    case InstrFlag(i) => exists d :: d in Defs(g) && d.name == i
    case Param(i, q) => exists d :: d in Defs(g) && d.name == i && q in LiteralNames(d.inputs)
    case ReadCoef(a, r) => HasReg(g.m.regs, a, Assignment) && r in ReadRegs(g.m)
    case Const(a) => HasReg(g.m.regs, a, Assignment)
    case ReadFree(a) => HasReg(g.m.regs, a, Assignment)
    case _ => false
  }

  /** The compiler accepts the program: every batch becomes a line, labels are unique, and every
      ROM entry has a column. */
  predicate Accepted(p: Modulus, g: Program) {
    && CodeLines(p, g, g.rom).Some?
    && LabelPositions(CodeLines(p, g, g.rom).value).Some?
    && forall i :: 0 <= i < |g.rom| ==>
         LineOk(g.m, LabelPositions(CodeLines(p, g, g.rom).value).value, CodeLines(p, g, g.rom).value[i])
  }

  function Lines(p: Modulus, g: Program): (r: seq<CodeLine>)
    requires Accepted(p, g)
    ensures |r| == |g.rom|
  {
    CodeLines(p, g, g.rom).value
  }

  function Labels(p: Modulus, g: Program): map<string, nat>
    requires Accepted(p, g)
  {
    LabelPositions(Lines(p, g)).value
  }

  /** ROM row `k`; rows past the end of the code repeat the last line. */
  function PaddedIndex(k: nat, n: nat): nat
    requires n > 0
  {
    if k < n then k else n - 1
  }

  /** A ROM column of `height` rows holds its values, then the last of them again and again. */
  lemma PaddedColumn(values: seq<int>, height: nat)
    requires 0 < |values| <= height
    ensures seq(height, k requires 0 <= k < height => values[PaddedIndex(k, |values|)])
            == values + seq(height - |values|, _ => values[|values| - 1])
  {
  }

  /** The row agrees with ROM row `k` on the line number and on every looked-up column. */
  ghost predicate MatchesRom(p: Modulus, g: Program, cur: Row, k: nat)
    requires Accepted(p, g) && |g.rom| > 0
  {
    var i := PaddedIndex(k, |g.rom|);
    && cur(Named(PcName(g.m))) == i
    && forall c :: IsLookupColumn(g, c) ==> cur(c) == RomEntry(p, g, Labels(p, g), Lines(p, g)[i], c)
  }

  ghost predicate RowSatisfies(p: Modulus, g: Program, height: nat, cur: Row, nxt: Row, i: nat, n: nat)
    requires Accepted(p, g) && |g.rom| > 0
  {
    && (forall c :: 0 <= cur(c) < p)
    && FixedOk(cur, i, n)
    && (forall id :: IsIdentity(g, id) ==> Holds(p, ExpandIdentity(g, id), cur, nxt))
    && (exists k: nat :: k < height && MatchesRom(p, g, cur, k))
  }

  function ExpandIdentity(g: Program, id: Identity): Identity {
    Identity(Expand(Definitions(Defs(g)), id.lhs), Expand(Definitions(Defs(g)), id.rhs))
  }

  /** The table satisfies the constraints of the compiled machine, whose ROM has `height` rows. */
  ghost predicate Satisfies(p: Modulus, g: Program, height: nat, t: seq<Row>)
    requires Accepted(p, g) && |g.rom| > 0
  {
    && |t| > 0
    && forall i :: 0 <= i < |t| ==> RowSatisfies(p, g, height, t[i], t[NextIndex(i, |t|)], i, |t|)
  }
}
