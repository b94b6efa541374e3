/** Assembly machines as the constraint compiler receives them: registers, instructions, and a
    ROM of statement batches; and what it means for a table of rows to be a run of such a machine. */
module Asm {
  import opened Options
  import opened Collections
  import opened Congruence
  import opened Pil

  const RETURN := "return"
  const RESET := "_reset"
  const U32_MAX := 0xFFFF_FFFF

  datatype RegTy = Pc | Assignment | Write | ReadOnly

  datatype RegDecl = RegDecl(name: string, ty: RegTy)

  datatype LiteralKind = LabelKind | SignedConstant | UnsignedConstant

  datatype Input = InReg(name: string) | InLit(name: string, kind: LiteralKind)

  /** A link of an instruction; only its flag and the registers it mentions as `R'` matter here. */
  datatype LinkDecl = LinkDecl(flag: Expr, nextRegs: seq<string>)

  datatype InstrDef = InstrDef(name: string, inputs: seq<Input>, outputs: seq<string>,
                               links: seq<LinkDecl>, body: seq<Identity>)

  datatype Machine = Machine(regs: seq<RegDecl>, instrs: seq<InstrDef>, pil: seq<Identity>)

  datatype AsmOp = AddOp | SubOp | MulOp | PowOp | OtherOp

  datatype AsmExpr =
    | Number(n: nat)
    | Ref(name: string)
    | FreeInput
    | Bin(op: AsmOp, l: AsmExpr, r: AsmExpr)
    | Minus(e: AsmExpr)
    | Other

  datatype Stmt =
    | Assign(reg: string, assign: string, rhs: AsmExpr)
    | CallAssign(lhs: seq<(string, string)>, instr: string, args: seq<AsmExpr>)
    | Instruction(instr: string, args: seq<AsmExpr>)
    | Label(name: string)
    | DebugDirective
    | Return(args: seq<AsmExpr>)

  type Batch = seq<Stmt>
  type Rom = seq<Batch>

  // ----- looking things up -----

  predicate HasReg(regs: seq<RegDecl>, name: string, ty: RegTy) {
    RegDecl(name, ty) in regs
  }

  /** The names of the registers of one kind, in declaration order. */
  function RegNames(regs: seq<RegDecl>, ty: RegTy): (r: seq<string>)
    ensures forall n :: n in r <==> HasReg(regs, n, ty)
  {
    if regs == [] then []
    else (if regs[0].ty == ty then [regs[0].name] else []) + RegNames(regs[1..], ty)
  }

  function OutputName(i: nat): string { "_output_" + Digits(i) }

  function InputName(i: nat): string { "_input_" + Digits(i) }

  function PcName(m: Machine): string {
    var pcs := RegNames(m.regs, Pc);
    if pcs == [] then "" else pcs[0]
  }

  /** `return` takes the output registers as inputs and jumps to line 0. */
  function ReturnInstr(outputCount: nat, pc: string): InstrDef {
    InstrDef(RETURN, seq(outputCount, i requires 0 <= i => InReg(OutputName(i))), [], [],
             [Identity(Next(Named(pc)), Num(0))])
  }

  /** The instructions of the machine followed by the implicit `return`. */
  function AllInstrs(m: Machine, outputCount: nat): seq<InstrDef> {
    m.instrs + [ReturnInstr(outputCount, PcName(m))]
  }

  function FindInstr(defs: seq<InstrDef>, name: string): (r: Option<InstrDef>)
    ensures r.Some? ==> r.value in defs && r.value.name == name
    ensures r.None? ==> forall d :: d in defs ==> d.name != name
  {
    if defs == [] then None
    else if defs[0].name == name then Some(defs[0])
    else FindInstr(defs[1..], name)
  }

  function LiteralNames(inputs: seq<Input>): seq<string> {
    if inputs == [] then []
    else (if inputs[0].InLit? then [inputs[0].name] else []) + LiteralNames(inputs[1..])
  }

  /** Position of the batch that carries a label. */
  function LabelPosition(rom: Rom, name: string): (r: Option<nat>)
    ensures r.Some? ==> r.value < |rom| && Label(name) in rom[r.value]
    ensures r.None? ==> forall i :: 0 <= i < |rom| ==> Label(name) !in rom[i]
  {
    if rom == [] then None
    else if Label(name) in rom[|rom| - 1] then Some(|rom| - 1)
    else LabelPosition(rom[..|rom| - 1], name)
  }

  // ----- meaning of right-hand sides -----

  /** Value of an assembly expression in a row; `free` is the value of its free input.
      The exponent of a power is a field element, hence reduced. */
  function EvalAsm(p: Modulus, e: AsmExpr, cur: Row, free: int): int {
    match e
    case Number(n) => n
    case Ref(x) => cur(Named(x))
    case FreeInput => free
    case Bin(AddOp, a, b) => EvalAsm(p, a, cur, free) + EvalAsm(p, b, cur, free)
    case Bin(SubOp, a, b) => EvalAsm(p, a, cur, free) - EvalAsm(p, b, cur, free)
    case Bin(MulOp, a, b) => EvalAsm(p, a, cur, free) * EvalAsm(p, b, cur, free)
    case Bin(PowOp, a, b) => Pow(EvalAsm(p, a, cur, free), Rep(p, EvalAsm(p, b, cur, free)))
    case Bin(OtherOp, _, _) => 0
    case Minus(a) => -EvalAsm(p, a, cur, free)
    case Other => 0
  }

  // ----- what a batch does -----

  /** The one statement of a batch that does something. */
  datatype Action =
    | Nothing
    | Move(reg: string, assign: string, rhs: AsmExpr)
    | Invoke(instr: string, args: seq<AsmExpr>)

  function ActionOfStmt(s: Stmt): Action {
    match s
    case Assign(r, a, e) => Move(r, a, e)
    case CallAssign(lhs, i, args) => Invoke(i, args + seq(|lhs|, k requires 0 <= k < |lhs| => Ref(lhs[k].0)))
    case Instruction(i, args) => Invoke(i, args)
    case Return(args) => Invoke(RETURN, args)
    case Label(_) => Nothing
    case DebugDirective => Nothing
  }

  function ActionOf(b: Batch): Action {
    if b == [] then Nothing else ActionOfStmt(b[|b| - 1])
  }

  /** The field value of a literal argument. */
  function LiteralValue(p: Modulus, rom: Rom, kind: LiteralKind, a: AsmExpr): Option<int> {
    match kind
    case LabelKind =>
      if a.Ref? then
        var pos := LabelPosition(rom, a.name);
        if pos.Some? then Some(pos.value) else None
      else None
    case UnsignedConstant => if a.Number? && a.n < p / 2 then Some(a.n) else None
    case SignedConstant =>
      if a.Number? && a.n < p then Some(a.n)
      else if a.Minus? && a.e.Number? && a.e.n < p then Some(Rep(p, 0 - a.e.n))
      else None
  }

  /** The literal parameters bound by an invocation. */
  function LiteralMap(p: Modulus, rom: Rom, inputs: seq<Input>, args: seq<AsmExpr>): map<string, int>
    requires |inputs| <= |args|
  {
    if inputs == [] then map[]
    else
      var k := |inputs| - 1;
      var m := LiteralMap(p, rom, inputs[..k], args);
      if inputs[k].InReg? then m
      else
        var v := LiteralValue(p, rom, inputs[k].kind, args[k]);
        m[inputs[k].name := if v.Some? then v.value else 0]
  }

  function BindLiterals(e: Expr, lits: map<string, int>): Expr {
    match e
    case Num(_) => e
    case Col(c) => if c.Named? && c.name in lits then Num(lits[c.name]) else e
    case Next(_) => e
    case Neg(a) => Neg(BindLiterals(a, lits))
    case Add(a, b) => Add(BindLiterals(a, lits), BindLiterals(b, lits))
    case Sub(a, b) => Sub(BindLiterals(a, lits), BindLiterals(b, lits))
    case Mul(a, b) => Mul(BindLiterals(a, lits), BindLiterals(b, lits))
  }

  // ----- runs -----

  /** One way in which a line determines the next value of a register. */
  datatype Writer =
    | FromAssign(a: string)     // the value of an assignment register
    | Computed(e: Expr)         // an update in the body of the active instruction
    | AnyIf(flag: Expr)         // `R'` occurs in a link: any value if the flag of the link is one

  function OutputWriters(outputs: seq<string>, targets: seq<AsmExpr>, r: string): seq<Writer>
    requires |outputs| == |targets|
  {
    if outputs == [] then []
    else (if targets[0] == Ref(r) then [FromAssign(outputs[0])] else []) + OutputWriters(outputs[1..], targets[1..], r)
  }

  function LinkWriters(links: seq<LinkDecl>, r: string): seq<Writer> {
    if links == [] then []
    else (if r in links[0].nextRegs then [AnyIf(links[0].flag)] else []) + LinkWriters(links[1..], r)
  }

  function BodyWriters(body: seq<Identity>, lits: map<string, int>, r: string): seq<Writer> {
    if body == [] then []
    else (if body[0].lhs == Next(Named(r)) then [Computed(BindLiterals(body[0].rhs, lits))] else [])
         + BodyWriters(body[1..], lits, r)
  }

  /** A program: the machine, the number of outputs of its functions, and its ROM. */
  datatype Program = Program(m: Machine, outputCount: nat, rom: Rom)

  function Defs(g: Program): seq<InstrDef> { AllInstrs(g.m, g.outputCount) }

  predicate InvocationOk(g: Program, act: Action) {
    act.Invoke? ==>
      var d := FindInstr(Defs(g), act.instr);
      d.Some? && |d.value.inputs| + |d.value.outputs| == |act.args|
  }

  function InstrOf(g: Program, act: Action): (d: InstrDef)
    requires act.Invoke? && InvocationOk(g, act)
    ensures d in Defs(g) && d.name == act.instr && |d.inputs| + |d.outputs| == |act.args|
  {
    FindInstr(Defs(g), act.instr).value
  }

  function LitsOf(p: Modulus, g: Program, act: Action): map<string, int>
    requires act.Invoke? && InvocationOk(g, act)
  {
    LiteralMap(p, g.rom, InstrOf(g, act).inputs, act.args)
  }

  /** Everything the action says about the next value of register `r`. */
  function Writers(p: Modulus, g: Program, act: Action, r: string): seq<Writer>
    requires InvocationOk(g, act)
  {
    match act
    case Nothing => []
    case Move(reg, a, _) => if reg == r then [FromAssign(a)] else []
    case Invoke(_, args) =>
      var d := InstrOf(g, act);
      OutputWriters(d.outputs, args[|d.inputs|..], r)
      + LinkWriters(d.links, r)
      + BodyWriters(d.body, LitsOf(p, g, act), r)
  }

  function IsActive(act: Action, instr: string): int {
    if act.Invoke? && act.instr == instr then 1 else 0
  }

  /** Index of the argument read through assignment register `a`. */
  function InputIndex(inputs: seq<Input>, a: string): (r: Option<nat>)
    ensures r.Some? ==> r.value < |inputs| && inputs[r.value] == InReg(a)
    ensures r.None? ==> InReg(a) !in inputs
  {
    if inputs == [] then None
    else if inputs[|inputs| - 1] == InReg(a) then Some(|inputs| - 1)
    else InputIndex(inputs[..|inputs| - 1], a)
  }

  predicate Reads(p: Modulus, e: AsmExpr, x: int, cur: Row) {
    exists free: int :: 0 <= free < p && Cong(p, x, EvalAsm(p, e, cur, free))
  }

  /** What a line does with an assignment register: it reads a right-hand side into it, leaves it to
      the instruction that outputs through it, or does not use it. */
  datatype Role = Reading(e: AsmExpr) | Output | Unused

  function RoleOf(g: Program, act: Action, a: string): Role
    requires InvocationOk(g, act)
  {
    match act
    case Nothing => Unused
    case Move(_, b, rhs) => if a == b then Reading(rhs) else Unused
    case Invoke(_, args) =>
      var d := InstrOf(g, act);
      var i := InputIndex(d.inputs, a);
      if a in d.outputs then Output else if i.Some? then Reading(args[i.value]) else Unused
  }

  /** An unused assignment register is zero; an output carries any value. */
  predicate AssignOk(p: Modulus, g: Program, act: Action, a: string, cur: Row)
    requires InvocationOk(g, act)
  {
    match RoleOf(g, act, a)
    case Reading(e) => Reads(p, e, cur(Named(a)), cur)
    case Output => true
    case Unused => cur(Named(a)) == 0
  }

  /** Some instruction of the machine mentions register `r` in an update or in a link. */
  predicate HasUpdates(defs: seq<InstrDef>, r: string) {
    exists d :: d in defs && (LinkWriters(d.links, r) != [] || BodyWriters(d.body, map[], r) != [])
  }

  /** The value of register `r` if the line does not write it. Assignment registers have no memory. */
  predicate Kept(p: Modulus, g: Program, r: RegDecl, cur: Row, x: int) {
    match r.ty
    case Pc => Cong(p, x, cur(Named(r.name)) + 1)
    case Write => Cong(p, x, cur(Named(r.name)))
    case ReadOnly => Cong(p, x, cur(Named(r.name)))
    case Assignment => HasUpdates(Defs(g), r.name) ==> Cong(p, x, 0)
  }

  /** Assignments and body updates take effect whenever their line is executed, links only if their
      flag is one. */
  predicate TakesEffect(p: Modulus, w: Writer, cur: Row, nxt: Row) {
    w.AnyIf? ==> Cong(p, Eval(w.flag, cur, nxt), 1)
  }

  /** The writers that take effect in a row. */
  function ActiveWriters(p: Modulus, ws: seq<Writer>, cur: Row, nxt: Row): seq<Writer> {
    if ws == [] then []
    else (if TakesEffect(p, ws[0], cur, nxt) then [ws[0]] else []) + ActiveWriters(p, ws[1..], cur, nxt)
  }

  /** The value given by the first writer that takes effect; a link allows any value. */
  predicate Updated(p: Modulus, g: Program, ws: seq<Writer>, r: RegDecl, cur: Row, nxt: Row, x: int) {
    var active := ActiveWriters(p, ws, cur, nxt);
    if active == [] then Kept(p, g, r, cur, x)
    else match active[0]
      case FromAssign(a) => Cong(p, x, cur(Named(a)))
      case Computed(e) => Cong(p, x, Eval(e, cur, nxt))
      case AnyIf(_) => true
  }

  /** The transition of one register. The pc restarts at 0 on the first row; `_reset` frees the
      read-only registers. */
  predicate RegisterOk(p: Modulus, g: Program, act: Action, r: RegDecl, cur: Row, nxt: Row, last: bool)
    requires InvocationOk(g, act)
  {
    var ws := Writers(p, g, act, r.name);
    var x := nxt(Named(r.name));
    match r.ty
    case Pc => if last then x == 0 else Updated(p, g, ws, r, cur, nxt, x)
    case ReadOnly => IsActive(act, RESET) == 1 || Updated(p, g, ws, r, cur, nxt, x)
    case _ => Updated(p, g, ws, r, cur, nxt, x)
  }

  /** An equation whose left side is `x'` for a named `x` updates a register, any other is a constraint. */
  predicate IsUpdate(id: Identity) {
    match id.lhs
    case Next(Named(_)) => true
    case _ => false
  }

  /** The active instruction's constraints that are not register updates. */
  predicate BodyOk(p: Modulus, g: Program, act: Action, cur: Row, nxt: Row)
    requires InvocationOk(g, act)
  {
    act.Invoke? ==>
      forall id :: id in InstrOf(g, act).body && !IsUpdate(id) ==>
        Cong(p, Eval(BindLiterals(id.lhs, LitsOf(p, g, act)), cur, nxt),
                Eval(BindLiterals(id.rhs, LitsOf(p, g, act)), cur, nxt))
  }

  /** The columns a run talks about. */
  predicate Observable(c: Column) {
    c.Named? || c.InstrFlag? || c.FirstStep? || c.LastStep?
  }

  predicate FixedOk(cur: Row, i: nat, n: nat) {
    && cur(FirstStep) == (if i == 0 then 1 else 0)
    && cur(LastStep) == (if i == n - 1 then 1 else 0)
  }

  /** Everything about row `cur` at index `i` of `n`, which executes the batch at its pc and is followed
      by `nxt`, but the transition of the registers. */
  ghost predicate FrameOk(p: Modulus, g: Program, cur: Row, nxt: Row, i: nat, n: nat) {
    && (forall c :: Observable(c) ==> 0 <= cur(c) < p)
    && FixedOk(cur, i, n)
    && 0 <= cur(Named(PcName(g.m))) < |g.rom|
    && var act := ActionOf(g.rom[cur(Named(PcName(g.m)))]);
    && InvocationOk(g, act)
    && (forall d :: d in Defs(g) ==> cur(InstrFlag(d.name)) == IsActive(act, d.name))
    && (forall a :: HasReg(g.m.regs, a, Assignment) ==> AssignOk(p, g, act, a, cur))
    && BodyOk(p, g, act, cur, nxt)
    && (forall id :: id in g.m.pil ==> Holds(p, id, cur, nxt))
  }

  /** Row `cur` at index `i` of `n` executes the batch at its pc and is followed by `nxt`. */
  ghost predicate StepOk(p: Modulus, g: Program, cur: Row, nxt: Row, i: nat, n: nat) {
    && FrameOk(p, g, cur, nxt, i, n)
    && forall r :: r in g.m.regs ==> RegisterOk(p, g, ActionOf(g.rom[cur(Named(PcName(g.m)))]), r, cur, nxt, i == n - 1)
  }

  /** The rows of `t`, read cyclically, are a run of the program. */
  ghost predicate IsRun(p: Modulus, g: Program, t: seq<Row>) {
    && |t| > 0
    && forall i :: 0 <= i < |t| ==> StepOk(p, g, t[i], t[NextIndex(i, |t|)], i, |t|)
  }

  function NextIndex(i: nat, n: nat): nat
    requires i < n
  {
    if i + 1 == n then 0 else i + 1
  }
}
