/** Evaluating the expression of a value gives the value back, up to the numbering of captured variables. */
module RoundTrip {
  import opened Collections
  import opened Congruence
  import opened Options
  import opened Types
  import opened PilLang
  import opened BigStep
  import opened PolyIds
  import opened Relation
  import opened Expressionizer

  // ----- renaming -----

  /** A renaming that maps every referenced variable to a related one gives a related expression. */
  lemma {:induction false} RenameRelated(l: seq<Value>, m: seq<Value>, f: nat -> nat, e: PExpr)
    requires forall i :: Occurs(i, e) ==> LevelRel(l, m, i, f(i))
    ensures ERel(l, m, e, Rename(f, e))
    decreases e
  {
    match e
    case LocalVar(i) => assert Occurs(i, e);
    case TupleE(items) => forall i | 0 <= i < |items| ensures ERel(l, m, items[i], Rename(f, items[i])) { RenameRelated(l, m, f, items[i]); }
    case ArrayE(items) => forall i | 0 <= i < |items| ensures ERel(l, m, items[i], Rename(f, items[i])) { RenameRelated(l, m, f, items[i]); }
    case Binary(_, x, y) => RenameRelated(l, m, f, x); RenameRelated(l, m, f, y);
    case Unary(_, x) => RenameRelated(l, m, f, x);
    case Lambda(_, b) => RenameRelated(l, m, f, b);
    case IndexE(x, y) => RenameRelated(l, m, f, x); RenameRelated(l, m, f, y);
    case Call(g, args) =>
      RenameRelated(l, m, f, g);
      forall i | 0 <= i < |args| ensures ERel(l, m, args[i], Rename(f, args[i])) { RenameRelated(l, m, f, args[i]); }
    case MatchE(x, arms) =>
      RenameRelated(l, m, f, x);
      forall i | 0 <= i < |arms| ensures ERel(l, m, arms[i].value, Rename(f, arms[i].value)) {
        assert forall j :: Occurs(j, arms[i].value) ==> OccursArm(j, arms[i]);
        RenameRelated(l, m, f, arms[i].value);
      }
    case IfE(x, y, z) => RenameRelated(l, m, f, x); RenameRelated(l, m, f, y); RenameRelated(l, m, f, z);
    case Block(stmts, r) =>
      forall i | 0 <= i < |stmts| ensures SRel(l, m, stmts[i], RenameStmt(f, stmts[i])) {
        RenameRelatedStmt(l, m, f, stmts[i]);
      }
      if r.Some? { RenameRelated(l, m, f, r.value); }
    case _ =>
  }

  lemma {:induction false} RenameRelatedStmt(l: seq<Value>, m: seq<Value>, f: nat -> nat, s: Stmt)
    requires forall i :: OccursStmt(i, s) ==> LevelRel(l, m, i, f(i))
    ensures SRel(l, m, s, RenameStmt(f, s))
    decreases s
  {
    match s
    case Do(e) =>
      assert forall i :: Occurs(i, e) ==> OccursStmt(i, s);
      RenameRelated(l, m, f, e);
    case Let(_, _, v) =>
      if v.Some? {
        assert forall i :: Occurs(i, v.value) ==> OccursStmt(i, s);
        RenameRelated(l, m, f, v.value);
      }
  }

  ghost predicate Composed(f: nat -> nat, g: nat -> nat, h: nat -> nat) { forall i :: h(i) == g(f(i)) }

  /** Renaming twice is renaming once. */
  lemma {:induction false} RenameTwice(f: nat -> nat, g: nat -> nat, h: nat -> nat, e: PExpr)
    requires Composed(f, g, h)
    ensures Rename(g, Rename(f, e)) == Rename(h, e)
    decreases e, 1
  {
    match e
    case TupleE(items) => RenameAllTwice(f, g, h, items);
    case ArrayE(items) => RenameAllTwice(f, g, h, items);
    case Binary(_, _, _) => RenameOperandsTwice(f, g, h, e);
    case IndexE(_, _) => RenameOperandsTwice(f, g, h, e);
    case IfE(_, _, _) => RenameOperandsTwice(f, g, h, e);
    case Unary(_, x) => RenameTwice(f, g, h, x);
    case Lambda(_, b) => RenameTwice(f, g, h, b);
    case Call(_, _) => RenameCallTwice(f, g, h, e);
    case MatchE(_, _) => RenameCallTwice(f, g, h, e);
    case Block(_, _) => RenameBlockTwice(f, g, h, e);
    case LocalVar(_) =>
    case _ => assert Rename(f, e) == e;
  }

  lemma {:induction false} RenameOperandsTwice(f: nat -> nat, g: nat -> nat, h: nat -> nat, e: PExpr)
    requires Composed(f, g, h) && (e.Binary? || e.IndexE? || e.IfE?)
    ensures Rename(g, Rename(f, e)) == Rename(h, e)
    decreases e, 0
  {
    match e
    case Binary(_, x, y) => RenameTwice(f, g, h, x); RenameTwice(f, g, h, y);
    case IndexE(x, y) => RenameTwice(f, g, h, x); RenameTwice(f, g, h, y);
    case IfE(x, y, z) => RenameTwice(f, g, h, x); RenameTwice(f, g, h, y); RenameTwice(f, g, h, z);
  }

  lemma {:induction false} RenameCallTwice(f: nat -> nat, g: nat -> nat, h: nat -> nat, e: PExpr)
    requires Composed(f, g, h) && (e.Call? || e.MatchE?)
    ensures Rename(g, Rename(f, e)) == Rename(h, e)
    decreases e, 0
  {
    match e
    case Call(x, args) => RenameTwice(f, g, h, x); RenameAllTwice(f, g, h, args);
    case MatchE(x, arms) => RenameTwice(f, g, h, x); RenameArmsTwice(f, g, h, arms);
  }

  lemma {:induction false} RenameBlockTwice(f: nat -> nat, g: nat -> nat, h: nat -> nat, e: PExpr)
    requires Composed(f, g, h) && e.Block?
    ensures Rename(g, Rename(f, e)) == Rename(h, e)
    decreases e, 0
  {
    RenameStmtsTwice(f, g, h, e.stmts);
    if e.result.Some? { RenameTwice(f, g, h, e.result.value); }
  }

  lemma {:induction false} RenameAllTwice(f: nat -> nat, g: nat -> nat, h: nat -> nat, es: seq<PExpr>)
    requires Composed(f, g, h)
    ensures RenameAll(g, RenameAll(f, es)) == RenameAll(h, es)
    decreases es
  {
    forall i | 0 <= i < |es| ensures Rename(g, Rename(f, es[i])) == Rename(h, es[i]) { RenameTwice(f, g, h, es[i]); }
  }

  lemma {:induction false} RenameArmsTwice(f: nat -> nat, g: nat -> nat, h: nat -> nat, arms: seq<Arm>)
    requires Composed(f, g, h)
    ensures RenameArms(g, RenameArms(f, arms)) == RenameArms(h, arms)
    decreases arms
  {
    forall i | 0 <= i < |arms| ensures RenameArm(g, RenameArm(f, arms[i])) == RenameArm(h, arms[i]) {
      RenameArmTwice(f, g, h, arms[i]);
    }
  }

  lemma {:induction false} RenameArmTwice(f: nat -> nat, g: nat -> nat, h: nat -> nat, a: Arm)
    requires Composed(f, g, h)
    ensures RenameArm(g, RenameArm(f, a)) == RenameArm(h, a)
    decreases a
  {
    RenameTwice(f, g, h, a.value);
  }

  lemma {:induction false} RenameStmtsTwice(f: nat -> nat, g: nat -> nat, h: nat -> nat, stmts: seq<Stmt>)
    requires Composed(f, g, h)
    ensures RenameStmts(g, RenameStmts(f, stmts)) == RenameStmts(h, stmts)
    decreases stmts
  {
    forall i | 0 <= i < |stmts| ensures RenameStmt(g, RenameStmt(f, stmts[i])) == RenameStmt(h, stmts[i]) {
      RenameStmtTwice(f, g, h, stmts[i]);
    }
  }

  lemma {:induction false} RenameStmtTwice(f: nat -> nat, g: nat -> nat, h: nat -> nat, s: Stmt)
    requires Composed(f, g, h)
    ensures RenameStmt(g, RenameStmt(f, s)) == RenameStmt(h, s)
    decreases s
  {
    match s
    case Do(e) => RenameTwice(f, g, h, e);
    case Let(_, _, v) => if v.Some? { RenameTwice(f, g, h, v.value); }
  }

  lemma ShiftTwice(e: PExpr, j: nat, k: nat)
    ensures Shift(Shift(e, j), k) == Shift(e, j + k)
  {
    RenameTwice((i: nat) => i + j, (i: nat) => i + k, (i: nat) => i + (j + k), e);
  }

  // ----- captured variables -----

  /** The new id of a captured variable is its position among the captured variables. */
  lemma {:induction false} CapturedAt(body: PExpr, n: nat, i: nat)
    requires i < n && Occurs(i, body)
    ensures var k := |Captured(body, i)|; k < |Captured(body, n)| && Captured(body, n)[k] == i
  {
    if i + 1 < n { CapturedAt(body, n - 1, i); }
  }

  /** The captured values, in order, are related to `ws`. */
  ghost predicate CapturedRel(env: seq<Value>, ws: seq<Value>, body: PExpr) {
    var ids := Captured(body, |env|);
    |ws| == |ids| && forall k :: 0 <= k < |ids| ==> VRel(env[ids[k]], ws[k])
  }

  lemma NewIdRelated(env: seq<Value>, m: seq<Value>, ws: seq<Value>, body: PExpr, i: nat)
    requires CapturedRel(env, ws, body) && Occurs(i, body)
    ensures LevelRel(env, m + ws, i, NewId(body, |env|, i) + |m|)
  {
    if i < |env| { CapturedAt(body, |env|, i); }
  }

  function ShiftedId(body: PExpr, n: nat, k: nat): nat -> nat { (i: nat) => NewId(body, n, i) + k }

  lemma ShiftConverted(body: PExpr, n: nat, k: nat)
    ensures Shift(ConvertBody(body, n), k) == Rename(ShiftedId(body, n, k), body)
  {
    RenameTwice((i: nat) => NewId(body, n, i), (i: nat) => i + k, ShiftedId(body, n, k), body);
  }

  /** Over captured values that are related to the last values of `m + ws`, the converted body is
      related to the body. */
  lemma ConvertedBody(env: seq<Value>, m: seq<Value>, ws: seq<Value>, body: PExpr)
    requires CapturedRel(env, ws, body)
    ensures ERel(env, m + ws, body, Shift(ConvertBody(body, |env|), |m|))
  {
    ShiftConverted(body, |env|, |m|);
    ShiftedRelated(env, m, ws, body);
    RenameRelated(env, m + ws, ShiftedId(body, |env|, |m|), body);
  }

  lemma ShiftedRelated(env: seq<Value>, m: seq<Value>, ws: seq<Value>, body: PExpr)
    requires CapturedRel(env, ws, body)
    ensures forall i :: Occurs(i, body) ==> LevelRel(env, m + ws, i, ShiftedId(body, |env|, |m|)(i))
  {
    forall i | Occurs(i, body) ensures LevelRel(env, m + ws, i, ShiftedId(body, |env|, |m|)(i)) {
      NewIdRelated(env, m, ws, body, i);
    }
  }

  // ----- what the evaluator can build, and what the symbols know -----

  /** The decimal digits of an array index. */
  function ElementName(s: Symbol, i: nat): string {
    if s.length.None? then s.name else s.name + "[" + Digits(i) + "]"
  }

  function Element(s: Symbol, i: nat): Value
    requires s.kind.Poly?
  {
    VExpr(AlgRef(ElementName(s, i), s.kind.ptype, s.id + i, false))
  }

  /** The value of a column symbol. */
  function ColumnValue(s: Symbol): Value
    requires s.kind.Poly?
  {
    if s.length.None? then Element(s, 0) else VArray(seq(s.length.value, (i: nat) => Element(s, i)))
  }

  /** The declared columns, enum variants (without and with fields) and public values. */
  datatype Context = Context(p: Modulus, symbols: seq<Symbol>, plain: set<(string, string)>, withData: set<(string, string)>, publics: set<string>)

  predicate ElementOf(s: Symbol, name: string, t: PolyType, id: nat) {
    Covers(s, Poly(t), id) && name == ElementName(s, id - s.id)
  }

  /** Algebraic expressions that the evaluator can build: operations on two literals are folded. */
  predicate BuildableAlg(x: Context, a: Alg) {
    match a
    case AlgRef(name, t, id, _) => exists i :: 0 <= i < |x.symbols| && ElementOf(x.symbols[i], name, t, id)
    case AlgPublic(name) => name in x.publics
    case AlgChallenge(_, _) => true
    case AlgNum(n) => 0 <= n < x.p
    case AlgBin(op, l, r) => Algebraic(op) && !(l.AlgNum? && r.AlgNum?) && BuildableAlg(x, l) && BuildableAlg(x, r)
    case AlgNeg(e) => BuildableAlg(x, e)
  }

  predicate Buildable(x: Context, v: Value)
    decreases v
  {
    match v
    case VFe(n) => 0 <= n < x.p
    case VTuple(items) => forall y :: y in items ==> Buildable(x, y)
    case VArray(items) => forall y :: y in items ==> Buildable(x, y)
    case VEnum(e, n, NoData) => (e, n) in x.plain
    case VEnum(e, n, Data(items)) => (e, n) in x.withData && forall y :: y in items ==> Buildable(x, y)
    case VConstructor(e, n) => (e, n) in x.withData
    case VClosure(_, env) => forall y :: y in env ==> Buildable(x, y)
    case VExpr(a) => BuildableAlg(x, a)
    case _ => true
  }

  /** A symbol table, the symbols it knows and the states it can be in. */
  datatype World<!S> = World(sy: Symbols<S>, x: Context, ready: S -> bool)

  predicate Gives<S>(w: World<S>, o: Outcome<(Value, S)>, v: Value) { o.Ok? && o.value.0 == v && w.ready(o.value.1) }

  /** In a ready state, looking up `name` gives `v`. */
  predicate LookupAt<S>(w: World<S>, s: S, name: string, v: Value) {
    w.ready(s) ==> Gives(w, w.sy.lookup(s, name, None), v)
  }

  ghost predicate LookupGives<S(!new)>(w: World<S>, name: string, v: Value) {
    name !in w.sy.builtins && forall s :: LookupAt(w, s, name, v)
  }

  predicate PublicAt<S>(w: World<S>, s: S, n: string) {
    w.ready(s) && n in w.x.publics ==> w.sy.publicRef(s, n) == Ok(VExpr(AlgPublic(n)))
  }

  predicate ChallengeAt<S>(w: World<S>, s: S, id: nat, stage: nat) {
    w.ready(s) ==> Gives(w, w.sy.builtin(s, "std::prelude::challenge", [VInt(stage), VInt(id)]), VExpr(AlgChallenge(id, stage)))
  }

  ghost predicate ColumnKnown<S(!new)>(w: World<S>, c: Symbol) { c.kind.Poly? ==> LookupGives(w, c.name, ColumnValue(c)) }

  ghost predicate PlainKnown<S(!new)>(w: World<S>, e: string, n: string) { LookupGives(w, VariantName(e, n), VEnum(e, n, NoData)) }

  ghost predicate WithDataKnown<S(!new)>(w: World<S>, e: string, n: string) { LookupGives(w, VariantName(e, n), VConstructor(e, n)) }

  ghost predicate BoolsKnown<S(!new)>(w: World<S>) {
    LookupGives(w, "std::prelude::true", VBool(true)) && LookupGives(w, "std::prelude::false", VBool(false))
  }

  /** The symbol table knows the prelude, the columns, the enum variants and the public values. */
  ghost predicate Knows<S(!new)>(w: World<S>) {
    PreludeKnown(w) && forall i :: 0 <= i < |w.x.symbols| ==> ColumnKnown(w, w.x.symbols[i])
  }

  ghost predicate PreludeKnown<S(!new)>(w: World<S>) {
    && w.sy.p == w.x.p && "std::prelude::challenge" in w.sy.builtins
    && BoolsKnown(w)
    && (forall e, n :: (e, n) in w.x.plain ==> PlainKnown(w, e, n))
    && (forall e, n :: (e, n) in w.x.withData ==> WithDataKnown(w, e, n))
    && (forall s, n :: PublicAt(w, s, n))
    && (forall s, id, stage :: ChallengeAt(w, s, id, stage))
  }

  // ----- algebraic expressions -----

  ghost predicate EvaluatesTo<S(!new)>(w: World<S>, fuel: nat, e: PExpr, l: seq<Value>, s: S, v: Value) {
    var r := Eval(fuel, w.sy, e, l, map[], s);
    r.Done? && r.value == v && w.ready(r.sym)
  }

  lemma GlobalEvaluates<S(!new)>(w: World<S>, fuel: nat, name: string, v: Value, l: seq<Value>, s: S)
    requires LookupGives(w, name, v) && w.ready(s)
    ensures EvaluatesTo(w, fuel, Global(name, None), l, s, v)
  {
    assert LookupAt(w, s, name, v);
  }

  /** The expression of a column reference, without the next operator. */
  lemma ColumnEvaluates<S(!new)>(w: World<S>, fuel: nat, c: Symbol, name: string, t: PolyType, id: nat, l: seq<Value>, s: S)
    requires ElementOf(c, name, t, id) && LookupGives(w, c.name, ColumnValue(c)) && w.ready(s)
    ensures EvaluatesTo(w, fuel, ColumnExpr(c, id), l, s, VExpr(AlgRef(name, t, id, false)))
  {
    GlobalEvaluates(w, fuel, c.name, ColumnValue(c), l, s);
    ElementValue(c, name, t, id);
    ElementEvaluates(w, fuel, c, ColumnValue(c), VExpr(AlgRef(name, t, id, false)), id, l, s);
  }

  lemma ElementEvaluates<S(!new)>(w: World<S>, fuel: nat, c: Symbol, v: Value, x: Value, id: nat, l: seq<Value>, s: S)
    requires c.id <= id && EvaluatesTo(w, fuel, Global(c.name, None), l, s, v)
    requires if c.length.None? then v == x else v.VArray? && id - c.id < |v.items| && v.items[id - c.id] == x
    ensures EvaluatesTo(w, fuel, ColumnExpr(c, id), l, s, x)
  {
    if c.length.Some? { IndexEvaluates(w, fuel, Global(c.name, None), v, id - c.id, l, s); }
  }

  lemma ElementValue(c: Symbol, name: string, t: PolyType, id: nat)
    requires ElementOf(c, name, t, id)
    ensures var v, x := ColumnValue(c), VExpr(AlgRef(name, t, id, false));
            if c.length.None? then v == x else v.VArray? && id - c.id < |v.items| && v.items[id - c.id] == x
  {
  }

  /** The expression that refers to the column with the given id of `c`. */
  function ColumnExpr(c: Symbol, id: nat): PExpr
    requires c.id <= id
  {
    if c.length.None? then Global(c.name, None) else IndexE(Global(c.name, None), Number(id - c.id, Some(Int)))
  }

  lemma ColumnShift(c: Symbol, id: nat, k: nat)
    requires c.id <= id
    ensures Shift(ColumnExpr(c, id), k) == ColumnExpr(c, id)
  {
    var f := (i: nat) => i + k;
    assert Rename(f, Global(c.name, None)) == Global(c.name, None);
    assert Rename(f, Number(id - c.id, Some(Int))) == Number(id - c.id, Some(Int));
  }

  lemma ChallengeShift(id: nat, stage: nat, k: nat)
    ensures var e := Call(Global("std::prelude::challenge", None), [Number(stage, None), Number(id, None)]);
            Shift(e, k) == e
  {
    var f := (i: nat) => i + k;
    var args := [Number(stage, None), Number(id, None)];
    assert Rename(f, args[0]) == args[0] && Rename(f, args[1]) == args[1];
    assert RenameAll(f, args) == args;
    var g := Global("std::prelude::challenge", None);
    assert Rename(f, g) == g;
    assert Rename(f, Call(g, args)) == Call(Rename(f, g), RenameAll(f, args));
  }

  lemma IndexEvaluates<S(!new)>(w: World<S>, fuel: nat, e: PExpr, v: Value, i: nat, l: seq<Value>, s: S)
    requires EvaluatesTo(w, fuel, e, l, s, v) && v.VArray? && i < |v.items|
    ensures EvaluatesTo(w, fuel, IndexE(e, Number(i, Some(Int))), l, s, v.items[i])
  {
    var s1 := Eval(fuel, w.sy, e, l, map[], s).sym;
    assert Eval(fuel, w.sy, Number(i, Some(Int)), l, map[], s1) == Done(VInt(i), s1);
  }

  lemma ColumnDecodes(c: Symbol, table: Table, name: string, t: PolyType, id: nat)
    requires ElementOf(c, name, t, id) && Floor(table, (t, id)) == Some((t, c.id)) && table[(t, c.id)] == c.name
    ensures RefToExpr(table, name, t, id) == Ok(ColumnExpr(c, id))
  {
    if c.length.Some? { assert |name| > |c.name|; }
  }

  lemma ColumnRoundTrip<S(!new)>(w: World<S>, table: Table, fuel: nat, name: string, t: PolyType, id: nat, l: seq<Value>, s: S)
    requires Knows(w) && w.ready(s) && Decodes(w.x.symbols, table) && BuildableAlg(w.x, AlgRef(name, t, id, false))
    ensures var r := RefToExpr(table, name, t, id);
            r.Ok? && Shift(r.value, |l|) == r.value && EvaluatesTo(w, fuel, r.value, l, s, VExpr(AlgRef(name, t, id, false)))
  {
    var i :| 0 <= i < |w.x.symbols| && ElementOf(w.x.symbols[i], name, t, id);
    var c := w.x.symbols[i];
    assert Covers(c, c.kind, id);
    assert ColumnKnown(w, c);
    ColumnDecodes(c, table, name, t, id);
    ColumnShift(c, id, |l|);
    ColumnEvaluates(w, fuel, c, name, t, id, l, s);
  }

  lemma NextEvaluates<S(!new)>(w: World<S>, fuel: nat, e: PExpr, name: string, t: PolyType, id: nat, l: seq<Value>, s: S)
    requires EvaluatesTo(w, fuel, e, l, s, VExpr(AlgRef(name, t, id, false)))
    ensures EvaluatesTo(w, fuel, Unary(NextOp, e), l, s, VExpr(AlgRef(name, t, id, true)))
  {
  }

  lemma NegEvaluates<S(!new)>(w: World<S>, fuel: nat, e: PExpr, a: Alg, l: seq<Value>, s: S)
    requires EvaluatesTo(w, fuel, e, l, s, VExpr(a))
    ensures EvaluatesTo(w, fuel, Unary(Minus, e), l, s, VExpr(AlgNeg(a)))
  {
  }

  lemma BinEvaluates<S(!new)>(w: World<S>, fuel: nat, op: BinOp, e: PExpr, a: Alg, f: PExpr, b: Alg, l: seq<Value>, s: S)
    requires Algebraic(op) && !(a.AlgNum? && b.AlgNum?)
    requires EvaluatesTo(w, fuel, e, l, s, VExpr(a))
    requires EvaluatesTo(w, fuel, f, l, Eval(fuel, w.sy, e, l, map[], s).sym, VExpr(b))
    ensures EvaluatesTo(w, fuel, Binary(op, e, f), l, s, VExpr(AlgBin(op, a, b)))
  {
    assert BinaryOp<Code>(w.sy.p, w.sy.lib, VExpr(a), op, VExpr(b)) == Ok(VExpr(AlgBin(op, a, b)));
  }

  lemma ChallengeEvaluates<S(!new)>(w: World<S>, fuel: nat, id: nat, stage: nat, l: seq<Value>, s: S)
    requires "std::prelude::challenge" in w.sy.builtins && w.ready(s) && ChallengeAt(w, s, id, stage)
    ensures EvaluatesTo(w, fuel, Call(Global("std::prelude::challenge", None), [Number(stage, None), Number(id, None)]), l, s,
                        VExpr(AlgChallenge(id, stage)))
  {
    var args := [Number(stage, None), Number(id, None)];
    assert args[1..] == [Number(id, None)] && args[1..][1..] == [];
    assert EvalList(fuel, w.sy, args[1..][1..], l, map[], s) == Done([], s);
    assert Eval(fuel, w.sy, args[1], l, map[], s) == Done(VInt(id), s);
    var vs: seq<Value> := [VInt(stage), VInt(id)];
    assert [vs[1]] + [] == vs[1..] && [vs[0]] + vs[1..] == vs;
    assert EvalList(fuel, w.sy, args[1..], l, map[], s) == Done(vs[1..], s);
    assert Eval(fuel, w.sy, args[0], l, map[], s) == Done(VInt(stage), s);
    assert EvalList(fuel, w.sy, args, l, map[], s) == Done(vs, s);
  }

  lemma ChallengeRoundTrip<S(!new)>(w: World<S>, table: Table, fuel: nat, id: nat, stage: nat, l: seq<Value>, s: S)
    requires Knows(w) && w.ready(s)
    ensures EvaluatesTo(w, fuel, Shift(AlgToExpr(w.x.p, table, AlgChallenge(id, stage)).value, |l|), l, s, VExpr(AlgChallenge(id, stage)))
  {
    ChallengeShift(id, stage, |l|);
    assert ChallengeAt(w, s, id, stage);
    ChallengeEvaluates(w, fuel, id, stage, l, s);
  }

  lemma AlgLeafRoundTrip<S(!new)>(w: World<S>, table: Table, fuel: nat, a: Alg, l: seq<Value>, s: S)
    requires Knows(w) && w.ready(s) && BuildableAlg(w.x, a) && (a.AlgNum? || a.AlgPublic?)
    ensures EvaluatesTo(w, fuel, Shift(AlgToExpr(w.x.p, table, a).value, |l|), l, s, VExpr(a))
  {
    if a.AlgPublic? { assert PublicAt(w, s, a.name); }
  }

  lemma {:induction false} AlgRoundTrip<S(!new)>(w: World<S>, table: Table, fuel: nat, a: Alg, l: seq<Value>, s: S)
    requires Knows(w) && w.ready(s) && Decodes(w.x.symbols, table) && BuildableAlg(w.x, a)
    ensures var r := AlgToExpr(w.x.p, table, a);
            r.Ok? && EvaluatesTo(w, fuel, Shift(r.value, |l|), l, s, VExpr(a))
    decreases a, 1
  {
    match a
    case AlgRef(_, _, _, _) => AlgRefRoundTrip(w, table, fuel, a, l, s);
    case AlgBin(_, _, _) => AlgBinRoundTrip(w, table, fuel, a, l, s);
    case AlgNeg(x) =>
      AlgRoundTrip(w, table, fuel, x, l, s);
      NegEvaluates(w, fuel, Shift(AlgToExpr(w.x.p, table, x).value, |l|), x, l, s);
    case AlgChallenge(id, stage) => ChallengeRoundTrip(w, table, fuel, id, stage, l, s);
    case _ => AlgLeafRoundTrip(w, table, fuel, a, l, s);
  }

  lemma {:induction false} AlgRefRoundTrip<S(!new)>(w: World<S>, table: Table, fuel: nat, a: Alg, l: seq<Value>, s: S)
    requires Knows(w) && w.ready(s) && Decodes(w.x.symbols, table) && BuildableAlg(w.x, a) && a.AlgRef?
    ensures var r := AlgToExpr(w.x.p, table, a);
            r.Ok? && EvaluatesTo(w, fuel, Shift(r.value, |l|), l, s, VExpr(a))
  {
    ColumnRoundTrip(w, table, fuel, a.name, a.ptype, a.id, l, s);
    if a.next { NextEvaluates(w, fuel, RefToExpr(table, a.name, a.ptype, a.id).value, a.name, a.ptype, a.id, l, s); }
  }

  lemma {:induction false} AlgBinRoundTrip<S(!new)>(w: World<S>, table: Table, fuel: nat, a: Alg, l: seq<Value>, s: S)
    requires Knows(w) && w.ready(s) && Decodes(w.x.symbols, table) && BuildableAlg(w.x, a) && a.AlgBin?
    ensures var r := AlgToExpr(w.x.p, table, a);
            r.Ok? && EvaluatesTo(w, fuel, Shift(r.value, |l|), l, s, VExpr(a))
    decreases a, 0
  {
    AlgRoundTrip(w, table, fuel, a.l, l, s);
    var e := Shift(AlgToExpr(w.x.p, table, a.l).value, |l|);
    AlgRoundTrip(w, table, fuel, a.r, l, Eval(fuel, w.sy, e, l, map[], s).sym);
    BinEvaluates(w, fuel, a.op, e, a.l, Shift(AlgToExpr(w.x.p, table, a.r).value, |l|), a.r, l, s);
  }

  // ----- values -----

  /** Evaluating the expression of `v`, placed after the locals `l`, gives a value related to `v`. */
  ghost predicate Returns<S(!new)>(w: World<S>, fuel: nat, e: PExpr, l: seq<Value>, s: S, v: Value) {
    var r := Eval(fuel, w.sy, Shift(e, |l|), l, map[], s);
    r.Done? && VRel(v, r.value) && w.ready(r.sym)
  }

  ghost predicate ReturnsAll<S(!new)>(w: World<S>, fuel: nat, es: seq<PExpr>, l: seq<Value>, s: S, vs: seq<Value>) {
    var r := EvalList(fuel, w.sy, RenameAll((i: nat) => i + |l|, es), l, map[], s);
    r.Done? && VRelAll(vs, r.value) && w.ready(r.sym)
  }

  lemma {:induction false} RoundTripAll<S(!new)>(w: World<S>, table: Table, fuel: nat, vs: seq<Value>, l: seq<Value>, s: S)
    requires Knows(w) && w.ready(s) && Decodes(w.x.symbols, table)
    requires (forall y :: y in vs ==> Buildable(w.x, y)) && ToExprs(w.x.p, table, vs).Ok?
    ensures ReturnsAll(w, fuel, ToExprs(w.x.p, table, vs).value, l, s, vs)
    decreases vs, 0
  {
    if vs != [] {
      var es := ToExprs(w.x.p, table, vs).value;
      ValueRoundTrip(w, table, fuel, vs[0], l, s);
      var f := (i: nat) => i + |l|;
      var r := Eval(fuel, w.sy, Shift(es[0], |l|), l, map[], s);
      RoundTripAll(w, table, fuel, vs[1..], l, r.sym);
      assert es[1..] == ToExprs(w.x.p, table, vs[1..]).value;
      assert RenameAll(f, es)[1..] == RenameAll(f, es[1..]);
    }
  }

  lemma {:induction false} ValueRoundTrip<S(!new)>(w: World<S>, table: Table, fuel: nat, v: Value, l: seq<Value>, s: S)
    requires Knows(w) && w.ready(s) && Decodes(w.x.symbols, table) && Buildable(w.x, v) && ToExpr(w.x.p, table, v).Ok?
    ensures Returns(w, fuel, ToExpr(w.x.p, table, v).value, l, s, v)
    decreases v, 1
  {
    match v
    case VTuple(items) => RoundTripAll(w, table, fuel, items, l, s);
    case VArray(items) => RoundTripAll(w, table, fuel, items, l, s);
    case VEnum(_, _, _) => EnumRoundTrip(w, table, fuel, v, l, s);
    case VClosure(_, _) => ClosureRoundTrip(w, table, fuel, v, l, s);
    case VExpr(a) => AlgRoundTrip(w, table, fuel, a, l, s);
    case _ => SimpleRoundTrip(w, table, fuel, v, l, s);
  }

  lemma IntEvaluates<S(!new)>(w: World<S>, fuel: nat, n: int, l: seq<Value>, s: S)
    ensures var e := if n < 0 then Unary(Minus, Number(0 - n, Some(Int))) else Number(n, Some(Int));
            Shift(e, |l|) == e && Eval(fuel, w.sy, e, l, map[], s) == Done(VInt(n), s)
  {
    if n < 0 {
      var e := Number(0 - n, Some(Int));
      assert Rename((i: nat) => i + |l|, e) == e;
      assert Eval(fuel, w.sy, e, l, map[], s) == Done(VInt(0 - n), s);
    }
  }

  lemma SimpleRoundTrip<S(!new)>(w: World<S>, table: Table, fuel: nat, v: Value, l: seq<Value>, s: S)
    requires Knows(w) && w.ready(s) && Buildable(w.x, v) && (v.VInt? || v.VFe? || v.VStr? || v.VBool?)
    ensures Returns(w, fuel, ToExpr(w.x.p, table, v).value, l, s, v)
  {
    match v
    case VInt(n) => IntEvaluates(w, fuel, n, l, s);
    case VBool(b) => GlobalEvaluates(w, fuel, if b then "std::prelude::true" else "std::prelude::false", v, l, s);
    case _ =>
  }

  lemma {:induction false} EnumRoundTrip<S(!new)>(w: World<S>, table: Table, fuel: nat, v: Value, l: seq<Value>, s: S)
    requires Knows(w) && w.ready(s) && Decodes(w.x.symbols, table) && Buildable(w.x, v) && ToExpr(w.x.p, table, v).Ok?
    requires v.VEnum?
    ensures Returns(w, fuel, ToExpr(w.x.p, table, v).value, l, s, v)
    decreases v, 0
  {
    var name := VariantName(v.enumName, v.variant);
    if v.data.NoData? {
      assert PlainKnown(w, v.enumName, v.variant);
      GlobalEvaluates(w, fuel, name, v, l, s);
    } else {
      assert WithDataKnown(w, v.enumName, v.variant);
      GlobalEvaluates(w, fuel, name, VConstructor(v.enumName, v.variant), l, s);
      RoundTripAll(w, table, fuel, v.data.items, l, Eval(fuel, w.sy, Global(name, None), l, map[], s).sym);
      ConstructorReturns(w, fuel, name, v, ToExprs(w.x.p, table, v.data.items).value, l, s);
    }
  }

  lemma ConstructorReturns<S(!new)>(w: World<S>, fuel: nat, name: string, v: Value, es: seq<PExpr>, l: seq<Value>, s: S)
    requires v.VEnum? && v.data.Data?
    requires EvaluatesTo(w, fuel, Global(name, None), l, s, VConstructor(v.enumName, v.variant))
    requires ReturnsAll(w, fuel, es, l, Eval(fuel, w.sy, Global(name, None), l, map[], s).sym, v.data.items)
    ensures Returns(w, fuel, Call(Global(name, None), es), l, s, v)
  {
    var f := (i: nat) => i + |l|;
    var g := Global(name, None);
    assert Rename(f, g) == g;
    assert Rename(f, Call(g, es)) == Call(g, RenameAll(f, es));
    var s1 := Eval(fuel, w.sy, g, l, map[], s).sym;
    var r := EvalList(fuel, w.sy, RenameAll(f, es), l, map[], s1);
    assert Prepare(w.sy, VConstructor(v.enumName, v.variant), r.value, r.sym)
        == Immediate(Done(VEnum(v.enumName, v.variant, Data(r.value)), r.sym));
  }

  // ----- closures -----

  /** The values of captured variables `ids` are related to `ws`. */
  ghost predicate RelatedAt(env: seq<Value>, ids: seq<nat>, ws: seq<Value>) {
    |ws| <= |ids| && (forall i :: 0 <= i < |ids| ==> ids[i] < |env|) && forall i :: 0 <= i < |ws| ==> VRel(env[ids[i]], ws[i])
  }

  /** The statements end with one new local per captured variable, related to its value. */
  ghost predicate LetsReturn<S(!new)>(w: World<S>, fuel: nat, env: seq<Value>, ids: seq<nat>, stmts: seq<Stmt>, l: seq<Value>, ws: seq<Value>, s: S) {
    var r := EvalStmts(fuel, w.sy, RenameStmts((i: nat) => i + |l|, stmts), l + ws, map[], s);
    r.Done? && w.ready(r.sym) && exists ws' :: r.value == l + ws' && |ws'| == |ids| && RelatedAt(env, ids, ws')
  }

  lemma {:induction false} LetRuns<S>(fuel: nat, sy: Symbols<S>, e: PExpr, st: Stmt, l: seq<Value>, s: S)
    requires Eval(fuel, sy, e, l, map[], s).Done? && st == Let(VariableP(LET_NAME), None, Some(e))
    ensures var r := Eval(fuel, sy, e, l, map[], s); EvalStmt(fuel, sy, st, l, map[], s) == Done(l + [r.value], r.sym)
  {
    var r := Eval(fuel, sy, e, l, map[], s);
    assert MatchPattern(r.value, VariableP(LET_NAME)) == Matched([r.value]);
  }

  lemma {:induction false} LetStep<S(!new)>(w: World<S>, fuel: nat, env: seq<Value>, ids: seq<nat>, e: PExpr, rest: seq<Stmt>, l: seq<Value>, ws: seq<Value>, s: S)
    requires Eval(fuel, w.sy, Shift(e, |l + ws|), l + ws, map[], s).Done?
    requires var r := Eval(fuel, w.sy, Shift(e, |l + ws|), l + ws, map[], s);
             LetsReturn(w, fuel, env, ids, rest, l, ws + [r.value], r.sym)
    ensures LetsReturn(w, fuel, env, ids, [Let(VariableP(LET_NAME), None, Some(Shift(e, |ws|)))] + rest, l, ws, s)
  {
    var f := (i: nat) => i + |l|;
    var r := Eval(fuel, w.sy, Shift(e, |l + ws|), l + ws, map[], s);
    var st := Let(VariableP(LET_NAME), None, Some(Shift(e, |ws|)));
    ShiftTwice(e, |ws|, |l|);
    var stmts := [st] + rest;
    assert stmts[0] == st && stmts[1..] == rest;
    assert RenameStmts(f, stmts)[1..] == RenameStmts(f, rest);
    LetRuns(fuel, w.sy, Shift(e, |l + ws|), RenameStmt(f, st), l + ws, s);
    assert l + (ws + [r.value]) == l + ws + [r.value];
  }

  /** Running the let statements of the captured variables from the `k`-th on. */
  lemma {:induction false} LetsRoundTrip<S(!new)>(w: World<S>, table: Table, fuel: nat, env: seq<Value>, ids: seq<nat>, k: nat,
                                                  l: seq<Value>, ws: seq<Value>, s: S)
    requires Knows(w) && w.ready(s) && Decodes(w.x.symbols, table) && (forall y :: y in env ==> Buildable(w.x, y))
    requires k <= |ids| && |ws| == k && RelatedAt(env, ids, ws)
    requires LetStmts(w.x.p, table, env, ids, k).Ok?
    ensures LetsReturn(w, fuel, env, ids, LetStmts(w.x.p, table, env, ids, k).value, l, ws, s)
    decreases env, |ids| - k
  {
    if k < |ids| {
      var e := ToExpr(w.x.p, table, env[ids[k]]).value;
      ValueRoundTrip(w, table, fuel, env[ids[k]], l + ws, s);
      var r := Eval(fuel, w.sy, Shift(e, |l + ws|), l + ws, map[], s);
      LetsRoundTrip(w, table, fuel, env, ids, k + 1, l, ws + [r.value], r.sym);
      LetStep(w, fuel, env, ids, e, LetStmts(w.x.p, table, env, ids, k + 1).value, l, ws, s);
    } else {
      assert RelatedAt(env, ids, ws);
    }
  }

  lemma {:induction false} ClosureRoundTrip<S(!new)>(w: World<S>, table: Table, fuel: nat, v: Value, l: seq<Value>, s: S)
    requires Knows(w) && w.ready(s) && Decodes(w.x.symbols, table) && Buildable(w.x, v) && ToExpr(w.x.p, table, v).Ok?
    requires v.VClosure?
    ensures Returns(w, fuel, ToExpr(w.x.p, table, v).value, l, s, v)
    decreases v, 0
  {
    var ids := Captured(v.code.body, |v.env|);
    LetsRoundTrip(w, table, fuel, v.env, ids, 0, l, [], s);
    ClosureReturns(w, fuel, v, LetStmts(w.x.p, table, v.env, ids, 0).value, l, s);
  }

  /** The lambda expression, evaluated over locals that end with the captured values. */
  lemma LambdaReturns<S(!new)>(w: World<S>, fuel: nat, v: Value, l: seq<Value>, ws: seq<Value>, s: S)
    requires v.VClosure? && v.code.typeArgs == map[] && CapturedRel(v.env, ws, v.code.body)
    ensures var e := Rename((i: nat) => i + |l|, Lambda(v.code.params, ConvertBody(v.code.body, |v.env|)));
            var r := Eval(fuel, w.sy, e, l + ws, map[], s);
            r.Done? && r.sym == s && VRel(v, r.value)
  {
    ConvertedBody(v.env, l, ws, v.code.body);
    var body := ConvertBody(v.code.body, |v.env|);
    assert Rename((i: nat) => i + |l|, Lambda(v.code.params, body)) == Lambda(v.code.params, Shift(body, |l|));
  }

  lemma BlockReturns<S(!new)>(w: World<S>, fuel: nat, v: Value, stmts: seq<Stmt>, lambda: PExpr, l: seq<Value>, s: S)
    requires EvalStmts(fuel, w.sy, RenameStmts((i: nat) => i + |l|, stmts), l, map[], s).Done?
    requires var m := EvalStmts(fuel, w.sy, RenameStmts((i: nat) => i + |l|, stmts), l, map[], s);
             var r := Eval(fuel, w.sy, Rename((i: nat) => i + |l|, lambda), m.value, map[], m.sym);
             r.Done? && w.ready(r.sym) && VRel(v, r.value)
    ensures Returns(w, fuel, if stmts == [] then lambda else Block(stmts, Some(lambda)), l, s, v)
  {
    var f := (i: nat) => i + |l|;
    if stmts == [] {
      assert EvalStmts(fuel, w.sy, RenameStmts(f, stmts), l, map[], s) == Done(l, s);
    } else {
      RenameBlock(f, stmts, lambda);
      BlockValue(fuel, w.sy, RenameStmts(f, stmts), Rename(f, lambda), l, s);
    }
  }

  lemma RenameBlock(f: nat -> nat, stmts: seq<Stmt>, e: PExpr)
    ensures Rename(f, Block(stmts, Some(e))) == Block(RenameStmts(f, stmts), Some(Rename(f, e)))
  {
  }

  lemma BlockValue<S>(fuel: nat, sy: Symbols<S>, stmts: seq<Stmt>, e: PExpr, l: seq<Value>, s: S)
    requires EvalStmts(fuel, sy, stmts, l, map[], s).Done?
    ensures var m := EvalStmts(fuel, sy, stmts, l, map[], s);
            Eval(fuel, sy, Block(stmts, Some(e)), l, map[], s) == Eval(fuel, sy, e, m.value, map[], m.sym)
  {
  }

  lemma ClosureReturns<S(!new)>(w: World<S>, fuel: nat, v: Value, stmts: seq<Stmt>, l: seq<Value>, s: S)
    requires v.VClosure? && v.code.typeArgs == map[]
    requires LetsReturn(w, fuel, v.env, Captured(v.code.body, |v.env|), stmts, l, [], s)
    ensures var lambda := Lambda(v.code.params, ConvertBody(v.code.body, |v.env|));
            Returns(w, fuel, if stmts == [] then lambda else Block(stmts, Some(lambda)), l, s, v)
  {
    var ids := Captured(v.code.body, |v.env|);
    assert l + [] == l;
    var r := EvalStmts(fuel, w.sy, RenameStmts((i: nat) => i + |l|, stmts), l, map[], s);
    var ws :| r.value == l + ws && |ws| == |ids| && RelatedAt(v.env, ids, ws);
    LambdaReturns(w, fuel, v, l, ws, r.sym);
    BlockReturns(w, fuel, v, stmts, Lambda(v.code.params, ConvertBody(v.code.body, |v.env|)), l, s);
  }

  // ----- the theorem -----

  lemma {:induction false} ShiftByZero(e: PExpr)
    ensures Shift(e, 0) == e
  {
    RenameIdentity((i: nat) => i + 0, e);
  }

  lemma {:induction false} RenameIdentity(f: nat -> nat, e: PExpr)
    requires forall i :: f(i) == i
    ensures Rename(f, e) == e
    decreases e
  {
    match e
    case TupleE(items) => forall i | 0 <= i < |items| ensures Rename(f, items[i]) == items[i] { RenameIdentity(f, items[i]); }
    case ArrayE(items) => forall i | 0 <= i < |items| ensures Rename(f, items[i]) == items[i] { RenameIdentity(f, items[i]); }
    case Binary(_, x, y) => RenameIdentity(f, x); RenameIdentity(f, y);
    case Unary(_, x) => RenameIdentity(f, x);
    case Lambda(_, b) => RenameIdentity(f, b);
    case IndexE(x, y) => RenameIdentity(f, x); RenameIdentity(f, y);
    case Call(x, args) =>
      RenameIdentity(f, x);
      forall i | 0 <= i < |args| ensures Rename(f, args[i]) == args[i] { RenameIdentity(f, args[i]); }
    case MatchE(x, arms) =>
      RenameIdentity(f, x);
      forall i | 0 <= i < |arms| ensures RenameArm(f, arms[i]) == arms[i] { RenameIdentity(f, arms[i].value); }
    case IfE(x, y, z) => RenameIdentity(f, x); RenameIdentity(f, y); RenameIdentity(f, z);
    case Block(stmts, r) =>
      forall i | 0 <= i < |stmts| ensures RenameStmt(f, stmts[i]) == stmts[i] { RenameIdentityStmt(f, stmts[i]); }
      if r.Some? { RenameIdentity(f, r.value); }
    case _ =>
  }

  lemma {:induction false} RenameIdentityStmt(f: nat -> nat, s: Stmt)
    requires forall i :: f(i) == i
    ensures RenameStmt(f, s) == s
    decreases s
  {
    match s
    case Do(e) => RenameIdentity(f, e);
    case Let(_, _, v) => if v.Some? { RenameIdentity(f, v.value); }
  }

  /** Whenever a value converts to an expression, evaluating the expression in the empty environment
      ends, without calling any closure, in a value that equals the original one up to the numbering
      of captured variables. */
  lemma RoundTripCorrect<S(!new)>(w: World<S>, table: Table, fuel: nat, v: Value, s: S)
    requires Knows(w) && w.ready(s) && Decodes(w.x.symbols, table) && Buildable(w.x, v) && ToExpr(w.x.p, table, v).Ok?
    ensures var r := Eval(fuel, w.sy, ToExpr(w.x.p, table, v).value, [], map[], s);
            r.Done? && VRel(v, r.value) && w.ready(r.sym)
  {
    ValueRoundTrip(w, table, fuel, v, [], s);
    ShiftByZero(ToExpr(w.x.p, table, v).value);
  }

  // ----- which values convert -----

  /** Values without functions other than closures, where closures have no type arguments and capture
      only such values. */
  predicate Convertible(v: Value)
    decreases v
  {
    match v
    case VTuple(items) => forall y :: y in items ==> Convertible(y)
    case VArray(items) => forall y :: y in items ==> Convertible(y)
    case VEnum(_, _, Data(items)) => forall y :: y in items ==> Convertible(y)
    case VClosure(c, env) => c.typeArgs == map[] && forall i :: 0 <= i < |env| && Occurs(i, c.body) ==> Convertible(env[i])
    case VConstructor(_, _) => false
    case VBuiltin(_) => false
    case _ => true
  }

  lemma {:induction false} AlgConverts(x: Context, table: Table, a: Alg)
    requires Decodes(x.symbols, table) && BuildableAlg(x, a)
    ensures AlgToExpr(x.p, table, a).Ok?
    decreases a
  {
    match a
    case AlgRef(name, t, id, _) =>
      var i :| 0 <= i < |x.symbols| && ElementOf(x.symbols[i], name, t, id);
      assert Covers(x.symbols[i], x.symbols[i].kind, id);
      ColumnDecodes(x.symbols[i], table, name, t, id);
    case AlgBin(_, l, r) => AlgConverts(x, table, l); AlgConverts(x, table, r);
    case AlgNeg(e) => AlgConverts(x, table, e);
    case _ =>
  }

  /** Conversion succeeds exactly on the convertible values. */
  lemma {:induction false} ConversionSucceeds(x: Context, table: Table, v: Value)
    requires Decodes(x.symbols, table) && Buildable(x, v)
    ensures ToExpr(x.p, table, v).Ok? <==> Convertible(v)
    decreases v
  {
    match v
    case VTuple(items) => ConversionsSucceed(x, table, items);
    case VArray(items) => ConversionsSucceed(x, table, items);
    case VEnum(_, _, Data(items)) => ConversionsSucceed(x, table, items);
    case VExpr(a) => AlgConverts(x, table, a);
    case VClosure(c, env) =>
      var ids := Captured(c.body, |env|);
      LetsSucceed(x, table, env, ids, 0);
      forall i | 0 <= i < |env| && Occurs(i, c.body) ensures exists k :: 0 <= k < |ids| && ids[k] == i {
        CapturedAt(c.body, |env|, i);
      }
    case _ =>
  }

  lemma {:induction false} ConversionsSucceed(x: Context, table: Table, vs: seq<Value>)
    requires Decodes(x.symbols, table) && forall y :: y in vs ==> Buildable(x, y)
    ensures ToExprs(x.p, table, vs).Ok? <==> forall y :: y in vs ==> Convertible(y)
    decreases vs
  {
    if vs != [] {
      ConversionSucceeds(x, table, vs[0]);
      ConversionsSucceed(x, table, vs[1..]);
      assert forall y :: y in vs <==> y == vs[0] || y in vs[1..];
    }
  }

  lemma {:induction false} LetsSucceed(x: Context, table: Table, env: seq<Value>, ids: seq<nat>, k: nat)
    requires Decodes(x.symbols, table) && (forall y :: y in env ==> Buildable(x, y))
    requires k <= |ids| && forall i :: 0 <= i < |ids| ==> ids[i] < |env|
    ensures LetStmts(x.p, table, env, ids, k).Ok? <==> forall i :: k <= i < |ids| ==> Convertible(env[ids[i]])
    decreases env, |ids| - k
  {
    if k < |ids| {
      ConversionSucceeds(x, table, env[ids[k]]);
      LetsSucceed(x, table, env, ids, k + 1);
    }
  }
}
