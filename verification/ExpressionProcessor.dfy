/** The name resolver as it works in the source: a map from names to ids and a counter, saved before a
    scope and reset after it. */
module ExpressionProcessor {
  import opened Options
  import opened Collections
  import opened Types
  import opened PilLang
  import opened Named
  import opened NameResolution

  /** The map and the counter represent the list of names in scope. */
  ghost predicate Represents(vars: map<string, nat>, counter: nat, names: seq<string>) {
    && Distinct(names) && counter == |names|
    && (forall x :: x in vars <==> x in names)
    && (forall i :: 0 <= i < |names| ==> names[i] in vars && vars[names[i]] == i)
  }

  lemma RepresentsLookup(vars: map<string, nat>, counter: nat, names: seq<string>, x: string)
    requires Represents(vars, counter, names) && x in names
    ensures vars[x] == IndexOf(names, x)
  {
    var i := IndexOf(names, x);
    assert names[i] == x;
  }

  class Processor {
    const d: Driver
    var localVariables: map<string, nat>
    var localVariableCounter: nat
    ghost var names: seq<string>

    ghost predicate Valid()
      reads this
    {
      Represents(localVariables, localVariableCounter, names)
    }

    constructor (driver: Driver)
      ensures Valid() && names == [] && d == driver
    {
      d, localVariables, localVariableCounter, names := driver, map[], 0, [];
    }

    // ----- patterns -----

    /** Gives the variable the next id. If the name is in use already, processing fails. */
    method ProcessVariablePattern(x: string) returns (r: Option<Pattern>)
      requires Valid()
      modifies this
      ensures ProcessVariable(old(names), x).None? <==> r.None?
      ensures r.Some? ==> Valid() && ProcessVariable(old(names), x) == Some((r.value, names))
    {
      var id := localVariableCounter;
      var defined := x in localVariables;
      localVariables := localVariables[x := id];
      if defined { return None; }
      localVariableCounter := localVariableCounter + 1;
      names := names + [x];
      r := Some(VariableP(x));
    }

    method ProcessOnePattern(p: Pattern) returns (r: Option<Pattern>)
      requires Valid()
      modifies this
      ensures ProcessPattern(d, old(names), p).None? <==> r.None?
      ensures r.Some? ==> Valid() && ProcessPattern(d, old(names), p) == Some((r.value, names))
      decreases p
    {
      match p
      case ArrayP(items) =>
        if EllipsisCount(items) > 1 { return None; }
        var q := ProcessPatternVec(items);
        r := if q.None? then None else Some(ArrayP(q.value));
      case TupleP(items) =>
        var q := ProcessPatternVec(items);
        r := if q.None? then None else Some(TupleP(q.value));
      case VariableP(x) => r := ProcessVariablePattern(x);
      case EnumP(path, NoFields) =>
        var variant := d.constructorVariant(path);
        if variant.Some? { r := Some(EnumP(variant.value, NoFields)); }
        else if d.isIdentifier(path) { r := ProcessVariablePattern(path); }
        else { r := None; }
      case EnumP(path, Fields(fs)) =>
        var variant := d.valueVariant(path);
        if variant.None? { return None; }
        var q := ProcessPatternVec(fs);
        r := if q.None? then None else Some(EnumP(variant.value, Fields(q.value)));
      case _ => r := Some(p);
    }

    method ProcessPatternVec(ps: seq<Pattern>) returns (r: Option<seq<Pattern>>)
      requires Valid()
      modifies this
      ensures ProcessPatterns(d, old(names), ps).None? <==> r.None?
      ensures r.Some? ==> Valid() && ProcessPatterns(d, old(names), ps) == Some((r.value, names))
      decreases ps
    {
      var out: seq<Pattern> := [];
      assert ps[0..] == ps;
      PrependNothing(ProcessPatterns(d, names, ps));
      for i := 0 to |ps|
        invariant Valid()
        invariant ProcessPatterns(d, old(names), ps) == Prepend(out, ProcessPatterns(d, names, ps[i..]))
      {
        assert ps[i..][0] == ps[i] && ps[i..][1..] == ps[i + 1..];
        var q := ProcessOnePattern(ps[i]);
        if q.None? { return None; }
        PrependStep(out, q.value, ProcessPatterns(d, names, ps[i + 1..]));
        out := out + [q.value];
      }
      assert ps[|ps|..] == [] && out + [] == out;
      r := Some(out);
    }

    // ----- expressions -----

    method ProcessExpression(e: NExpr) returns (r: Option<PExpr>)
      requires Valid()
      modifies this
      ensures r == Process(d, old(names), e)
      ensures r.Some? ==> Valid() && names == old(names)
      decreases e, 1
    {
      match e
      case NRef(path, ts) =>
        if d.isIdentifier(path) && path in localVariables {
          RepresentsLookup(localVariables, localVariableCounter, names, path);
          r := Some(LocalVar(localVariables[path]));
        } else {
          var n := d.resolveValue(path);
          r := if n.Some? then Some(Global(n.value, ts)) else None;
        }
      case NPublicRef(n) => r := Some(PublicRef(n));
      case NNumber(n, ty) => r := Some(Number(n, ty));
      case NStr(s) => r := Some(Str(s));
      case NTuple(items) =>
        var q := ProcessExpressions(items);
        r := if q.None? then None else Some(TupleE(q.value));
      case NArray(items) =>
        var q := ProcessExpressions(items);
        r := if q.None? then None else Some(ArrayE(q.value));
      case NBinary(op, x, y) =>
        var a := ProcessExpression(x);
        if a.None? { return None; }
        var b := ProcessExpression(y);
        r := if b.None? then None else Some(Binary(op, a.value, b.value));
      case NUnary(op, x) =>
        var a := ProcessExpression(x);
        r := if a.None? then None else Some(Unary(op, a.value));
      case NIndex(x, y) =>
        var a := ProcessExpression(x);
        if a.None? { return None; }
        var b := ProcessExpression(y);
        r := if b.None? then None else Some(IndexE(a.value, b.value));
      case NCall(f, args) =>
        var a := ProcessExpression(f);
        if a.None? { return None; }
        var q := ProcessExpressions(args);
        r := if q.None? then None else Some(Call(a.value, q.value));
      case NIf(x, y, z) =>
        var a := ProcessExpression(x);
        if a.None? { return None; }
        var b := ProcessExpression(y);
        if b.None? { return None; }
        var c := ProcessExpression(z);
        r := if c.None? then None else Some(IfE(a.value, b.value, c.value));
      case NLambda(ps, body) => r := ProcessLambda(e);
      case NMatch(sc, arms) =>
        var a := ProcessExpression(sc);
        if a.None? { return None; }
        var q := ProcessMatchArms(arms);
        r := if q.None? then None else Some(MatchE(a.value, q.value));
      case NBlock(stmts, result) => r := ProcessBlock(e);
      case NFreeInput => r := None;
    }

    method ProcessExpressions(es: seq<NExpr>) returns (r: Option<seq<PExpr>>)
      requires Valid()
      modifies this
      ensures r == ProcessAll(d, old(names), es)
      ensures r.Some? ==> Valid() && names == old(names)
      decreases es
    {
      var out: seq<PExpr> := [];
      assert es[0..] == es;
      PrependAllNothing(ProcessAll(d, names, es));
      for i := 0 to |es|
        invariant Valid() && names == old(names)
        invariant ProcessAll(d, names, es) == PrependAll(out, ProcessAll(d, names, es[i..]))
      {
        assert es[i..][0] == es[i] && es[i..][1..] == es[i + 1..];
        var q := ProcessExpression(es[i]);
        if q.None? { return None; }
        PrependAllStep(out, q.value, ProcessAll(d, names, es[i + 1..]));
        out := out + [q.value];
      }
      assert es[|es|..] == [] && out + [] == out;
      r := Some(out);
    }

    /** Parameters are in scope in the body only. */
    method ProcessLambda(e: NExpr) returns (r: Option<PExpr>)
      requires Valid() && e.NLambda?
      modifies this
      ensures r == Process(d, old(names), e)
      ensures r.Some? ==> Valid() && names == old(names)
      decreases e, 0
    {
      var savedVariables, savedCounter := localVariables, localVariableCounter;
      ghost var savedNames := names;
      var ps := ProcessPatternVec(e.params);
      if ps.None? { return None; }
      if exists p :: p in ps.value && !Irrefutable(p) { return None; }
      var b := ProcessExpression(e.body);
      if b.None? { return None; }
      localVariables, localVariableCounter, names := savedVariables, savedCounter, savedNames;
      r := Some(Lambda(ps.value, b.value));
    }

    /** Every arm has its own scope. */
    method ProcessMatchArms(arms: seq<NArm>) returns (r: Option<seq<Arm>>)
      requires Valid()
      modifies this
      ensures r == ProcessArms(d, old(names), arms)
      ensures r.Some? ==> Valid() && names == old(names)
      decreases arms
    {
      var out: seq<Arm> := [];
      assert arms[0..] == arms;
      PrependAllNothing(ProcessArms(d, names, arms));
      for i := 0 to |arms|
        invariant Valid() && names == old(names)
        invariant ProcessArms(d, names, arms) == PrependAll(out, ProcessArms(d, names, arms[i..]))
      {
        assert arms[i..][0] == arms[i] && arms[i..][1..] == arms[i + 1..];
        var q := ProcessMatchArm(arms[i]);
        if q.None? { return None; }
        PrependAllStep(out, q.value, ProcessArms(d, names, arms[i + 1..]));
        out := out + [q.value];
      }
      assert arms[|arms|..] == [] && out + [] == out;
      r := Some(out);
    }

    method ProcessMatchArm(a: NArm) returns (r: Option<Arm>)
      requires Valid()
      modifies this
      ensures r == ProcessArm(d, old(names), a)
      ensures r.Some? ==> Valid() && names == old(names)
      decreases a
    {
      var savedVariables, savedCounter := localVariables, localVariableCounter;
      ghost var savedNames := names;
      var p := ProcessOnePattern(a.pattern);
      if p.None? { return None; }
      var v := ProcessExpression(a.value);
      if v.None? { return None; }
      localVariables, localVariableCounter, names := savedVariables, savedCounter, savedNames;
      r := Some(Arm(p.value, v.value));
    }

    /** The variables of let statements are in scope until the end of the block. */
    method ProcessBlock(e: NExpr) returns (r: Option<PExpr>)
      requires Valid() && e.NBlock?
      modifies this
      ensures r == Process(d, old(names), e)
      ensures r.Some? ==> Valid() && names == old(names)
      decreases e, 0
    {
      var savedVariables, savedCounter := localVariables, localVariableCounter;
      ghost var savedNames := names;
      var q := ProcessStatements(e.stmts);
      if q.None? { return None; }
      var result := None;
      if e.result.Some? {
        result := ProcessExpression(e.result.value);
        if result.None? { return None; }
      }
      localVariables, localVariableCounter, names := savedVariables, savedCounter, savedNames;
      r := Some(Block(q.value, result));
    }

    method ProcessStatements(stmts: seq<NStmt>) returns (r: Option<seq<Stmt>>)
      requires Valid()
      modifies this
      ensures ProcessStmts(d, old(names), stmts).None? <==> r.None?
      ensures r.Some? ==> Valid() && ProcessStmts(d, old(names), stmts) == Some((r.value, names))
      decreases stmts
    {
      var out: seq<Stmt> := [];
      assert stmts[0..] == stmts;
      PrependNothing(ProcessStmts(d, names, stmts));
      for i := 0 to |stmts|
        invariant Valid()
        invariant ProcessStmts(d, old(names), stmts) == Prepend(out, ProcessStmts(d, names, stmts[i..]))
      {
        assert stmts[i..][0] == stmts[i] && stmts[i..][1..] == stmts[i + 1..];
        var q := ProcessStatement(stmts[i]);
        if q.None? { return None; }
        PrependStep(out, q.value, ProcessStmts(d, names, stmts[i + 1..]));
        out := out + [q.value];
      }
      assert stmts[|stmts|..] == [] && out + [] == out;
      r := Some(out);
    }

    /** The value of a let statement is processed before its pattern comes into scope. */
    method ProcessStatement(st: NStmt) returns (r: Option<Stmt>)
      requires Valid()
      modifies this
      ensures ProcessStmt(d, old(names), st).None? <==> r.None?
      ensures r.Some? ==> Valid() && ProcessStmt(d, old(names), st) == Some((r.value, names))
      decreases st
    {
      match st
      case NDo(e) =>
        var a := ProcessExpression(e);
        r := if a.None? then None else Some(Do(a.value));
      case NLet(p, ty, value) =>
        var v := None;
        if value.Some? {
          v := ProcessExpression(value.value);
          if v.None? { return None; }
        }
        var q := ProcessOnePattern(p);
        if q.None? || (value.None? && !q.value.VariableP?) || !Irrefutable(q.value) { return None; }
        r := Some(Let(q.value, ty, v));
    }
  }

  // ----- results of a list in terms of its first part -----

  function Prepend<T>(out: seq<T>, r: Option<(seq<T>, seq<string>)>): Option<(seq<T>, seq<string>)> {
    if r.None? then None else Some((out + r.value.0, r.value.1))
  }

  lemma PrependStep<T>(out: seq<T>, x: T, r: Option<(seq<T>, seq<string>)>)
    ensures Prepend(out, Prepend([x], r)) == Prepend(out + [x], r)
  {
    if r.Some? { assert out + ([x] + r.value.0) == out + [x] + r.value.0; }
  }

  lemma PrependNothing<T>(r: Option<(seq<T>, seq<string>)>)
    ensures Prepend([], r) == r
  {
    if r.Some? { assert [] + r.value.0 == r.value.0; }
  }

  lemma PrependAllNothing<T>(r: Option<seq<T>>)
    ensures PrependAll([], r) == r
  {
    if r.Some? { assert [] + r.value == r.value; }
  }

  function PrependAll<T>(out: seq<T>, r: Option<seq<T>>): Option<seq<T>> {
    if r.None? then None else Some(out + r.value)
  }

  lemma PrependAllStep<T>(out: seq<T>, x: T, r: Option<seq<T>>)
    ensures PrependAll(out, PrependAll([x], r)) == PrependAll(out + [x], r)
  {
    if r.Some? { assert out + ([x] + r.value) == out + [x] + r.value; }
  }
}
