/** What the generated code of a function means: its statements, evaluated on a row, are those of the source
    function with parameter k standing for input column k, and returned values appear in the output columns. */
module RomFunctions {
  import opened Options
  import opened Collections
  import opened Congruence
  import opened Pil
  import opened Asm
  import opened VmCompile
  import opened VmTheorem
  import opened VmRuns
  import opened RomGen

  // ----- parameters -----

  /** `cur'` is the row as the function sees it: a parameter has the value of the input column at its
      position, and everything else is as in `cur`. Of parameters with the same name the last one counts. */
  ghost predicate Binds(inputs: seq<string>, cur: Row, cur': Row) {
    && (forall k :: 0 <= k < |inputs| && inputs[k] !in inputs[k + 1..] ==> cur'(Named(inputs[k])) == cur(Named(InputName(k))))
    && (forall x :: x !in inputs ==> cur'(Named(x)) == cur(Named(x)))
  }

  /** Position `k` holds the last parameter named `x`. */
  predicate LastAt(inputs: seq<string>, x: string, k: nat) { k < |inputs| && inputs[k] == x && x !in inputs[k + 1..] }

  lemma {:induction false} Substituted(inputs: seq<string>, x: string)
    ensures x !in inputs ==> SubstituteName(inputs, x) == x
    ensures x in inputs ==> exists k: nat :: LastAt(inputs, x, k) && SubstituteName(inputs, x) == InputName(k)
  {
    if inputs != [] {
      var n := |inputs| - 1;
      Substituted(inputs[..n], x);
      if inputs[n] == x {
        assert LastAt(inputs, x, n);
      } else if x in inputs {
        assert inputs == inputs[..n] + [inputs[n]];
        var k: nat :| LastAt(inputs[..n], x, k) && SubstituteName(inputs[..n], x) == InputName(k);
        assert inputs[k + 1..] == inputs[..n][k + 1..] + [inputs[n]];
        assert LastAt(inputs, x, k);
      }
    }
  }

  lemma NameMeaning(inputs: seq<string>, x: string, cur: Row, cur': Row)
    requires Binds(inputs, cur, cur')
    ensures cur(Named(SubstituteName(inputs, x))) == cur'(Named(x))
  {
    Substituted(inputs, x);
    if x in inputs {
      var k: nat :| LastAt(inputs, x, k) && SubstituteName(inputs, x) == InputName(k);
      assert inputs[k] == x;
    }
  }

  /** Substitution: the generated expression has on a row the value of the source expression with the
      parameters bound. */
  lemma {:induction false} ExprMeaning(p: Modulus, inputs: seq<string>, e: AsmExpr, cur: Row, cur': Row, free: int)
    requires Binds(inputs, cur, cur')
    ensures EvalAsm(p, SubstituteExpr(inputs, e), cur, free) == EvalAsm(p, e, cur', free)
  {
    match e
    case Ref(x) => NameMeaning(inputs, x, cur, cur');
    case Bin(_, a, b) =>
      ExprMeaning(p, inputs, a, cur, cur', free);
      ExprMeaning(p, inputs, b, cur, cur', free);
    case Minus(a) => ExprMeaning(p, inputs, a, cur, cur', free);
    case _ =>
  }

  lemma ReadsMeaning(p: Modulus, inputs: seq<string>, e: AsmExpr, x: int, cur: Row, cur': Row)
    requires Binds(inputs, cur, cur')
    ensures Reads(p, SubstituteExpr(inputs, e), x, cur) <==> Reads(p, e, x, cur')
  {
    forall free ensures EvalAsm(p, SubstituteExpr(inputs, e), cur, free) == EvalAsm(p, e, cur', free) {
      ExprMeaning(p, inputs, e, cur, cur', free);
    }
  }

  // ----- statements -----

  /** The two expressions can read the same values, the first on `cur` and the second on `cur'`. */
  ghost predicate SameReads(p: Modulus, d: AsmExpr, cur: Row, e: AsmExpr, cur': Row) {
    forall x :: Reads(p, d, x, cur) <==> Reads(p, e, x, cur')
  }

  ghost predicate AllSameReads(p: Modulus, ds: seq<AsmExpr>, cur: Row, es: seq<AsmExpr>, cur': Row) {
    |ds| == |es| && forall i :: 0 <= i < |es| ==> SameReads(p, ds[i], cur, es[i], cur')
  }

  /** The returned expression number `j`; missing ones are zero. */
  function ReturnedAt(args: seq<AsmExpr>, j: nat): AsmExpr { if j < |args| then args[j] else Number(0) }

  /** The generated statement `d` does on `cur` what `s` does on `cur'`: the same kind of statement, with the
      same targets and instruction, whose expressions read the same values; a return gives `n` values. */
  ghost predicate SameStatement(p: Modulus, n: nat, d: Stmt, cur: Row, s: Stmt, cur': Row) {
    match s
    case Assign(r, a, e) => d.Assign? && d.reg == r && d.assign == a && SameReads(p, d.rhs, cur, e, cur')
    case CallAssign(lhs, i, args) => d.CallAssign? && d.lhs == lhs && d.instr == i && AllSameReads(p, d.args, cur, args, cur')
    case Instruction(i, args) => d.Instruction? && d.instr == i && AllSameReads(p, d.args, cur, args, cur')
    case Return(args) =>
      d.Return? && |d.args| == n && forall j :: 0 <= j < n ==> SameReads(p, d.args[j], cur, ReturnedAt(args, j), cur')
    case _ => d == s
  }

  lemma {:induction false} ExprsMeaning(p: Modulus, inputs: seq<string>, es: seq<AsmExpr>, cur: Row, cur': Row)
    requires Binds(inputs, cur, cur')
    ensures AllSameReads(p, SubstituteExprs(inputs, es), cur, es, cur')
  {
    forall i | 0 <= i < |es| ensures SameReads(p, SubstituteExprs(inputs, es)[i], cur, es[i], cur') {
      forall x ensures Reads(p, SubstituteExpr(inputs, es[i]), x, cur) <==> Reads(p, es[i], x, cur') {
        ReadsMeaning(p, inputs, es[i], x, cur, cur');
      }
    }
  }

  lemma {:induction false} StatementMeaning(p: Modulus, inputs: seq<string>, n: nat, s: Stmt, cur: Row, cur': Row)
    requires Binds(inputs, cur, cur')
    ensures SameStatement(p, n, TranslateStmt(inputs, n, s), cur, s, cur')
  {
    match s
    case Assign(_, _, e) => ExprsMeaning(p, inputs, [e], cur, cur'); assert SameReads(p, SubstituteExprs(inputs, [e])[0], cur, [e][0], cur');
    case CallAssign(lhs, i, args) => ExprsMeaning(p, inputs, args, cur, cur');
    case Instruction(i, args) => ExprsMeaning(p, inputs, args, cur, cur');
    case Return(args) =>
      ExprsMeaning(p, inputs, args, cur, cur');
      var d := TranslateStmt(inputs, n, s);
      forall j | 0 <= j < n ensures SameReads(p, d.args[j], cur, ReturnedAt(args, j), cur') {
        if j < |args| {
          assert SameReads(p, SubstituteExprs(inputs, args)[j], cur, args[j], cur');
        } else {
          ZeroReads(p, cur, cur');
        }
      }
    case _ =>
  }

  lemma ZeroReads(p: Modulus, cur: Row, cur': Row)
    ensures SameReads(p, Number(0), cur, Number(0), cur')
  {
    forall x ensures Reads(p, Number(0), x, cur) <==> Reads(p, Number(0), x, cur') {
      if Reads(p, Number(0), x, cur) { ZeroRead(p, x, cur, cur'); }
      if Reads(p, Number(0), x, cur') { ZeroRead(p, x, cur', cur); }
    }
  }

  lemma ZeroRead(p: Modulus, x: int, cur: Row, cur': Row)
    requires Reads(p, Number(0), x, cur)
    ensures Reads(p, Number(0), x, cur')
  {
    var free: int :| 0 <= free < p && Cong(p, x, EvalAsm(p, Number(0), cur, free));
    assert EvalAsm(p, Number(0), cur', free) == 0;
  }

  // ----- lines -----

  /** Batch `i` of function `k` is line `OperationIdOf(src, k) + i` of the ROM. */
  lemma {:induction false} LineOf(src: Source, k: nat, i: nat)
    requires k < |src.functions| && i < |src.functions[k].body|
    ensures var n := OperationIdOf(src, k) + i;
            n < |GeneratedRom(src)| - 1 && GeneratedRom(src)[n] == FunctionRom(src.functions[k], MaxOutputs(src.functions))[i]
  {
    var n := MaxOutputs(src.functions);
    var f := src.functions[k];
    FunctionRomsPrefix(src.functions, k + 1, n);
    assert src.functions[..k + 1][..k] == src.functions[..k];
    var front := FunctionRoms(src.functions[..k], n);
    assert FunctionRoms(src.functions[..k + 1], n) == front + FunctionRom(f, n);
    assert FunctionRoms(src.functions, n)[|front| + i] == FunctionRom(f, n)[i];
  }

  /** Every line between the dispatcher and the sink belongs to a function. */
  lemma {:induction false} FunctionAt(src: Source, line: nat) returns (k: nat, i: nat)
    requires 2 <= line < |GeneratedRom(src)| - 1
    ensures k < |src.functions| && i < |src.functions[k].body| && line == OperationIdOf(src, k) + i
  {
    var n := MaxOutputs(src.functions);
    k, i := Locate(src.functions, n, line - 2);
  }

  lemma {:induction false} Locate(fs: seq<Function>, n: nat, line: nat) returns (k: nat, i: nat)
    requires line < |FunctionRoms(fs, n)|
    ensures k < |fs| && i < |fs[k].body| && line == |FunctionRoms(fs[..k], n)| + i
  {
    var m := |fs| - 1;
    var front := FunctionRoms(fs[..m], n);
    if line < |front| {
      k, i := Locate(fs[..m], n, line);
      assert fs[..m][..k] == fs[..k];
    } else {
      k, i := m, line - |front|;
    }
  }

  /** The statement that decides what a line of a function does, in the source. */
  function LastStmt(b: Batch): Option<Stmt> { if b == [] then None else Some(b[|b| - 1]) }

  /** Every line of a function does, with the parameters bound, what its batch does in the source. */
  lemma {:induction false} FunctionLine(p: Modulus, src: Source, k: nat, i: nat, cur: Row, cur': Row)
    requires k < |src.functions| && i < |src.functions[k].body| && Binds(src.functions[k].inputs, cur, cur')
    ensures OperationIdOf(src, k) + i < |GeneratedRom(src)|
    ensures var s := LastStmt(src.functions[k].body[i]); var d := LastStmt(GeneratedRom(src)[OperationIdOf(src, k) + i]);
            if s.None? then d.None? || d.value.Label?
            else d.Some? && SameStatement(p, MaxOutputs(src.functions), d.value, cur, s.value, cur')
  {
    LineOf(src, k, i);
    var f := src.functions[k];
    if f.body[i] != [] { StatementMeaning(p, f.inputs, MaxOutputs(src.functions), f.body[i][|f.body[i]| - 1], cur, cur'); }
  }

  // ----- returned values -----

  /** A latched row lies in the body of some function, on a line that returns. If that line is the source's
      `return`, output column `j` holds a value of the j-th returned expression, with parameter m standing for
      input column m, or zero if there is no j-th one. */
  lemma {:induction false} LatchedOutput(p: Modulus, src: Source, t: seq<Row>, r: nat, cur': Row) returns (k: nat, i: nat)
    requires WellFormed(p, Generated(src)) && AnyRun(p, Generated(src), t) && r < |t| && Latched(t[r])
    ensures k < |src.functions| && i < |src.functions[k].body| && PcOf(Generated(src), t[r]) == OperationIdOf(src, k) + i
    ensures var f := src.functions[k]; var s := LastStmt(f.body[i]);
            && s.Some? && (s.value.Return? || s.value.CallAssign? || s.value.Instruction?)
            && (s.value.Return? && Binds(f.inputs, t[r], cur') ==>
                forall j :: 0 <= j < MaxOutputs(src.functions) ==> Reads(p, ReturnedAt(s.value.args, j), t[r](Named(OutputName(j))), cur'))
  {
    LatchedReturns(p, src, t, r);
    k, i := ReturningFunction(p, src, t[r], cur');
  }

  /** The row executes a line of a function that invokes an instruction, whose arguments appear in the output
      columns. */
  ghost predicate ReturnsAt(p: Modulus, src: Source, line: int, cur: Row) {
    && 2 <= line < |GeneratedRom(src)| - 1
    && var act := ActionOf(GeneratedRom(src)[line]);
    && act.Invoke? && |act.args| == MaxOutputs(src.functions)
    && forall j :: 0 <= j < MaxOutputs(src.functions) ==> Reads(p, act.args[j], cur(Named(OutputName(j))), cur)
  }

  lemma {:induction false} LatchedReturns(p: Modulus, src: Source, t: seq<Row>, r: nat)
    requires WellFormed(p, Generated(src)) && AnyRun(p, Generated(src), t) && r < |t| && Latched(t[r])
    ensures ReturnsAt(p, src, PcOf(Generated(src), t[r]), t[r])
  {
    LatchedLine(p, src, t, r);
    LatchedAction(p, src, t, r);
    var line := PcOf(Generated(src), t[r]);
    forall j | 0 <= j < MaxOutputs(src.functions)
      ensures Reads(p, ActionOf(GeneratedRom(src)[line]).args[j], t[r](Named(OutputName(j))), t[r])
    {
      LatchedArgument(p, src, t, r, j);
    }
  }

  lemma {:induction false} ReturningFunction(p: Modulus, src: Source, cur: Row, cur': Row) returns (k: nat, i: nat)
    requires ReturnsAt(p, src, PcOf(Generated(src), cur), cur)
    ensures k < |src.functions| && i < |src.functions[k].body| && PcOf(Generated(src), cur) == OperationIdOf(src, k) + i
    ensures var f := src.functions[k]; var s := LastStmt(f.body[i]);
            && s.Some? && (s.value.Return? || s.value.CallAssign? || s.value.Instruction?)
            && (s.value.Return? && Binds(f.inputs, cur, cur') ==>
                forall j :: 0 <= j < MaxOutputs(src.functions) ==> Reads(p, ReturnedAt(s.value.args, j), cur(Named(OutputName(j))), cur'))
  {
    k, i := FunctionAt(src, PcOf(Generated(src), cur));
    ReturningLine(src, k, i);
    var f := src.functions[k];
    var s := LastStmt(f.body[i]);
    if s.value.Return? && Binds(f.inputs, cur, cur') {
      forall j | 0 <= j < MaxOutputs(src.functions) ensures Reads(p, ReturnedAt(s.value.args, j), cur(Named(OutputName(j))), cur') {
        ReturnedArgument(p, src, k, i, cur, cur', j, cur(Named(OutputName(j))));
      }
    }
  }

  /** The line of a function that returns has a statement in the source. */
  lemma {:induction false} ReturningLine(src: Source, k: nat, i: nat)
    requires k < |src.functions| && i < |src.functions[k].body|
    requires var line := OperationIdOf(src, k) + i; line < |GeneratedRom(src)| ==> ActionOf(GeneratedRom(src)[line]).Invoke?
    ensures var s := LastStmt(src.functions[k].body[i]); s.Some? && (s.value.Return? || s.value.CallAssign? || s.value.Instruction?)
  {
    LineOf(src, k, i);
  }

  lemma {:induction false} ReturnedArgument(p: Modulus, src: Source, k: nat, i: nat, cur: Row, cur': Row, j: nat, x: int)
    requires k < |src.functions| && i < |src.functions[k].body| && Binds(src.functions[k].inputs, cur, cur') && j < MaxOutputs(src.functions)
    requires var s := LastStmt(src.functions[k].body[i]); s.Some? && s.value.Return?
    requires OperationIdOf(src, k) + i < |GeneratedRom(src)|
    requires var act := ActionOf(GeneratedRom(src)[OperationIdOf(src, k) + i]); act.Invoke? && j < |act.args| && Reads(p, act.args[j], x, cur)
    ensures Reads(p, ReturnedAt(LastStmt(src.functions[k].body[i]).value.args, j), x, cur')
  {
    var s := LastStmt(src.functions[k].body[i]).value;
    LineOf(src, k, i);
    StatementMeaning(p, src.functions[k].inputs, MaxOutputs(src.functions), s, cur, cur');
    var d := TranslateStmt(src.functions[k].inputs, MaxOutputs(src.functions), s);
    assert SameReads(p, d.args[j], cur, ReturnedAt(s.args, j), cur');
  }

  lemma {:induction false} LatchedLine(p: Modulus, src: Source, t: seq<Row>, r: nat)
    requires WellFormed(p, Generated(src)) && AnyRun(p, Generated(src), t) && r < |t| && Latched(t[r])
    ensures 2 <= PcOf(Generated(src), t[r]) < |GeneratedRom(src)| - 1
  {
    var g := Generated(src);
    GeneratedRegs(src);
    LatchAt(p, src, t, r);
    LatchedAction(p, src, t, r);
    var m := |GeneratedRom(src)| - 1;
    assert GeneratedRom(src)[m] == SINK[0];
    assert ActionAt(g, m) == Invoke(LOOP, []);
  }
}
