/** Merging of links between machines: first-fit grouping into sets of mutually exclusive links, and
    the algebraic merge of each set. */
module LinkMerging {
  import opened Options
  import opened Collections
  import opened Congruence
  import opened Pil

  /** The operation a link calls, and the kind of argument it uses. */
  datatype Target = Target(machine: string, operation: string, isPermutation: bool)

  datatype Link = Link(instrFlag: Option<Expr>, linkFlag: Expr, inputs: seq<Expr>, outputs: seq<Expr>, to: Target)

  function Params(l: Link): seq<Expr> { l.inputs + l.outputs }

  function Selector(l: Link): Expr { CombineFlags(l.instrFlag, l.linkFlag) }

  predicate ContainsNext(e: Expr) {
    match e
    case Next(_) => true
    case Neg(a) => ContainsNext(a)
    case Add(a, b) => ContainsNext(a) || ContainsNext(b)
    case Sub(a, b) => ContainsNext(a) || ContainsNext(b)
    case Mul(a, b) => ContainsNext(a) || ContainsNext(b)
    case _ => false
  }

  /** The expression on the current row instead of the next one. */
  function Unprimed(e: Expr): Expr {
    match e
    case Num(_) => e
    case Col(_) => e
    case Next(c) => Col(c)
    case Neg(a) => Neg(Unprimed(a))
    case Add(a, b) => Add(Unprimed(a), Unprimed(b))
    case Sub(a, b) => Sub(Unprimed(a), Unprimed(b))
    case Mul(a, b) => Mul(Unprimed(a), Unprimed(b))
  }

  /** The expressions without next references are those that do not mention the next row. */
  lemma {:induction false} NoNextReference(e: Expr, cur: Row, nxt: Row)
    ensures ContainsNext(e) <==> Unprimed(e) != e
    ensures Eval(Unprimed(e), cur, nxt) == Eval(e, cur, cur)
  {
    match e
    case Neg(a) => NoNextReference(a, cur, nxt);
    case Add(a, b) => NoNextReference(a, cur, nxt); NoNextReference(b, cur, nxt);
    case Sub(a, b) => NoNextReference(a, cur, nxt); NoNextReference(b, cur, nxt);
    case Mul(a, b) => NoNextReference(a, cur, nxt); NoNextReference(b, cur, nxt);
    case _ =>
  }

  /** Only links from instructions without next references are merged. */
  predicate Mergeable(l: Link) { l.instrFlag.Some? && forall e :: e in Params(l) ==> !ContainsNext(e) }

  /** A link is merged if it has an instruction flag and moving its inputs and outputs to the current row changes
      nothing. */
  lemma {:induction false} MergeableIff(l: Link, row: Row)
    ensures Mergeable(l) <==>
            l.instrFlag.Some? && (forall e :: e in l.inputs ==> Unprimed(e) == e) && forall e :: e in l.outputs ==> Unprimed(e) == e
  {
    forall e ensures ContainsNext(e) <==> Unprimed(e) != e { NoNextReference(e, row, row); }
    forall e ensures e in Params(l) <==> e in l.inputs || e in l.outputs { }
  }

  // ----- first-fit grouping -----

  /** A set of links, in the order they were added. */
  type LinkSet = seq<Link>

  predicate HasFlag(s: LinkSet, f: Option<Expr>) { exists i :: 0 <= i < |s| && s[i].instrFlag == f }

  /** The position of the first set without the flag, or the number of sets. */
  function FirstWithout(sets: seq<LinkSet>, f: Option<Expr>): (k: nat)
    ensures k <= |sets| && (forall i :: 0 <= i < k ==> HasFlag(sets[i], f)) && (k < |sets| ==> !HasFlag(sets[k], f))
  {
    if sets == [] || !HasFlag(sets[0], f) then 0 else 1 + FirstWithout(sets[1..], f)
  }

  /** Adds a link to the first set that does not have its flag yet, or to a new set. */
  function FirstFit(sets: seq<LinkSet>, l: Link): seq<LinkSet> {
    var k := FirstWithout(sets, l.instrFlag);
    if k < |sets| then sets[k := sets[k] + [l]] else sets + [[l]]
  }

  function Group(links: seq<Link>): seq<LinkSet> {
    if links == [] then [] else FirstFit(Group(links[..|links| - 1]), links[|links| - 1])
  }

  function Count(links: seq<Link>, f: Option<Expr>): nat {
    if links == [] then 0 else Count(links[..|links| - 1], f) + if links[|links| - 1].instrFlag == f then 1 else 0
  }

  predicate DistinctFlags(s: LinkSet) { forall i, j :: 0 <= i < j < |s| ==> s[i].instrFlag != s[j].instrFlag }

  function Flatten(sets: seq<LinkSet>): multiset<Link> {
    if sets == [] then multiset{} else Flatten(sets[..|sets| - 1]) + multiset(sets[|sets| - 1])
  }

  /** A flag is in the sets up to its multiplicity, and in no other. */
  ghost predicate Prefixes(sets: seq<LinkSet>, links: seq<Link>) {
    && (forall f, i :: 0 <= i < |sets| ==> (HasFlag(sets[i], f) <==> i < Count(links, f)))
    && (forall f {:trigger Count(links, f)} :: Count(links, f) <= |sets|)
    && (forall i :: 0 <= i < |sets| ==> sets[i] != [] && DistinctFlags(sets[i]))
  }

  lemma HasFlagAppend(s: LinkSet, l: Link, f: Option<Expr>)
    ensures HasFlag(s + [l], f) <==> HasFlag(s, f) || l.instrFlag == f
  {
    if i :| 0 <= i < |s| && s[i].instrFlag == f { assert (s + [l])[i].instrFlag == f; }
    if l.instrFlag == f { assert (s + [l])[|s|].instrFlag == f; }
  }

  lemma CountAppend(links: seq<Link>, l: Link, f: Option<Expr>)
    ensures Count(links + [l], f) == Count(links, f) + if l.instrFlag == f then 1 else 0
  {
    assert (links + [l])[..|links|] == links;
  }

  lemma FirstFitPrefixes(sets: seq<LinkSet>, links: seq<Link>, l: Link)
    requires Prefixes(sets, links)
    ensures Prefixes(FirstFit(sets, l), links + [l])
  {
    var r := FirstFit(sets, l);
    var k := FirstWithout(sets, l.instrFlag);
    assert k == Count(links, l.instrFlag) by {
      if k < |sets| { assert !HasFlag(sets[k], l.instrFlag); }
      if k > 0 { assert HasFlag(sets[k - 1], l.instrFlag); }
    }
    forall f, i | 0 <= i < |r| ensures HasFlag(r[i], f) <==> i < Count(links + [l], f) {
      CountAppend(links, l, f);
      if i == k { HasFlagAppend(if k < |sets| then sets[k] else [], l, f); }
      assert k == |sets| ==> [] + [l] == r[k];
    }
    forall f ensures Count(links + [l], f) <= |r| { CountAppend(links, l, f); }
  }

  lemma {:induction false} GroupPrefixes(links: seq<Link>)
    ensures Prefixes(Group(links), links)
    decreases |links|
  {
    if links != [] {
      var n := |links| - 1;
      GroupPrefixes(links[..n]);
      FirstFitPrefixes(Group(links[..n]), links[..n], links[n]);
      assert links == links[..n] + [links[n]];
    }
  }

  // ----- nothing is lost or duplicated -----

  lemma {:induction false} FlattenUpdate(sets: seq<LinkSet>, k: nat, l: Link)
    requires k < |sets|
    ensures Flatten(sets[k := sets[k] + [l]]) == Flatten(sets) + multiset{l}
    decreases |sets|
  {
    var n := |sets| - 1;
    var r := sets[k := sets[k] + [l]];
    if k == n {
      assert r[..n] == sets[..n];
    } else {
      assert r[..n] == sets[..n][k := sets[k] + [l]];
      FlattenUpdate(sets[..n], k, l);
    }
  }

  lemma FirstFitFlatten(sets: seq<LinkSet>, l: Link)
    ensures Flatten(FirstFit(sets, l)) == Flatten(sets) + multiset{l}
  {
    var k := FirstWithout(sets, l.instrFlag);
    if k < |sets| {
      FlattenUpdate(sets, k, l);
    } else {
      var r := sets + [[l]];
      assert r[..|sets|] == sets && r[|sets|] == [l];
      assert multiset([l]) == multiset{l};
    }
  }

  /** The sets partition the links. */
  lemma {:induction false} GroupPartitions(links: seq<Link>)
    ensures Flatten(Group(links)) == multiset(links)
    decreases |links|
  {
    if links != [] {
      var n := |links| - 1;
      GroupPartitions(links[..n]);
      FirstFitFlatten(Group(links[..n]), links[n]);
      assert links == links[..n] + [links[n]];
    }
  }

  // ----- the number of sets is minimal -----

  lemma {:induction false} CountConcat(a: seq<Link>, b: seq<Link>, f: Option<Expr>)
    ensures Count(a + b, f) == Count(a, f) + Count(b, f)
    decreases |b|
  {
    if b == [] {
      assert a + b == a;
    } else {
      var n := |b| - 1;
      assert (a + b)[..|a + b| - 1] == a + b[..n];
      CountConcat(a, b[..n], f);
    }
  }

  /** How often a flag occurs depends only on the links, not on their order. */
  lemma {:induction false} CountPermutation(a: seq<Link>, b: seq<Link>, f: Option<Expr>)
    requires multiset(a) == multiset(b)
    ensures Count(a, f) == Count(b, f)
    decreases |a|
  {
    if a == [] {
      assert |b| == |multiset(b)| == 0;
    } else {
      var n := |a| - 1;
      assert a == a[..n] + [a[n]];
      assert a[n] in multiset(b);
      var j :| 0 <= j < |b| && b[j] == a[n];
      RemoveOne(b, j);
      CountPermutation(a[..n], b[..j] + b[j + 1..], f);
      CountMoved(b, j, f);
    }
  }

  lemma CountMoved(b: seq<Link>, j: nat, f: Option<Expr>)
    requires j < |b|
    ensures Count(b, f) == Count(b[..j] + b[j + 1..], f) + if b[j].instrFlag == f then 1 else 0
  {
    RemoveOne(b, j);
    CountConcat(b[..j], b[j + 1..], f);
    CountConcat(b[..j] + [b[j]], b[j + 1..], f);
    CountAppend(b[..j], b[j], f);
  }

  function Concat(sets: seq<LinkSet>): seq<Link> {
    if sets == [] then [] else Concat(sets[..|sets| - 1]) + sets[|sets| - 1]
  }

  lemma {:induction false} ConcatFlatten(sets: seq<LinkSet>)
    ensures multiset(Concat(sets)) == Flatten(sets)
    decreases |sets|
  {
    if sets != [] { ConcatFlatten(sets[..|sets| - 1]); }
  }

  lemma {:induction false} DistinctCount(s: LinkSet, f: Option<Expr>)
    requires DistinctFlags(s)
    ensures Count(s, f) <= 1 && (Count(s, f) == 1 ==> HasFlag(s, f))
    decreases |s|
  {
    if s != [] {
      var n := |s| - 1;
      DistinctCount(s[..n], f);
      assert s == s[..n] + [s[n]];
      HasFlagAppend(s[..n], s[n], f);
    }
  }

  lemma {:induction false} CountSets(sets: seq<LinkSet>, f: Option<Expr>)
    requires forall i :: 0 <= i < |sets| ==> DistinctFlags(sets[i])
    ensures Count(Concat(sets), f) <= |sets|
    decreases |sets|
  {
    if sets != [] {
      var n := |sets| - 1;
      CountSets(sets[..n], f);
      CountConcat(Concat(sets[..n]), sets[n], f);
      DistinctCount(sets[n], f);
    }
  }

  /** The number of sets is the largest multiplicity of a flag. */
  lemma SetsAreMultiplicity(links: seq<Link>)
    ensures forall f :: Count(links, f) <= |Group(links)|
    ensures links != [] ==> exists f :: Count(links, f) == |Group(links)|
  {
    GroupPrefixes(links);
    var sets := Group(links);
    if links != [] {
      GroupPartitions(links);
      assert links[0] in multiset(links);
      assert sets != [];
      var last := sets[|sets| - 1];
      assert HasFlag(last, last[0].instrFlag);
      assert Count(links, last[0].instrFlag) == |sets|;
    }
  }

  /** No other partition into sets without repeated flags has fewer sets. */
  lemma FewestSets(links: seq<Link>, parts: seq<LinkSet>)
    requires Flatten(parts) == multiset(links) && forall i :: 0 <= i < |parts| ==> DistinctFlags(parts[i])
    ensures |Group(links)| <= |parts|
  {
    SetsAreMultiplicity(links);
    if links != [] {
      var f :| Count(links, f) == |Group(links)|;
      ConcatFlatten(parts);
      CountPermutation(links, Concat(parts), f);
      CountSets(parts, f);
    }
  }

  // ----- merging a set -----

  /** Clears the instruction flag by combining it into the link flag and into all parameters. */
  function Combined(l: Link): Link {
    var flag := Selector(l);
    Link(None, flag, Scaled(l.inputs, flag), Scaled(l.outputs, flag), l.to)
  }

  function Scaled(es: seq<Expr>, flag: Expr): (r: seq<Expr>)
    ensures |r| == |es| && forall i :: 0 <= i < |es| ==> r[i] == Mul(es[i], flag)
  {
    seq(|es|, i requires 0 <= i < |es| => Mul(es[i], flag))
  }

  function AddAll(a: seq<Expr>, b: seq<Expr>): (r: seq<Expr>)
    requires |a| == |b|
    ensures |r| == |a| && forall i :: 0 <= i < |a| ==> r[i] == Add(a[i], b[i])
  {
    seq(|a|, i requires 0 <= i < |a| => Add(a[i], b[i]))
  }

  /** All links of a set have the number of inputs and outputs of the operation they call. */
  predicate SameShape(s: LinkSet) {
    forall i :: 0 <= i < |s| ==> |s[i].inputs| == |s[0].inputs| && |s[i].outputs| == |s[0].outputs| && s[i].to == s[0].to
  }

  /** Adds up the flags and the parameters of combined links. */
  function AddUp(s: LinkSet): (r: Link)
    requires s != [] && SameShape(s)
    ensures r.instrFlag == None && |r.inputs| == |s[0].inputs| && |r.outputs| == |s[0].outputs| && r.to == s[0].to
  {
    var n := |s| - 1;
    if n == 0 then Combined(s[0])
    else
      Sum(AddUp(s[..n]), Combined(s[n]))
  }

  /** Adds the flags and the parameters of two links. */
  function Sum(a: Link, b: Link): Link
    requires |a.inputs| == |b.inputs| && |a.outputs| == |b.outputs|
  {
    Link(None, Add(a.linkFlag, b.linkFlag), AddAll(a.inputs, b.inputs), AddAll(a.outputs, b.outputs), a.to)
  }

  /** A single link stays as it is. */
  function Merge(s: LinkSet): Link
    requires s != [] && SameShape(s)
  {
    if |s| == 1 then s[0] else AddUp(s)
  }

  // ----- what a link sends -----

  /** The row a link is evaluated on, and the row after it. */
  datatype Step = Step(cur: Row, nxt: Row)

  function At(e: Expr, x: Step): int { Eval(e, x.cur, x.nxt) }

  /** The flag a link is used with on a row: the instruction flag, if there is one, times the link flag. */
  function FlagAt(l: Link, x: Step): int {
    match l.instrFlag
    case None => At(l.linkFlag, x)
    case Some(f) => At(f, x) * At(l.linkFlag, x)
  }

  predicate Active(p: Modulus, l: Link, x: Step) { !Cong(p, FlagAt(l, x), 0) }

  /** The expression into which the merge combines the two flags has this value. */
  lemma SelectorValue(l: Link, x: Step)
    ensures At(Selector(l), x) == FlagAt(l, x)
  {
  }

  function Values(p: Modulus, es: seq<Expr>, x: Step): (r: seq<int>)
    ensures |r| == |es| && forall i :: 0 <= i < |es| ==> r[i] == Rep(p, At(es[i], x))
  {
    seq(|es|, i requires 0 <= i < |es| => Rep(p, At(es[i], x)))
  }

  /** The tuple a link exposes on a row. */
  function TupleAt(p: Modulus, l: Link, x: Step): seq<int> { Values(p, l.inputs, x) + Values(p, l.outputs, x) }

  /** The tuples a link sends on a row: one if it is active, none otherwise. */
  function Sent(p: Modulus, l: Link, x: Step): multiset<seq<int>> {
    if Active(p, l, x) then multiset{TupleAt(p, l, x)} else multiset{}
  }

  /** The tuples that links send to a target on a row. */
  function SentTo(p: Modulus, t: Target, links: seq<Link>, x: Step): multiset<seq<int>> {
    if links == [] then multiset{}
    else
      var n := |links| - 1;
      SentTo(p, t, links[..n], x) + if links[n].to == t then Sent(p, links[n], x) else multiset{}
  }

  /** Flags are boolean, and of two different instruction flags at most one is active. */
  predicate Exclusive(p: Modulus, links: seq<Link>, x: Step) {
    && (forall i :: 0 <= i < |links| ==> Cong(p, FlagAt(links[i], x), 0) || Cong(p, FlagAt(links[i], x), 1))
    && (forall i, j :: 0 <= i < |links| && 0 <= j < |links| && links[i].instrFlag.Some? && links[j].instrFlag.Some? &&
                       links[i].instrFlag != links[j].instrFlag ==>
          Cong(p, At(links[i].instrFlag.value, x), 0) || Cong(p, At(links[j].instrFlag.value, x), 0))
  }

  // ----- values of a merged link -----

  predicate Zero(p: Modulus, es: seq<Expr>, x: Step) { forall i :: 0 <= i < |es| ==> Cong(p, At(es[i], x), 0) }

  predicate Same(p: Modulus, es: seq<Expr>, ds: seq<Expr>, x: Step) {
    |es| == |ds| && forall i :: 0 <= i < |es| ==> Cong(p, At(es[i], x), At(ds[i], x))
  }

  lemma ScaledValues(p: Modulus, es: seq<Expr>, flag: Expr, x: Step)
    ensures Cong(p, At(flag, x), 0) ==> Zero(p, Scaled(es, flag), x)
    ensures Cong(p, At(flag, x), 1) ==> Same(p, Scaled(es, flag), es, x)
  {
    forall i | 0 <= i < |es|
      ensures Cong(p, At(flag, x), 0) ==> Cong(p, At(es[i], x) * At(flag, x), 0)
      ensures Cong(p, At(flag, x), 1) ==> Cong(p, At(es[i], x) * At(flag, x), At(es[i], x))
    {
      if Cong(p, At(flag, x), 0) { CongMul(p, At(es[i], x), At(es[i], x), At(flag, x), 0); }
      if Cong(p, At(flag, x), 1) { CongMul(p, At(es[i], x), At(es[i], x), At(flag, x), 1); }
    }
  }

  lemma AddedValues(p: Modulus, a: seq<Expr>, b: seq<Expr>, ds: seq<Expr>, x: Step)
    requires |a| == |b|
    ensures Zero(p, a, x) && Zero(p, b, x) ==> Zero(p, AddAll(a, b), x)
    ensures Same(p, a, ds, x) && Zero(p, b, x) ==> Same(p, AddAll(a, b), ds, x)
    ensures Zero(p, a, x) && Same(p, b, ds, x) ==> Same(p, AddAll(a, b), ds, x)
  {
    forall i | 0 <= i < |a| && Zero(p, b, x)
      ensures Cong(p, At(a[i], x) + At(b[i], x), At(a[i], x))
    {
      CongAdd(p, At(a[i], x), At(a[i], x), At(b[i], x), 0);
    }
    forall i | 0 <= i < |a| && Zero(p, a, x)
      ensures Cong(p, At(a[i], x) + At(b[i], x), At(b[i], x))
    {
      CongAdd(p, At(a[i], x), 0, At(b[i], x), At(b[i], x));
    }
  }

  lemma SameValues(p: Modulus, es: seq<Expr>, ds: seq<Expr>, x: Step)
    requires Same(p, es, ds, x)
    ensures Values(p, es, x) == Values(p, ds, x)
  {
  }

  /** The flag and all parameters vanish. */
  predicate Inert(p: Modulus, m: Link, x: Step) { Cong(p, At(m.linkFlag, x), 0) && Zero(p, m.inputs, x) && Zero(p, m.outputs, x) }

  /** The flag is one and the parameters are those of `d`. */
  predicate ActsLike(p: Modulus, m: Link, d: Link, x: Step) {
    Cong(p, At(m.linkFlag, x), 1) && Same(p, m.inputs, d.inputs, x) && Same(p, m.outputs, d.outputs, x)
  }

  lemma CombinedValues(p: Modulus, l: Link, x: Step)
    ensures Cong(p, FlagAt(l, x), 0) ==> Inert(p, Combined(l), x)
    ensures Cong(p, FlagAt(l, x), 1) ==> ActsLike(p, Combined(l), l, x)
  {
    SelectorValue(l, x);
    ScaledValues(p, l.inputs, Selector(l), x);
    ScaledValues(p, l.outputs, Selector(l), x);
  }

  lemma SumValues(p: Modulus, a: Link, b: Link, d: Link, x: Step)
    requires |a.inputs| == |b.inputs| && |a.outputs| == |b.outputs|
    ensures Inert(p, a, x) && Inert(p, b, x) ==> Inert(p, Sum(a, b), x)
    ensures ActsLike(p, a, d, x) && Inert(p, b, x) ==> ActsLike(p, Sum(a, b), d, x)
    ensures Inert(p, a, x) && ActsLike(p, b, d, x) ==> ActsLike(p, Sum(a, b), d, x)
  {
    AddedValues(p, a.inputs, b.inputs, d.inputs, x);
    AddedValues(p, a.outputs, b.outputs, d.outputs, x);
    var f, g := At(a.linkFlag, x), At(b.linkFlag, x);
    if Cong(p, f, 0) { CongAdd(p, f, 0, g, g); }
    if Cong(p, g, 0) { CongAdd(p, f, f, g, 0); }
  }

  /** Adding up inactive links gives an inactive link whose parameters vanish. */
  lemma {:induction false} AddUpInactive(p: Modulus, s: LinkSet, x: Step)
    requires s != [] && SameShape(s) && forall i :: 0 <= i < |s| ==> Cong(p, FlagAt(s[i], x), 0)
    ensures Inert(p, AddUp(s), x)
    decreases |s|
  {
    var n := |s| - 1;
    CombinedValues(p, s[n], x);
    if n > 0 {
      AddUpInactive(p, s[..n], x);
      SumValues(p, AddUp(s[..n]), Combined(s[n]), s[n], x);
    }
  }

  /** If exactly link `k` is active, the sum is active and has its parameters. */
  lemma {:induction false} AddUpActive(p: Modulus, s: LinkSet, x: Step, k: nat)
    requires k < |s| && SameShape(s) && Cong(p, FlagAt(s[k], x), 1)
    requires forall i :: 0 <= i < |s| && i != k ==> Cong(p, FlagAt(s[i], x), 0)
    ensures ActsLike(p, AddUp(s), s[k], x)
    decreases |s|
  {
    var n := |s| - 1;
    CombinedValues(p, s[n], x);
    if n > 0 {
      if k < n { AddUpActive(p, s[..n], x, k); } else { AddUpInactive(p, s[..n], x); }
      SumValues(p, AddUp(s[..n]), Combined(s[n]), s[k], x);
    }
  }

  // ----- a merged link sends what the links of its set send -----

  lemma InactiveInstruction(p: Modulus, l: Link, x: Step)
    requires l.instrFlag.Some? && Cong(p, At(l.instrFlag.value, x), 0)
    ensures !Active(p, l, x)
  {
    CongMul(p, At(l.instrFlag.value, x), 0, At(l.linkFlag, x), At(l.linkFlag, x));
  }

  lemma OneActive(p: Modulus, s: LinkSet, x: Step, i: nat, j: nat)
    requires Exclusive(p, s, x) && DistinctFlags(s) && i < |s| && j < |s| && i != j
    requires s[i].instrFlag.Some? && s[j].instrFlag.Some? && Active(p, s[i], x)
    ensures !Active(p, s[j], x)
  {
    assert s[i].instrFlag != s[j].instrFlag;
    if Cong(p, At(s[i].instrFlag.value, x), 0) { InactiveInstruction(p, s[i], x); } else { InactiveInstruction(p, s[j], x); }
  }

  lemma {:induction false} SentNone(p: Modulus, t: Target, s: LinkSet, x: Step)
    requires forall i :: 0 <= i < |s| ==> !Active(p, s[i], x)
    ensures SentTo(p, t, s, x) == multiset{}
    decreases |s|
  {
    if s != [] { SentNone(p, t, s[..|s| - 1], x); }
  }

  lemma {:induction false} SentOne(p: Modulus, t: Target, s: LinkSet, x: Step, k: nat)
    requires k < |s| && s[k].to == t && Active(p, s[k], x) && forall i :: 0 <= i < |s| && i != k ==> !Active(p, s[i], x)
    ensures SentTo(p, t, s, x) == multiset{TupleAt(p, s[k], x)}
    decreases |s|
  {
    var n := |s| - 1;
    if k < n { SentOne(p, t, s[..n], x, k); } else { SentNone(p, t, s[..n], x); }
  }

  lemma MergeSends(p: Modulus, s: LinkSet, x: Step)
    requires s != [] && SameShape(s) && DistinctFlags(s) && Exclusive(p, s, x) && forall i :: 0 <= i < |s| ==> s[i].instrFlag.Some?
    ensures Sent(p, Merge(s), x) == SentTo(p, s[0].to, s, x) && Merge(s).to == s[0].to
  {
    if |s| == 1 {
      assert s[..0] == [];
    } else if k :| 0 <= k < |s| && Active(p, s[k], x) {
      forall i | 0 <= i < |s| && i != k ensures !Active(p, s[i], x) { OneActive(p, s, x, k, i); }
      SentOne(p, s[0].to, s, x, k);
      AddUpActive(p, s, x, k);
      SameValues(p, AddUp(s).inputs, s[k].inputs, x);
      SameValues(p, AddUp(s).outputs, s[k].outputs, x);
    } else {
      SentNone(p, s[0].to, s, x);
      AddUpInactive(p, s, x);
    }
  }

  // ----- all links together -----

  function Plain(links: seq<Link>): seq<Link> {
    if links == [] then []
    else
      var n := |links| - 1;
      Plain(links[..n]) + if Mergeable(links[n]) then [] else [links[n]]
  }

  /** The mergeable links to a target. */
  function ToTarget(t: Target, links: seq<Link>): (r: seq<Link>)
    ensures forall l :: l in r ==> l in links && Mergeable(l) && l.to == t
  {
    if links == [] then []
    else
      var n := |links| - 1;
      ToTarget(t, links[..n]) + if Mergeable(links[n]) && links[n].to == t then [links[n]] else []
  }

  /** Every link has the number of inputs and outputs of the operation it calls. */
  predicate Fits(links: seq<Link>) {
    forall k, l :: k in links && l in links && k.to == l.to ==> |k.inputs| == |l.inputs| && |k.outputs| == |l.outputs|
  }

  lemma {:induction false} SentConcat(p: Modulus, t: Target, a: seq<Link>, b: seq<Link>, x: Step)
    ensures SentTo(p, t, a + b, x) == SentTo(p, t, a, x) + SentTo(p, t, b, x)
    decreases |b|
  {
    if b == [] {
      assert a + b == a;
    } else {
      var n := |b| - 1;
      assert (a + b)[..|a + b| - 1] == a + b[..n];
      SentConcat(p, t, a, b[..n], x);
    }
  }

  lemma SentSingle(p: Modulus, t: Target, l: Link, x: Step)
    ensures SentTo(p, t, [l], x) == if l.to == t then Sent(p, l, x) else multiset{}
  {
    assert [l][..0] == [];
  }

  lemma {:induction false} SentSplit(p: Modulus, t: Target, links: seq<Link>, x: Step)
    ensures SentTo(p, t, links, x) == SentTo(p, t, Plain(links), x) + SentTo(p, t, ToTarget(t, links), x)
    decreases |links|
  {
    if links != [] {
      var n := |links| - 1;
      SentSplit(p, t, links[..n], x);
      SentSingle(p, t, links[n], x);
      SentConcat(p, t, Plain(links[..n]), [links[n]], x);
      SentConcat(p, t, ToTarget(t, links[..n]), [links[n]], x);
      SentConcat(p, t, Plain(links[..n]), [], x);
      SentConcat(p, t, ToTarget(t, links[..n]), [], x);
    }
  }

  lemma {:induction false} SentPermutation(p: Modulus, t: Target, a: seq<Link>, b: seq<Link>, x: Step)
    requires multiset(a) == multiset(b)
    ensures SentTo(p, t, a, x) == SentTo(p, t, b, x)
    decreases |a|
  {
    if a == [] {
      assert |b| == |multiset(b)| == 0;
    } else {
      var n := |a| - 1;
      assert a == a[..n] + [a[n]];
      assert a[n] in multiset(b);
      var j :| 0 <= j < |b| && b[j] == a[n];
      RemoveOne(b, j);
      SentPermutation(p, t, a[..n], b[..j] + b[j + 1..], x);
      SentMoved(p, t, b, j, x);
      SentSingle(p, t, a[n], x);
    }
  }

  lemma SentMoved(p: Modulus, t: Target, b: seq<Link>, j: nat, x: Step)
    requires j < |b|
    ensures SentTo(p, t, b, x) == SentTo(p, t, b[..j] + b[j + 1..], x) + SentTo(p, t, [b[j]], x)
  {
    RemoveOne(b, j);
    SentConcat(p, t, b[..j], b[j + 1..], x);
    SentConcat(p, t, b[..j] + [b[j]], b[j + 1..], x);
    SentConcat(p, t, b[..j], [b[j]], x);
  }

  /** A set that can be merged into one link to `t`. */
  predicate MergeableSet(t: Target, s: LinkSet) {
    s != [] && SameShape(s) && DistinctFlags(s) && forall i :: 0 <= i < |s| ==> s[i].instrFlag.Some? && s[i].to == t
  }

  function MergeSets(t: Target, sets: seq<LinkSet>): seq<Link>
    requires forall i :: 0 <= i < |sets| ==> MergeableSet(t, sets[i])
  {
    if sets == [] then []
    else
      var n := |sets| - 1;
      assert MergeableSet(t, sets[n]);
      MergeSets(t, sets[..n]) + [Merge(sets[n])]
  }

  lemma {:induction false} MergeSetsSend(p: Modulus, t: Target, sets: seq<LinkSet>, x: Step)
    requires forall i :: 0 <= i < |sets| ==> MergeableSet(t, sets[i]) && Exclusive(p, sets[i], x)
    ensures SentTo(p, t, MergeSets(t, sets), x) == SentTo(p, t, Concat(sets), x)
    ensures forall l :: l in MergeSets(t, sets) ==> l.to == t
    decreases |sets|
  {
    if sets != [] {
      var n := |sets| - 1;
      MergeSetsSend(p, t, sets[..n], x);
      MergeSends(p, sets[n], x);
      SentConcat(p, t, MergeSets(t, sets[..n]), [Merge(sets[n])], x);
      SentSingle(p, t, Merge(sets[n]), x);
      SentConcat(p, t, Concat(sets[..n]), sets[n], x);
    }
  }

  lemma {:induction false} InFlatten(sets: seq<LinkSet>, i: nat, l: Link)
    requires i < |sets| && l in sets[i]
    ensures l in Flatten(sets)
    decreases |sets|
  {
    if i < |sets| - 1 { InFlatten(sets[..|sets| - 1], i, l); }
  }

  /** The sets of a group contain only links of the group. */
  lemma GroupMembers(links: seq<Link>, i: nat, j: nat)
    requires i < |Group(links)| && j < |Group(links)[i]|
    ensures Group(links)[i][j] in links
  {
    GroupPartitions(links);
    InFlatten(Group(links), i, Group(links)[i][j]);
    assert Group(links)[i][j] in multiset(links);
  }

  lemma GroupMergeable(t: Target, links: seq<Link>, i: nat)
    requires Fits(links) && i < |Group(ToTarget(t, links))|
    ensures MergeableSet(t, Group(ToTarget(t, links))[i])
  {
    var ls := ToTarget(t, links);
    GroupPrefixes(ls);
    var s := Group(ls)[i];
    forall j | 0 <= j < |s| ensures s[j] in links && s[j].instrFlag.Some? && s[j].to == t { GroupMembers(ls, i, j); }
    assert SameShape(s) by {
      forall j | 0 <= j < |s| ensures |s[j].inputs| == |s[0].inputs| && |s[j].outputs| == |s[0].outputs| && s[j].to == s[0].to {
        assert s[j] in links && s[0] in links;
      }
    }
  }

  lemma GroupExclusive(p: Modulus, t: Target, links: seq<Link>, i: nat, x: Step)
    requires Exclusive(p, links, x) && i < |Group(ToTarget(t, links))|
    ensures Exclusive(p, Group(ToTarget(t, links))[i], x)
  {
    var s := Group(ToTarget(t, links))[i];
    forall j | 0 <= j < |s| ensures exists k :: 0 <= k < |links| && links[k] == s[j] {
      GroupMembers(ToTarget(t, links), i, j);
      assert s[j] in links;
    }
  }

  /** The merged links to one target. */
  function MergedTo(t: Target, links: seq<Link>): seq<Link>
    requires Fits(links)
  {
    forall i | 0 <= i < |Group(ToTarget(t, links))| ensures MergeableSet(t, Group(ToTarget(t, links))[i]) { GroupMergeable(t, links, i); }
    MergeSets(t, Group(ToTarget(t, links)))
  }

  /** Per target, the merged links send exactly what the mergeable links send. */
  lemma MergedSends(p: Modulus, t: Target, links: seq<Link>, x: Step)
    requires Fits(links) && Exclusive(p, links, x)
    ensures SentTo(p, t, MergedTo(t, links), x) == SentTo(p, t, ToTarget(t, links), x)
    ensures forall l :: l in MergedTo(t, links) ==> l.to == t
  {
    var ls := ToTarget(t, links);
    var sets := Group(ls);
    forall i | 0 <= i < |sets| ensures MergeableSet(t, sets[i]) && Exclusive(p, sets[i], x) {
      GroupMergeable(t, links, i);
      GroupExclusive(p, t, links, i, x);
    }
    MergeSetsSend(p, t, sets, x);
    GroupPartitions(ls);
    ConcatFlatten(sets);
    SentPermutation(p, t, Concat(sets), ls, x);
  }

  /** The merged links to a list of targets. */
  function MergedAll(ts: seq<Target>, links: seq<Link>): seq<Link>
    requires Fits(links)
  {
    if ts == [] then [] else MergedAll(ts[..|ts| - 1], links) + MergedTo(ts[|ts| - 1], links)
  }

  /** `ts` lists every target of a mergeable link once. */
  predicate Targets(ts: seq<Target>, links: seq<Link>) {
    && (forall i, j :: 0 <= i < j < |ts| ==> ts[i] != ts[j])
    && (forall l :: l in links && Mergeable(l) ==> l.to in ts)
  }

  lemma {:induction false} SentElsewhere(p: Modulus, t: Target, links: seq<Link>, x: Step)
    requires forall l :: l in links ==> l.to != t
    ensures SentTo(p, t, links, x) == multiset{}
    decreases |links|
  {
    if links != [] {
      assert links[|links| - 1] in links;
      SentElsewhere(p, t, links[..|links| - 1], x);
    }
  }

  lemma {:induction false} MergedAllSends(p: Modulus, t: Target, ts: seq<Target>, links: seq<Link>, x: Step)
    requires Fits(links) && Exclusive(p, links, x) && forall i, j :: 0 <= i < j < |ts| ==> ts[i] != ts[j]
    ensures SentTo(p, t, MergedAll(ts, links), x) == if t in ts then SentTo(p, t, ToTarget(t, links), x) else multiset{}
    decreases |ts|
  {
    if ts != [] {
      var n := |ts| - 1;
      MergedAllSends(p, t, ts[..n], links, x);
      MergedSends(p, ts[n], links, x);
      SentConcat(p, t, MergedAll(ts[..n], links), MergedTo(ts[n], links), x);
      if t != ts[n] { SentElsewhere(p, t, MergedTo(ts[n], links), x); } else { assert t !in ts[..n]; }
    }
  }

  /** On every row, every target receives the same tuples before and after merging. */
  lemma MergingPreservesSent(p: Modulus, t: Target, ts: seq<Target>, links: seq<Link>, x: Step)
    requires Fits(links) && Exclusive(p, links, x) && Targets(ts, links)
    ensures SentTo(p, t, Plain(links) + MergedAll(ts, links), x) == SentTo(p, t, links, x)
  {
    SentSplit(p, t, links, x);
    SentConcat(p, t, Plain(links), MergedAll(ts, links), x);
    MergedAllSends(p, t, ts, links, x);
    if t !in ts { NoneToTarget(t, links); }
  }

  lemma {:induction false} NoneToTarget(t: Target, links: seq<Link>)
    requires forall l :: l in links && Mergeable(l) ==> l.to != t
    ensures ToTarget(t, links) == []
    decreases |links|
  {
    if links != [] {
      assert links[|links| - 1] in links;
      NoneToTarget(t, links[..|links| - 1]);
    }
  }

  // ----- lookups and permutations over a trace -----

  /** On every row on which it is active, a link exposes a tuple of its target's table. */
  predicate LookupsHold(p: Modulus, links: seq<Link>, rows: seq<Step>, table: Target -> set<seq<int>>) {
    forall r, i :: 0 <= r < |rows| && 0 <= i < |links| && Active(p, links[i], rows[r]) ==>
      TupleAt(p, links[i], rows[r]) in table(links[i].to)
  }

  /** All tuples sent to a target over a trace. */
  function TotalSent(p: Modulus, t: Target, links: seq<Link>, rows: seq<Step>): multiset<seq<int>> {
    if rows == [] then multiset{} else TotalSent(p, t, links, rows[..|rows| - 1]) + SentTo(p, t, links, rows[|rows| - 1])
  }

  lemma {:induction false} SentMember(p: Modulus, t: Target, links: seq<Link>, x: Step, v: seq<int>)
    ensures v in SentTo(p, t, links, x) <==>
            exists i :: 0 <= i < |links| && links[i].to == t && Active(p, links[i], x) && v == TupleAt(p, links[i], x)
    decreases |links|
  {
    if links != [] {
      var n := |links| - 1;
      SentMember(p, t, links[..n], x, v);
      if i :| 0 <= i < n && links[..n][i].to == t && Active(p, links[..n][i], x) && v == TupleAt(p, links[..n][i], x) {
        assert links[i].to == t;
      }
      if i :| 0 <= i < n && links[i].to == t && Active(p, links[i], x) && v == TupleAt(p, links[i], x) {
        assert links[..n][i].to == t;
      }
    }
  }

  /** Links that send the same tuples on every row satisfy the same lookups. */
  lemma SameSentSameLookups(p: Modulus, a: seq<Link>, b: seq<Link>, rows: seq<Step>, table: Target -> set<seq<int>>)
    requires forall t, r :: 0 <= r < |rows| ==> SentTo(p, t, a, rows[r]) == SentTo(p, t, b, rows[r])
    requires LookupsHold(p, a, rows, table)
    ensures LookupsHold(p, b, rows, table)
  {
    forall r, i | 0 <= r < |rows| && 0 <= i < |b| && Active(p, b[i], rows[r]) ensures TupleAt(p, b[i], rows[r]) in table(b[i].to) {
      SentMember(p, b[i].to, b, rows[r], TupleAt(p, b[i], rows[r]));
      SentMember(p, b[i].to, a, rows[r], TupleAt(p, b[i], rows[r]));
    }
  }

  /** Merging preserves meaning: the merged lookups hold on a trace if and only if the original ones
      do, and every target of a permutation receives the same multiset of tuples. */
  lemma MergingPreservesMeaning(p: Modulus, ts: seq<Target>, links: seq<Link>, rows: seq<Step>, table: Target -> set<seq<int>>)
    requires Fits(links) && Targets(ts, links) && forall r :: 0 <= r < |rows| ==> Exclusive(p, links, rows[r])
    ensures LookupsHold(p, Plain(links) + MergedAll(ts, links), rows, table) <==> LookupsHold(p, links, rows, table)
    ensures forall t :: TotalSent(p, t, Plain(links) + MergedAll(ts, links), rows) == TotalSent(p, t, links, rows)
  {
    var merged := Plain(links) + MergedAll(ts, links);
    forall t, r | 0 <= r < |rows| ensures SentTo(p, t, merged, rows[r]) == SentTo(p, t, links, rows[r]) {
      MergingPreservesSent(p, t, ts, links, rows[r]);
    }
    if LookupsHold(p, merged, rows, table) { SameSentSameLookups(p, merged, links, rows, table); }
    if LookupsHold(p, links, rows, table) { SameSentSameLookups(p, links, merged, rows, table); }
    forall t ensures TotalSent(p, t, merged, rows) == TotalSent(p, t, links, rows) { SameTotal(p, t, merged, links, rows); }
  }

  lemma {:induction false} SameTotal(p: Modulus, t: Target, a: seq<Link>, b: seq<Link>, rows: seq<Step>)
    requires forall r :: 0 <= r < |rows| ==> SentTo(p, t, a, rows[r]) == SentTo(p, t, b, rows[r])
    ensures TotalSent(p, t, a, rows) == TotalSent(p, t, b, rows)
    decreases |rows|
  {
    if rows != [] { SameTotal(p, t, a, b, rows[..|rows| - 1]); }
  }

  // ----- the pass -----

  /** The position of the first set without the flag. */
  method FindSet(sets: seq<LinkSet>, f: Option<Expr>) returns (k: nat)
    ensures k == FirstWithout(sets, f)
  {
    k := 0;
    while k < |sets| && HasFlag(sets[k], f)
      invariant k <= |sets| && FirstWithout(sets, f) == k + FirstWithout(sets[k..], f)
    {
      assert sets[k..][1..] == sets[k + 1..];
      k := k + 1;
    }
  }

  lemma GroupStep(t: Target, links: seq<Link>, l: Link)
    ensures var r := ToTarget(t, links + [l]);
            if Mergeable(l) && l.to == t then r != [] && Group(r) == FirstFit(Group(ToTarget(t, links)), l) else r == ToTarget(t, links)
    ensures Plain(links + [l]) == if Mergeable(l) then Plain(links) else Plain(links) + [l]
  {
    assert (links + [l])[..|links|] == links;
    var ls := ToTarget(t, links);
    assert (ls + [l])[..|ls|] == ls;
  }

  /** `grouped` holds the grouped mergeable links of every target that has any. */
  predicate Grouped(grouped: map<Target, seq<LinkSet>>, t: Target, links: seq<Link>) {
    if t in grouped then grouped[t] == Group(ToTarget(t, links)) else ToTarget(t, links) == []
  }

  /** Adds a link to the sets of its target. */
  method AddLink(l: Link, grouped: map<Target, seq<LinkSet>>, ghost links: seq<Link>) returns (r: map<Target, seq<LinkSet>>)
    requires Mergeable(l) && forall t :: Grouped(grouped, t, links)
    ensures forall t :: Grouped(r, t, links + [l])
  {
    assert Grouped(grouped, l.to, links);
    var sets := if l.to in grouped then grouped[l.to] else [];
    var k := FindSet(sets, l.instrFlag);
    var added := if k < |sets| then sets[k := sets[k] + [l]] else sets + [[l]];
    assert added == FirstFit(sets, l);
    r := grouped[l.to := added];
    forall t ensures Grouped(r, t, links + [l]) {
      assert Grouped(grouped, t, links);
      AddedLink(l, grouped, links, t, sets);
    }
  }

  lemma {:induction false} AddedLink(l: Link, grouped: map<Target, seq<LinkSet>>, links: seq<Link>, t: Target, sets: seq<LinkSet>)
    requires Mergeable(l) && Grouped(grouped, l.to, links) && Grouped(grouped, t, links)
    requires sets == if l.to in grouped then grouped[l.to] else []
    ensures Grouped(grouped[l.to := FirstFit(sets, l)], t, links + [l])
  {
    GroupStep(t, links, l);
    if t == l.to { assert sets == Group(ToTarget(t, links)); }
  }

  /** Separates the links that are not merged and groups the others by target. */
  method GroupLinks(defs: seq<Link>) returns (plain: seq<Link>, grouped: map<Target, seq<LinkSet>>)
    ensures plain == Plain(defs) && forall t :: Grouped(grouped, t, defs)
  {
    plain, grouped := [], map[];
    for n := 0 to |defs|
      invariant plain == Plain(defs[..n]) && forall t :: Grouped(grouped, t, defs[..n])
    {
      var l := defs[n];
      assert defs[..n + 1] == defs[..n] + [l];
      GroupStep(l.to, defs[..n], l);
      if Mergeable(l) {
        assert Grouped(grouped, l.to, defs[..n]);
        grouped := AddLink(l, grouped, defs[..n]);
      } else {
        plain := plain + [l];
        ghost var done := defs[..n] + [l];
        forall t ensures Grouped(grouped, t, done) {
          GroupStep(t, defs[..n], l);
          assert Grouped(grouped, t, defs[..n]);
        }
      }
    }
    assert defs[..|defs|] == defs;
  }

  lemma MergedAllStep(ts: seq<Target>, t: Target, defs: seq<Link>)
    requires Fits(defs)
    ensures MergedAll(ts + [t], defs) == MergedAll(ts, defs) + MergedTo(t, defs)
  {
    assert (ts + [t])[..|ts|] == ts;
  }

  /** Merges the sets of all targets, in any order of targets. */
  method MergeGroups(grouped: map<Target, seq<LinkSet>>, ghost defs: seq<Link>) returns (links: seq<Link>, ghost ts: seq<Target>)
    requires Fits(defs) && forall t :: t in grouped ==> grouped[t] == Group(ToTarget(t, defs))
    ensures links == MergedAll(ts, defs)
    ensures (forall i, j :: 0 <= i < j < |ts| ==> ts[i] != ts[j]) && forall t :: t in grouped ==> t in ts
  {
    links, ts := [], [];
    var rest := grouped.Keys;
    while rest != {}
      invariant rest <= grouped.Keys && (forall t :: t in ts ==> t !in rest) && (forall t :: t in grouped ==> t in rest || t in ts)
      invariant forall i, j :: 0 <= i < j < |ts| ==> ts[i] != ts[j]
      invariant links == MergedAll(ts, defs)
      decreases rest
    {
      var t :| t in rest;
      var merged := MergeGroup(t, grouped[t], defs);
      MergedAllStep(ts, t, defs);
      links, ts, rest := links + merged, ts + [t], rest - {t};
    }
  }

  /** Groups the mergeable links by target and merges each set; other links stay as they are. */
  method ProcessAndMergeLinks(defs: seq<Link>) returns (links: seq<Link>, ghost ts: seq<Target>)
    requires Fits(defs)
    ensures Targets(ts, defs) && links == Plain(defs) + MergedAll(ts, defs)
  {
    var plain, grouped := GroupLinks(defs);
    assert forall t :: t in grouped ==> Grouped(grouped, t, defs);
    var merged;
    merged, ts := MergeGroups(grouped, defs);
    links := plain + merged;
    forall l | l in defs && Mergeable(l) ensures l.to in ts {
      MergeableIn(l, defs);
      assert Grouped(grouped, l.to, defs);
    }
  }

  lemma {:induction false} MergeableIn(l: Link, links: seq<Link>)
    requires l in links && Mergeable(l)
    ensures l in ToTarget(l.to, links)
    decreases |links|
  {
    if links[|links| - 1] != l {
      MergeableIn(l, links[..|links| - 1]);
    }
  }

  method MergeGroup(t: Target, sets: seq<LinkSet>, ghost defs: seq<Link>) returns (merged: seq<Link>)
    requires Fits(defs) && sets == Group(ToTarget(t, defs))
    ensures merged == MergedTo(t, defs)
  {
    forall i | 0 <= i < |sets| ensures MergeableSet(t, sets[i]) { GroupMergeable(t, defs, i); }
    merged := MergeEach(t, sets);
  }

  method MergeEach(t: Target, sets: seq<LinkSet>) returns (merged: seq<Link>)
    requires forall i :: 0 <= i < |sets| ==> MergeableSet(t, sets[i])
    ensures merged == MergeSets(t, sets)
  {
    merged := [];
    for n := 0 to |sets|
      invariant merged == MergeSets(t, sets[..n])
    {
      assert MergeableSet(t, sets[n]);
      assert sets[..n + 1][..n] == sets[..n];
      merged := merged + [Merge(sets[n])];
    }
    assert sets[..|sets|] == sets;
  }
}
