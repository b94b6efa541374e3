/** Resolution of paths in a tree of modules with imports. */
module Imports {
  import opened Options
  import opened Collections

  type Path = seq<string>

  datatype Part = Super | Named(name: string)

  /** What a name can stand for. Only modules, enums, traits and structs have members. */
  datatype Symbol =
    | Module(defs: seq<Def>)
    | Import(path: seq<Part>)
    | EnumDecl(variants: set<string>)
    | TraitDecl(functions: set<string>)
    | StructDecl
    | Leaf

  datatype Def = Def(name: string, value: Symbol)

  /** Resolves a relative path. An empty name goes to the root; leaving the root is a panic. */
  function Join(base: Path, parts: seq<Part>): Option<Path>
    decreases parts
  {
    if parts == [] then Some(base)
    else match parts[0]
      case Super => if base == [] then None else Join(base[..|base| - 1], parts[1..])
      case Named(n) => Join(if n == "" then [] else base + [n], parts[1..])
  }

  /** The first definition of a name. */
  function Find(defs: seq<Def>, name: string): (r: Option<Symbol>)
    ensures r.Some? ==> exists i :: 0 <= i < |defs| && defs[i] == Def(name, r.value)
  {
    if defs == [] then None
    else if defs[0].name == name then
      assert defs[0] == Def(name, defs[0].value);
      Some(defs[0].value)
    else
      var r := Find(defs[1..], name);
      assert r.Some? ==> forall i :: 0 <= i < |defs[1..]| ==> defs[1..][i] == defs[i + 1];
      r
  }

  /** A member of a symbol, unless it is an import. */
  function Member(v: Symbol, name: string): Option<Symbol> {
    match v
    case Module(defs) =>
      var r := Find(defs, name);
      if r.Some? && r.value.Import? then None else r
    case EnumDecl(variants) => if name in variants then Some(Leaf) else None
    case TraitDecl(functions) => if name in functions then Some(Leaf) else None
    case StructDecl => Some(StructDecl)
    case _ => None
  }

  /** The symbol at a path, if the path does not lead through an import. */
  function Walk(root: Symbol, path: Path): Option<Symbol> {
    if path == [] then Some(root)
    else
      var v := Walk(root, path[..|path| - 1]);
      if v.None? then None else Member(v.value, path[|path| - 1])
  }

  lemma WalkStep(root: Symbol, path: Path, name: string)
    requires Walk(root, path).Some?
    ensures Walk(root, path + [name]) == Member(Walk(root, path).value, name)
  {
    assert (path + [name])[..|path|] == path;
  }

  // ----- the targets of imports -----

  /** The absolute paths of all imports below a location. */
  function Targets(location: Path, v: Symbol): set<Path>
    decreases v
  {
    match v
    case Module(defs) => TargetsAll(location, defs)
    case _ => {}
  }

  function TargetsAll(location: Path, defs: seq<Def>): set<Path>
    decreases defs
  {
    if defs == [] then {} else TargetsOf(location, defs[0]) + TargetsAll(location, defs[1..])
  }

  function TargetsOf(location: Path, d: Def): set<Path>
    decreases d
  {
    match d.value
    case Import(p) => if Join(location, p).Some? then {Join(location, p).value} else {}
    case _ => Targets(location + [d.name], d.value)
  }

  lemma {:induction false} TargetsOfDef(location: Path, defs: seq<Def>, i: nat)
    requires i < |defs|
    ensures TargetsOf(location, defs[i]) <= TargetsAll(location, defs)
    decreases |defs|
  {
    if i > 0 { TargetsOfDef(location, defs[1..], i - 1); }
  }

  /** Below a location that is reached without imports there are only targets of the whole tree. */
  lemma {:induction false} TargetsBelow(root: Symbol, path: Path)
    requires root.Module? && Walk(root, path).Some?
    ensures Targets(path, Walk(root, path).value) <= Targets([], root)
    decreases |path|
  {
    if path != [] {
      var n := |path| - 1;
      TargetsBelow(root, path[..n]);
      var v := Walk(root, path[..n]).value;
      if v.Module? {
        var i :| 0 <= i < |v.defs| && v.defs[i] == Def(path[n], Walk(root, path).value);
        TargetsOfDef(path[..n], v.defs, i);
        assert path == path[..n] + [path[n]];
      }
    }
  }

  lemma ImportTarget(root: Symbol, location: Path, name: string)
    requires root.Module? && Walk(root, location).Some? && Walk(root, location).value.Module?
    requires var d := Find(Walk(root, location).value.defs, name); d.Some? && d.value.Import? && Join(location, d.value.path).Some?
    ensures Join(location, Find(Walk(root, location).value.defs, name).value.path).value in Targets([], root)
  {
    var defs := Walk(root, location).value.defs;
    var d := Find(defs, name).value;
    TargetsBelow(root, location);
    var i :| 0 <= i < |defs| && defs[i] == Def(name, d);
    TargetsOfDef(location, defs, i);
  }

  // ----- resolution -----

  /** `chain` holds the paths visited so far, `paths` what has been recorded. */
  datatype Outcome =
    | Found(path: Path, value: Symbol, chain: seq<Path>, paths: map<Path, Path>)
    | Lost(paths: map<Path, Path>)
    | Panicked

  function AsSet(chain: seq<Path>): set<Path> { set p | p in chain }

  /** The result is the symbol at an import-free path, and the chain only grows. */
  predicate Sound(root: Symbol, chain: seq<Path>, r: Outcome) {
    r.Found? ==> Walk(root, r.path) == Some(r.value) && chain <= r.chain
  }

  /** Resolves an absolute path. A path that is visited twice is a cycle. `u` contains the path and all
      targets of imports. */
  function Check(root: Symbol, ghost u: set<Path>, path: Path, paths: map<Path, Path>, chain: seq<Path>): (r: Outcome)
    requires root.Module? && path in u && Targets([], root) <= u
    ensures Sound(root, chain, r)
    decreases |u - AsSet(chain)|, 0, 0
  {
    if path in chain then Lost(paths)
    else
      ChainGrows(u, chain, path);
      var r := Follow(root, u, path, 0, [], root, paths, chain + [path]);
      if r.Found? then r.(paths := r.paths[path := r.path]) else r
  }

  /** Follows the parts of `path` from position `i` on, being at `location`. */
  function Follow(root: Symbol, ghost u: set<Path>, path: Path, i: nat, location: Path, value: Symbol,
                  paths: map<Path, Path>, chain: seq<Path>): (r: Outcome)
    requires root.Module? && Targets([], root) <= u && i <= |path| && Walk(root, location) == Some(value)
    ensures Sound(root, chain, r)
    decreases |u - AsSet(chain)|, 1, |path| - i
  {
    if i == |path| then Found(location, value, chain, paths)
    else
      var d := if value.Module? then Find(value.defs, path[i]) else None;
      if d.Some? && d.value.Import? then
        var target := Join(location, d.value.path);
        if target.None? then Panicked
        else
          ImportTarget(root, location, path[i]);
          var r := Check(root, u, target.value, paths, chain);
          if r.Found? then
            ChainShrinks(u, chain, r.chain);
            Follow(root, u, path, i + 1, r.path, r.value, r.paths, r.chain)
          else r
      else
        WalkStep(root, location, path[i]);
        var m := Member(value, path[i]);
        if m.None? then Lost(paths)
        else Follow(root, u, path, i + 1, location + [path[i]], m.value, paths, chain)
  }

  lemma ChainGrows(u: set<Path>, chain: seq<Path>, path: Path)
    requires path in u && path !in chain
    ensures |u - AsSet(chain + [path])| < |u - AsSet(chain)|
  {
    assert u - AsSet(chain + [path]) == (u - AsSet(chain)) - {path};
  }

  lemma ChainShrinks(u: set<Path>, chain: seq<Path>, chain': seq<Path>)
    requires chain <= chain'
    ensures |u - AsSet(chain')| <= |u - AsSet(chain)|
  {
    assert forall p :: p in chain ==> p in chain';
    var a, b := u - AsSet(chain'), u - AsSet(chain);
    assert b == a + (b - a);
  }

  // ----- import-free paths resolve to themselves -----

  lemma {:induction false} FollowItself(root: Symbol, u: set<Path>, path: Path, i: nat, value: Symbol, paths: map<Path, Path>, chain: seq<Path>)
    requires root.Module? && Targets([], root) <= u && i <= |path| && Walk(root, path[..i]) == Some(value) && Walk(root, path).Some?
    ensures Follow(root, u, path, i, path[..i], value, paths, chain) == Found(path, Walk(root, path).value, chain, paths)
    decreases |path| - i
  {
    if i == |path| {
      assert path[..i] == path;
    } else {
      WalkPrefix(root, path, i + 1);
      WalkStep(root, path[..i], path[i]);
      assert path[..i + 1] == path[..i] + [path[i]];
      FollowItself(root, u, path, i + 1, Member(value, path[i]).value, paths, chain);
    }
  }

  lemma {:induction false} WalkPrefix(root: Symbol, path: Path, i: nat)
    requires i <= |path| && Walk(root, path).Some?
    ensures Walk(root, path[..i]).Some?
    decreases |path|
  {
    if i < |path| {
      WalkPrefix(root, path[..|path| - 1], i);
      assert path[..|path| - 1][..i] == path[..i];
    } else {
      assert path[..i] == path;
    }
  }

  /** The canonical path that resolution finds resolves to itself, to the same symbol. */
  lemma CanonicalResolvesToItself(root: Symbol, u: set<Path>, path: Path, paths: map<Path, Path>, chain: seq<Path>)
    requires root.Module? && path in u && Targets([], root) <= u
    requires var r := Check(root, u, path, paths, chain); r.Found? && r.path in u
    ensures var r := Check(root, u, path, paths, chain);
            var s := Check(root, u, r.path, r.paths, []);
            s.Found? && s.path == r.path && s.value == r.value
  {
    var r := Check(root, u, path, paths, chain);
    assert r.path[..0] == [];
    FollowItself(root, u, r.path, 0, root, r.paths, [r.path]);
    assert [] + [r.path] == [r.path];
  }

  // ----- the symbol that a path denotes -----

  /** The import-free path that a path stands for, and the targets of the imports on the way to it. */
  datatype Trail = Trail(path: Path, visited: seq<Path>)

  function After(vs: seq<Path>, t: Option<Trail>): Option<Trail> {
    if t.None? then None else Some(Trail(t.value.path, vs + t.value.visited))
  }

  /** The name is an import of the symbol. */
  predicate ImportAt(value: Symbol, name: string) {
    value.Module? && Find(value.defs, name).Some? && Find(value.defs, name).value.Import?
  }

  /** What the parts of `path` from position `i` on stand for at the import-free path `location`,
      following at most `n` imports in a row. */
  function DenotesFrom(root: Symbol, n: nat, path: Path, i: nat, location: Path): Option<Trail>
    requires i <= |path|
    decreases n, |path| - i
  {
    if i == |path| then Some(Trail(location, []))
    else
      var v := Walk(root, location);
      if v.None? then None
      else if ImportAt(v.value, path[i]) then
        var target := Join(location, Find(v.value.defs, path[i]).value.path);
        if target.None? || n == 0 then None
        else
          var t := DenotesFrom(root, n - 1, target.value, 0, []);
          if t.None? then None
          else After([target.value] + t.value.visited, DenotesFrom(root, n, path, i + 1, t.value.path))
      else if Member(v.value, path[i]).Some? then DenotesFrom(root, n, path, i + 1, location + [path[i]])
      else None
  }

  function Denotes(root: Symbol, n: nat, path: Path): Option<Trail> { DenotesFrom(root, n, path, 0, []) }

  lemma {:induction false} DenotesMore(root: Symbol, n: nat, path: Path, i: nat, location: Path)
    requires i <= |path| && DenotesFrom(root, n, path, i, location).Some?
    ensures DenotesFrom(root, n + 1, path, i, location) == DenotesFrom(root, n, path, i, location)
    decreases n, |path| - i
  {
    if i < |path| {
      var v := Walk(root, location).value;
      if ImportAt(v, path[i]) {
        var target := Join(location, Find(v.defs, path[i]).value.path).value;
        DenotesMore(root, n - 1, target, 0, []);
        DenotesMore(root, n, path, i + 1, DenotesFrom(root, n - 1, target, 0, []).value.path);
      } else {
        DenotesMore(root, n, path, i + 1, location + [path[i]]);
      }
    }
  }

  lemma {:induction false} DenotesMuchMore(root: Symbol, n: nat, k: nat, path: Path)
    requires Denotes(root, n, path).Some? && n <= k
    ensures Denotes(root, k, path) == Denotes(root, n, path)
    decreases k - n
  {
    if n < k {
      DenotesMore(root, n, path, 0, []);
      DenotesMuchMore(root, n + 1, k, path);
    }
  }

  /** The bound on imports does not matter. */
  lemma DenotesUnique(root: Symbol, n: nat, k: nat, path: Path)
    requires Denotes(root, n, path).Some? && Denotes(root, k, path).Some?
    ensures Denotes(root, n, path) == Denotes(root, k, path)
  {
    if n <= k { DenotesMuchMore(root, n, k, path); } else { DenotesMuchMore(root, k, n, path); }
  }

  // ----- resolution finds what the path denotes, unless it visits a path twice -----

  /** No path of `vs` is in `chain` or occurs in `vs` before. */
  predicate Fresh(chain: seq<Path>, vs: seq<Path>)
    decreases |vs|
  {
    vs == [] || (vs[0] !in chain && Fresh(chain + [vs[0]], vs[1..]))
  }

  lemma {:induction false} FreshConcat(chain: seq<Path>, a: seq<Path>, b: seq<Path>)
    ensures Fresh(chain, a + b) <==> Fresh(chain, a) && Fresh(chain + a, b)
    decreases |a|
  {
    if a == [] {
      assert a + b == b && chain + a == chain;
    } else {
      assert (a + b)[1..] == a[1..] + b;
      assert chain + [a[0]] + a[1..] == chain + a;
      FreshConcat(chain + [a[0]], a[1..], b);
    }
  }

  lemma FreshOne(chain: seq<Path>, path: Path, vs: seq<Path>)
    ensures Fresh(chain, [path] + vs) <==> path !in chain && Fresh(chain + [path], vs)
  {
    assert ([path] + vs)[1..] == vs;
  }

  /** The result `r` is what `t` says, and the chain has grown by the fresh paths `vs`. */
  ghost predicate Follows(chain: seq<Path>, r: Outcome, t: Option<Trail>, vs: seq<Path>) {
    r.Found? && t.Some? && t.value.path == r.path && r.chain == chain + vs && Fresh(chain, vs)
  }

  /** The target of an import, resolved to `r`, and then the rest of the path, leading to `f`. */
  lemma JoinFollows(chain: seq<Path>, target: Path, r: Outcome, s: Option<Trail>, f: Outcome, t: Option<Trail>)
    requires s.Some? && Follows(chain, r, s, [target] + s.value.visited) && t.Some? && Follows(r.chain, f, t, t.value.visited)
    ensures var all := After([target] + s.value.visited, t); all.Some? && Follows(chain, f, all, all.value.visited)
  {
    var ws := [target] + s.value.visited;
    FreshConcat(chain, ws, t.value.visited);
    Assoc(chain, ws, t.value.visited);
  }

  /** What following an import amounts to. */
  lemma FollowImport(root: Symbol, u: set<Path>, path: Path, i: nat, location: Path, value: Symbol, paths: map<Path, Path>, chain: seq<Path>)
    requires root.Module? && Targets([], root) <= u && i < |path| && Walk(root, location) == Some(value) && ImportAt(value, path[i])
    ensures var target := Join(location, Find(value.defs, path[i]).value.path);
            if target.None? then Follow(root, u, path, i, location, value, paths, chain) == Panicked
            else
              target.value in u &&
              var r := Check(root, u, target.value, paths, chain);
              Follow(root, u, path, i, location, value, paths, chain) == if r.Found? then Follow(root, u, path, i + 1, r.path, r.value, r.paths, r.chain) else r
  {
    if Join(location, Find(value.defs, path[i]).value.path).Some? { ImportTarget(root, location, path[i]); }
  }

  /** Whatever resolution finds is what the path denotes, and no path was visited twice. */
  lemma {:induction false} CheckDenotes(root: Symbol, u: set<Path>, path: Path, paths: map<Path, Path>, chain: seq<Path>)
    requires root.Module? && path in u && Targets([], root) <= u && Check(root, u, path, paths, chain).Found?
    ensures var t := Denotes(root, |u - AsSet(chain)|, path);
            t.Some? && Follows(chain, Check(root, u, path, paths, chain), t, [path] + t.value.visited)
    decreases |u - AsSet(chain)|, 0, 0
  {
    ChainGrows(u, chain, path);
    var m := |u - AsSet(chain)|;
    FollowDenotes(root, u, path, 0, [], root, paths, chain + [path], m);
    var vs := Denotes(root, m, path).value.visited;
    FreshOne(chain, path, vs);
    Assoc(chain, [path], vs);
  }

  lemma {:induction false} TargetDenotes(root: Symbol, u: set<Path>, target: Path, paths: map<Path, Path>, chain: seq<Path>, m: nat, r: Outcome)
    returns (s: Option<Trail>)
    requires root.Module? && target in u && Targets([], root) <= u && r == Check(root, u, target, paths, chain) && r.Found? && |u - AsSet(chain)| <= m
    ensures s == Denotes(root, m, target) && s.Some? && Follows(chain, r, s, [target] + s.value.visited)
    decreases |u - AsSet(chain)|, 0, 1
  {
    CheckDenotes(root, u, target, paths, chain);
    DenotesMuchMore(root, |u - AsSet(chain)|, m, target);
    s := Denotes(root, m, target);
  }

  /** An import on the way: its target is resolved to `r`, and the rest of the path leads to `f`. */
  lemma {:induction false} ImportFollows(root: Symbol, u: set<Path>, path: Path, i: nat, location: Path, value: Symbol,
                                         paths: map<Path, Path>, chain: seq<Path>, m: nat, target: Path, r: Outcome, t: Option<Trail>, f: Outcome)
    requires root.Module? && Targets([], root) <= u && i < |path| && Walk(root, location) == Some(value) && |u - AsSet(chain)| < m
    requires ImportAt(value, path[i]) && Join(location, Find(value.defs, path[i]).value.path) == Some(target) && target in u
    requires r == Check(root, u, target, paths, chain) && r.Found?
    requires t == DenotesFrom(root, m, path, i + 1, r.path) && t.Some? && Follows(r.chain, f, t, t.value.visited)
    ensures var t := DenotesFrom(root, m, path, i, location); t.Some? && Follows(chain, f, t, t.value.visited)
    decreases |u - AsSet(chain)|, 1, 0
  {
    var s := TargetDenotes(root, u, target, paths, chain, m - 1, r);
    JoinFollows(chain, target, r, s, f, t);
  }

  lemma {:induction false} FollowDenotes(root: Symbol, u: set<Path>, path: Path, i: nat, location: Path, value: Symbol,
                                         paths: map<Path, Path>, chain: seq<Path>, m: nat)
    requires root.Module? && Targets([], root) <= u && i <= |path| && Walk(root, location) == Some(value) && |u - AsSet(chain)| < m
    requires Follow(root, u, path, i, location, value, paths, chain).Found?
    ensures var t := DenotesFrom(root, m, path, i, location);
            t.Some? && Follows(chain, Follow(root, u, path, i, location, value, paths, chain), t, t.value.visited)
    decreases |u - AsSet(chain)|, 1, |path| - i
  {
    if i == |path| {
      assert chain + [] == chain;
    } else if ImportAt(value, path[i]) {
      FollowImport(root, u, path, i, location, value, paths, chain);
      var target := Join(location, Find(value.defs, path[i]).value.path).value;
      var r := Check(root, u, target, paths, chain);
      ChainShrinks(u, chain, r.chain);
      FollowDenotes(root, u, path, i + 1, r.path, r.value, r.paths, r.chain, m);
      ImportFollows(root, u, path, i, location, value, paths, chain, m, target, r, DenotesFrom(root, m, path, i + 1, r.path),
                    Follow(root, u, path, i + 1, r.path, r.value, r.paths, r.chain));
    } else {
      WalkStep(root, location, path[i]);
      FollowDenotes(root, u, path, i + 1, location + [path[i]], Member(value, path[i]).value, paths, chain, m);
    }
  }

  /** A path that denotes a symbol without visiting a path twice is found. */
  lemma {:induction false} DenotedIsFound(root: Symbol, u: set<Path>, path: Path, paths: map<Path, Path>, chain: seq<Path>, n: nat)
    requires root.Module? && path in u && Targets([], root) <= u
    requires Denotes(root, n, path).Some? && Fresh(chain, [path] + Denotes(root, n, path).value.visited)
    ensures Follows(chain, Check(root, u, path, paths, chain), Denotes(root, n, path), [path] + Denotes(root, n, path).value.visited)
    decreases n, |path|, 1
  {
    FreshOne(chain, path, Denotes(root, n, path).value.visited);
    ChainGrows(u, chain, path);
    DenotedIsFollowed(root, u, path, 0, [], root, paths, chain + [path], n);
    CheckDenotes(root, u, path, paths, chain);
    DenotesUnique(root, |u - AsSet(chain)|, n, path);
  }

  lemma {:induction false} DenotedIsFollowed(root: Symbol, u: set<Path>, path: Path, i: nat, location: Path, value: Symbol,
                                             paths: map<Path, Path>, chain: seq<Path>, n: nat)
    requires root.Module? && Targets([], root) <= u && i <= |path| && Walk(root, location) == Some(value)
    requires DenotesFrom(root, n, path, i, location).Some? && Fresh(chain, DenotesFrom(root, n, path, i, location).value.visited)
    ensures Follow(root, u, path, i, location, value, paths, chain).Found?
    decreases n, |path| - i, 0
  {
    if i < |path| {
      if ImportAt(value, path[i]) {
        FollowImport(root, u, path, i, location, value, paths, chain);
        var target := Join(location, Find(value.defs, path[i]).value.path).value;
        var t := Denotes(root, n - 1, target).value;
        FreshConcat(chain, [target] + t.visited, DenotesFrom(root, n, path, i + 1, t.path).value.visited);
        DenotedIsFound(root, u, target, paths, chain, n - 1);
        var r := Check(root, u, target, paths, chain);
        DenotedIsFollowed(root, u, path, i + 1, r.path, r.value, r.paths, r.chain, n);
      } else {
        WalkStep(root, location, path[i]);
        DenotedIsFollowed(root, u, path, i + 1, location + [path[i]], Member(value, path[i]).value, paths, chain, n);
      }
    }
  }

  /** The path denotes a symbol, and following it from `chain` visits no path twice. */
  ghost predicate Reachable(root: Symbol, path: Path, chain: seq<Path>) {
    exists n :: Denotes(root, n, path).Some? && Fresh(chain, [path] + Denotes(root, n, path).value.visited)
  }

  /** `p` denotes the symbol at the import-free path `q`. */
  ghost predicate Stands(root: Symbol, p: Path, q: Path) {
    exists n :: Denotes(root, n, p).Some? && Denotes(root, n, p).value.path == q
  }

  /** Resolution finds a path exactly if the path denotes a symbol and following it visits no path
      twice; what it finds is the path of that symbol. */
  lemma FoundIff(root: Symbol, u: set<Path>, path: Path, paths: map<Path, Path>, chain: seq<Path>)
    requires root.Module? && path in u && Targets([], root) <= u
    ensures Check(root, u, path, paths, chain).Found? <==> Reachable(root, path, chain)
    ensures Check(root, u, path, paths, chain).Found? ==> Stands(root, path, Check(root, u, path, paths, chain).path)
  {
    if Check(root, u, path, paths, chain).Found? { CheckDenotes(root, u, path, paths, chain); }
    if Reachable(root, path, chain) {
      var n :| Denotes(root, n, path).Some? && Fresh(chain, [path] + Denotes(root, n, path).value.visited);
      DenotedIsFound(root, u, path, paths, chain, n);
    }
  }

  /** Two modules that import each other. */
  const LOOPING: Symbol := Module([Def("A", Module([Def("b", Import([Super, Named("B")]))])), Def("B", Module([Def("a", Import([Super, Named("A")]))]))])

  lemma JoinSibling(x: string, n: string)
    requires n != ""
    ensures Join([x], [Super, Named(n)]) == Some([n])
  {
    var parts := [Super, Named(n)];
    assert parts[1..] == [Named(n)] && [Named(n)][1..] == [] && [x][..0] == [] && [] + [n] == [n];
    assert Join([], [Named(n)]) == Join([n], []);
  }

  /** A module of the root whose only member is an import of a sibling. */
  lemma SiblingImport(root: Symbol, x: string, name: string, n: string, defs: seq<Def>)
    requires root.Module? && Find(root.defs, x) == Some(Module(defs)) && defs == [Def(name, Import([Super, Named(n)]))] && n != ""
    ensures Walk(root, [x]) == Some(Module(defs)) && Find(defs, name) == Some(Import([Super, Named(n)])) && Join([x], [Super, Named(n)]) == Some([n])
    ensures forall k :: DenotesFrom(root, k, [x], 0, []) == Some(Trail([x], []))
  {
    assert [x][..0] == [];
    JoinSibling(x, n);
    forall k ensures DenotesFrom(root, k, [x], 0, []) == Some(Trail([x], [])) {
      assert [] + [x] == [x];
      assert DenotesFrom(root, k, [x], 1, [x]) == Some(Trail([x], []));
    }
  }

  lemma LoopingMembers(root: Symbol)
    requires root == LOOPING
    ensures Find(root.defs, "A") == Some(Module([Def("b", Import([Super, Named("B")]))]))
    ensures Find(root.defs, "B") == Some(Module([Def("a", Import([Super, Named("A")]))]))
  {
    assert root.defs[1..][0] == root.defs[1];
  }

  /** One import of a sibling on the way. */
  lemma SiblingStep(root: Symbol, path: Path, i: nat, x: string, n: string, defs: seq<Def>, t: Trail)
    requires root.Module? && i < |path| && Walk(root, [x]) == Some(Module(defs)) && Find(defs, path[i]) == Some(Import([Super, Named(n)]))
    requires Join([x], [Super, Named(n)]) == Some([n]) && DenotesFrom(root, 0, [n], 0, []) == Some(Trail([n], []))
    requires DenotesFrom(root, 1, path, i + 1, [n]) == Some(t)
    ensures DenotesFrom(root, 1, path, i, [x]) == Some(Trail(t.path, [[n]] + t.visited))
  {
    assert [[n]] + [] == [[n]];
  }

  /** A path that uses an import twice is reported as a cycle, although it denotes a symbol. */
  lemma RepeatedImportIsLost(root: Symbol, u: set<Path>, path: Path, paths: map<Path, Path>)
    requires root == LOOPING && path == ["A", "b", "a", "b"] && path in u && Targets([], root) <= u
    ensures Stands(root, path, ["B"]) && !Check(root, u, path, paths, []).Found?
  {
    var inA, inB := [Def("b", Import([Super, Named("B")]))], [Def("a", Import([Super, Named("A")]))];
    LoopingMembers(root);
    SiblingImport(root, "A", "b", "B", inA);
    SiblingImport(root, "B", "a", "A", inB);
    SiblingStep(root, path, 3, "A", "B", inA, Trail(["B"], []));
    SiblingStep(root, path, 2, "B", "A", inB, Trail(["B"], [["B"]] + []));
    SiblingStep(root, path, 1, "A", "B", inA, Trail(["B"], [["A"]] + ([["B"]] + [])));
    var vs := [["B"]] + ([["A"]] + ([["B"]] + []));
    assert [] + ["A"] == ["A"];
    assert Denotes(root, 1, path) == Some(Trail(["B"], vs));
    assert [["B"], ["A"], ["B"]] == vs;
    RepeatedVisit([], path, ["B"], ["A"]);
    forall n | Denotes(root, n, path).Some? ensures !Fresh([], [path] + Denotes(root, n, path).value.visited) { DenotesUnique(root, n, 1, path); }
    FoundIff(root, u, path, paths, []);
  }

  lemma RepeatedVisit(chain: seq<Path>, path: Path, p: Path, q: Path)
    ensures !Fresh(chain, [path] + [p, q, p])
  {
    FreshOne(chain, path, [p, q, p]);
    assert [p, q, p] == [p] + [q, p] && [q, p] == [q] + [p];
    FreshOne(chain + [path], p, [q, p]);
    FreshOne(chain + [path] + [p], q, [p]);
    assert p in chain + [path] + [p] + [q];
  }

  /** Whatever resolution finds does not depend on the paths visited or recorded before. */
  lemma ResolutionUnique(root: Symbol, u: set<Path>, path: Path, paths: map<Path, Path>, chain: seq<Path>,
                         u': set<Path>, paths': map<Path, Path>, chain': seq<Path>)
    requires root.Module? && path in u && Targets([], root) <= u && path in u' && Targets([], root) <= u'
    requires Check(root, u, path, paths, chain).Found? && Check(root, u', path, paths', chain').Found?
    ensures Check(root, u, path, paths, chain).path == Check(root, u', path, paths', chain').path
  {
    CheckDenotes(root, u, path, paths, chain);
    CheckDenotes(root, u', path, paths', chain');
    DenotesUnique(root, |u - AsSet(chain)|, |u' - AsSet(chain')|, path);
  }

  // ----- what is recorded -----

  /** `q` is what `p` denotes, or what the same symbol denotes relative to the prelude. */
  ghost predicate Records(root: Symbol, p: Path, q: Path) {
    Stands(root, p, q) || exists location, symbol :: InPrelude(root, location, symbol, p, q)
  }

  ghost predicate InPrelude(root: Symbol, location: Path, symbol: seq<Part>, p: Path, q: Path) {
    Join(location, symbol) == Some(p) && Join(PRELUDE, symbol).Some? && Stands(root, Join(PRELUDE, symbol).value, q)
  }

  /** Every recorded path is import-free and names the same symbol as its key. */
  ghost predicate Recorded(root: Symbol, paths: map<Path, Path>) {
    forall p :: p in paths ==> Walk(root, paths[p]).Some? && Records(root, p, paths[p])
  }

  ghost predicate KeepsRecords(root: Symbol, r: Outcome) { !r.Panicked? ==> Recorded(root, r.paths) }

  lemma {:induction false} CheckRecords(root: Symbol, u: set<Path>, path: Path, paths: map<Path, Path>, chain: seq<Path>)
    requires root.Module? && path in u && Targets([], root) <= u && Recorded(root, paths)
    ensures KeepsRecords(root, Check(root, u, path, paths, chain))
    decreases |u - AsSet(chain)|, 0, 0
  {
    if path !in chain {
      ChainGrows(u, chain, path);
      FollowRecords(root, u, path, 0, [], root, paths, chain + [path]);
      FoundIff(root, u, path, paths, chain);
    }
  }

  lemma {:induction false} FollowRecords(root: Symbol, u: set<Path>, path: Path, i: nat, location: Path, value: Symbol,
                                         paths: map<Path, Path>, chain: seq<Path>)
    requires root.Module? && Targets([], root) <= u && i <= |path| && Walk(root, location) == Some(value) && Recorded(root, paths)
    ensures KeepsRecords(root, Follow(root, u, path, i, location, value, paths, chain))
    decreases |u - AsSet(chain)|, 1, |path| - i
  {
    if i < |path| {
      if ImportAt(value, path[i]) {
        FollowImport(root, u, path, i, location, value, paths, chain);
        var target := Join(location, Find(value.defs, path[i]).value.path);
        if target.Some? {
          CheckRecords(root, u, target.value, paths, chain);
          var r := Check(root, u, target.value, paths, chain);
          if r.Found? {
            ChainShrinks(u, chain, r.chain);
            FollowRecords(root, u, path, i + 1, r.path, r.value, r.paths, r.chain);
          }
        }
      } else {
        WalkStep(root, location, path[i]);
        var m := Member(value, path[i]);
        if m.Some? { FollowRecords(root, u, path, i + 1, location + [path[i]], m.value, paths, chain); }
      }
    }
  }

  // ----- the checker -----

  const PRELUDE: Path := ["std", "prelude"]

  datatype Status = Resolved | Unresolved | Aborted

  class State {
    const root: Symbol
    var paths: map<Path, Path>

    ghost predicate Valid()
      reads this
    {
      root.Module? && Recorded(root, paths)
    }

    constructor (main: Symbol)
      requires main.Module?
      ensures Valid() && root == main && paths == map[]
    {
      root, paths := main, map[];
    }

    ghost function Universe(path: Path): set<Path> { Targets([], root) + {path} }

    /** Resolves a path with an empty chain and records it. */
    method CheckPath(path: Path) returns (r: Outcome)
      requires Valid()
      modifies this
      ensures r == Check(root, Universe(path), path, old(paths), [])
      ensures Valid() && (r.Found? ==> path in paths && paths[path] == r.path)
      ensures (r.Found? <==> Reachable(root, path, [])) && (r.Found? ==> Stands(root, path, r.path))
      ensures paths == if r.Panicked? then old(paths) else r.paths
    {
      r := Check(root, Universe(path), path, paths, []);
      CheckRecords(root, Universe(path), path, paths, []);
      FoundIff(root, Universe(path), path, paths, []);
      if !r.Panicked? { paths := r.paths; }
    }

    /** Resolves a symbol at a location, or else in the prelude. */
    method CheckPathTryPrelude(location: Path, symbol: seq<Part>) returns (status: Status)
      requires Valid()
      modifies this
      ensures Valid()
      ensures status == Resolved ==> Join(location, symbol).Some? && Join(location, symbol).value in paths
      ensures var path := Join(location, symbol);
              path.Some? && Reachable(root, path.value, []) ==> status == Resolved && Stands(root, path.value, paths[path.value])
      ensures var path, fallback := Join(location, symbol), Join(PRELUDE, symbol);
              status == Resolved && !Reachable(root, path.value, []) ==>
                fallback.Some? && Reachable(root, fallback.value, []) && Stands(root, fallback.value, paths[path.value])
      ensures status == Unresolved ==>
                && Join(location, symbol).Some? && !Reachable(root, Join(location, symbol).value, [])
                && Join(PRELUDE, symbol).Some? && !Reachable(root, Join(PRELUDE, symbol).value, [])
    {
      var path := Join(location, symbol);
      if path.None? { return Aborted; }
      var r := CheckPath(path.value);
      if r.Found? { return Resolved; }
      var fallback := Join(PRELUDE, symbol);
      if r.Panicked? || fallback.None? { return Aborted; }
      var q := CheckPath(fallback.value);
      if !q.Found? { return if q.Panicked? then Aborted else Unresolved; }
      assert InPrelude(root, location, symbol, path.value, q.path);
      paths := paths[path.value := q.path];
      status := Resolved;
    }
  }
}
