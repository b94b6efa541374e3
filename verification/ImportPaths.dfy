/** Joining paths and their inverse, relative paths. */
module ImportPaths {
  import opened Options
  import opened Imports

  /** A path of names only. */
  function Names(path: Path): seq<Part> { seq(|path|, i requires 0 <= i < |path| => Named(path[i])) }

  function Supers(n: nat): seq<Part> { seq(n, i => Super) }

  predicate NoEmptyName(path: Path) { "" !in path }

  /** Joining in two steps. */
  lemma {:induction false} JoinConcat(base: Path, a: seq<Part>, b: seq<Part>)
    ensures Join(base, a + b) == if Join(base, a).Some? then Join(Join(base, a).value, b) else None
    decreases |a|
  {
    if a == [] {
      assert a + b == b;
    } else {
      assert (a + b)[0] == a[0] && (a + b)[1..] == a[1..] + b;
      match a[0]
      case Super => if base != [] { JoinConcat(base[..|base| - 1], a[1..], b); }
      case Named(n) => JoinConcat(if n == "" then [] else base + [n], a[1..], b);
    }
  }

  /** `super` undoes a name and fails at the root. */
  lemma {:induction false} JoinSupers(base: Path, tail: Path)
    ensures Join(base + tail, Supers(|tail|)) == Some(base)
    ensures Join(base, Supers(|base| + 1)) == None
    decreases |base| + |tail|
  {
    if tail != [] {
      var n := |tail| - 1;
      assert Supers(n + 1)[1..] == Supers(n);
      assert (base + tail)[..|base + tail| - 1] == base + tail[..n];
      JoinSupers(base, tail[..n]);
    } else {
      assert base + tail == base;
      if base != [] {
        assert Supers(|base| + 1)[1..] == Supers(|base|);
        JoinSupers(base[..|base| - 1], []);
      }
    }
  }

  /** Names are appended; an empty name starts again at the root, so that only what follows the last one
      counts. */
  lemma {:induction false} JoinNames(base: Path, path: Path)
    ensures NoEmptyName(path) ==> Join(base, Names(path)) == Some(base + path)
    ensures Join(base, [Named("")] + Names(path)) == Join([], Names(path))
    decreases |path|
  {
    assert ([Named("")] + Names(path))[1..] == Names(path);
    if path == [] {
      assert Join(base, Names(path)) == Some(base) && base + path == base;
    } else {
      assert Names(path)[0] == Named(path[0]) && Names(path)[1..] == Names(path[1..]);
      if NoEmptyName(path) {
        JoinNames(base + [path[0]], path[1..]);
        assert base + [path[0]] + path[1..] == base + path;
      }
    }
  }

  // ----- relative paths -----

  /** The length of the common prefix. */
  function CommonLength(a: Path, b: Path): (n: nat)
    ensures n <= |a| && n <= |b| && a[..n] == b[..n]
    ensures n < |a| && n < |b| ==> a[n] != b[n]
  {
    if a == [] || b == [] || a[0] != b[0] then 0
    else
      var n := CommonLength(a[1..], b[1..]);
      assert a[..n + 1] == [a[0]] + a[1..][..n] && b[..n + 1] == [b[0]] + b[1..][..n];
      n + 1
  }

  /** The path from `base` to `path`: up to the common prefix and down again. */
  function RelativeTo(path: Path, base: Path): seq<Part> {
    var n := CommonLength(path, base);
    Supers(|base| - n) + Names(path[n..])
  }

  /** The relative path leads from the base to the path, if no name below the common prefix is empty. */
  lemma RelativeRoundTrip(path: Path, base: Path)
    requires NoEmptyName(path[CommonLength(path, base)..])
    ensures Join(base, RelativeTo(path, base)) == Some(path)
  {
    var n := CommonLength(path, base);
    assert base == base[..n] + base[n..] && path == path[..n] + path[n..];
    JoinSupers(base[..n], base[n..]);
    JoinConcat(base, Supers(|base| - n), Names(path[n..]));
    JoinNames(base[..n], path[n..]);
  }

  /** Otherwise it leads elsewhere. */
  lemma {:induction false} EmptyNameLoses(base: Path, path: Path)
    requires !NoEmptyName(path)
    ensures Join(base, Names(path)).Some? && |Join(base, Names(path)).value| < |base| + |path|
    decreases |path|
  {
    assert Names(path)[0] == Named(path[0]) && Names(path)[1..] == Names(path[1..]);
    var next := if path[0] == "" then [] else base + [path[0]];
    if NoEmptyName(path[1..]) {
      assert path[0] == "";
      JoinNames(next, path[1..]);
    } else {
      EmptyNameLoses(next, path[1..]);
    }
  }

  /** The law that the source promises of relative paths, and exactly when it holds: always for paths that are
      built from non-empty names. */
  lemma RelativeIff(path: Path, base: Path)
    ensures Join(base, RelativeTo(path, base)) == Some(path) <==> NoEmptyName(path[CommonLength(path, base)..])
  {
    var n := CommonLength(path, base);
    if NoEmptyName(path[n..]) {
      RelativeRoundTrip(path, base);
    } else {
      assert base == base[..n] + base[n..];
      JoinSupers(base[..n], base[n..]);
      JoinConcat(base, Supers(|base| - n), Names(path[n..]));
      EmptyNameLoses(base[..n], path[n..]);
    }
  }

  // ----- walking -----

  /** Walking a path is walking its first part and then the rest from there. */
  lemma {:induction false} WalkConcat(root: Symbol, a: Path, b: Path)
    ensures Walk(root, a + b) == if Walk(root, a).Some? then Walk(Walk(root, a).value, b) else None
    decreases |b|
  {
    if b == [] {
      assert a + b == a;
    } else {
      var n := |b| - 1;
      assert (a + b)[..|a + b| - 1] == a + b[..n] && (a + b)[|a + b| - 1] == b[n];
      WalkConcat(root, a, b[..n]);
    }
  }

  /** `v` is what the name is defined as first in the module. */
  ghost predicate FirstDef(defs: seq<Def>, name: string, v: Symbol) {
    exists i :: 0 <= i < |defs| && defs[i] == Def(name, v) && forall j :: 0 <= j < i ==> defs[j].name != name
  }

  lemma {:induction false} FindIff(defs: seq<Def>, name: string, v: Symbol)
    ensures Find(defs, name) == Some(v) <==> FirstDef(defs, name, v)
  {
    if defs != [] {
      var rest := defs[1..];
      FindIff(rest, name, v);
      if Find(defs, name) == Some(v) && defs[0].name != name {
        var i :| 0 <= i < |rest| && rest[i] == Def(name, v) && forall j :: 0 <= j < i ==> rest[j].name != name;
        assert defs[i + 1] == Def(name, v) && forall j :: 0 <= j < i + 1 ==> j == 0 || defs[j] == rest[j - 1];
      }
      if FirstDef(defs, name, v) && defs[0].name != name {
        var i :| 0 <= i < |defs| && defs[i] == Def(name, v) && forall j :: 0 <= j < i ==> defs[j].name != name;
        assert rest[i - 1] == Def(name, v) && forall j :: 0 <= j < i - 1 ==> rest[j] == defs[j + 1];
      }
      if defs[0].name == name { assert Find(defs, name) == Some(v) <==> defs[0] == Def(name, v); }
    }
  }

  /** Members are the definitions of a module that are no imports, the variants of an enum and the functions of a
      trait; a struct stands for anything below it. */
  lemma MemberIff(v: Symbol, name: string, w: Symbol)
    ensures v.Module? ==> (Member(v, name) == Some(w) <==> FirstDef(v.defs, name, w) && !w.Import?)
    ensures v.EnumDecl? ==> (Member(v, name) == Some(w) <==> name in v.variants && w == Leaf)
    ensures v.TraitDecl? ==> (Member(v, name) == Some(w) <==> name in v.functions && w == Leaf)
    ensures v.StructDecl? ==> Member(v, name) == Some(v)
    ensures v.Import? || v.Leaf? ==> Member(v, name) == None
  {
    if v.Module? { FindIff(v.defs, name, w); }
  }
}
