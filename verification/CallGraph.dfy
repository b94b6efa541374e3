/** Ordering of symbols so that called symbols come before their callers. */
module CallGraph {
  import opened Options
  import opened Collections

  /** The symbols that each symbol refers to. */
  type Graph = map<string, set<string>>

  function Called(g: Graph, name: string): set<string> { if name in g then g[name] else {} }

  ghost predicate IsPath(g: Graph, path: seq<string>) {
    path != [] && forall i :: 0 <= i < |path| - 1 ==> path[i + 1] in Called(g, path[i])
  }

  /** `b` can be reached from `a` in any number of calls. */
  ghost predicate Reaches(g: Graph, a: string, b: string) {
    exists path :: IsPath(g, path) && path[0] == a && path[|path| - 1] == b
  }

  lemma ReachesItself(g: Graph, a: string)
    ensures Reaches(g, a, a)
  {
    assert IsPath(g, [a]);
  }

  lemma ReachesCalled(g: Graph, a: string, b: string, c: string)
    requires Reaches(g, a, b) && c in Called(g, b)
    ensures Reaches(g, a, c)
  {
    var path :| IsPath(g, path) && path[0] == a && path[|path| - 1] == b;
    assert IsPath(g, path + [c]);
  }

  /** Every called symbol comes before its caller, unless it can reach the caller. */
  ghost predicate Ordered(g: Graph, s: seq<string>) {
    forall j, c :: 0 <= j < |s| && c in Called(g, s[j]) ==> c in s[..j] || Reaches(g, c, s[j])
  }

  /** All symbols of the graph and all symbols they call. */
  function Universe(g: Graph): (u: set<string>)
    ensures g.Keys <= u && forall n, c :: n in g && c in g[n] ==> c in u
  {
    g.Keys + set n, c | n in g && c in g[n] :: c
  }

  predicate Closed(g: Graph) { forall n, c :: n in g && c in g[n] ==> c in g }

  lemma {:induction false} DistinctSize(s: seq<string>)
    requires Distinct(s)
    ensures |(set x | x in s)| == |s|
  {
    if s != [] {
      var n := |s| - 1;
      DistinctSize(s[..n]);
      assert (set x | x in s) == (set x | x in s[..n]) + {s[n]};
    }
  }

  class Sorter {
    const graph: Graph
    var visited: set<string>
    var result: seq<string>

    constructor (g: Graph)
      ensures graph == g && visited == {} && result == []
    {
      graph, visited, result := g, {}, [];
    }

    /** The symbols in `open` have been entered but not finished; the others visited are in the result. */
    ghost predicate Consistent(open: set<string>)
      reads this
    {
      && visited == open + (set x | x in result) && open !! (set x | x in result)
      && visited <= Universe(graph) && Distinct(result) && Ordered(graph, result)
      && (forall x :: x in result ==> Called(graph, x) <= visited)
    }

    /** Visits a symbol that all open symbols can reach. */
    method Visit(name: string, ghost open: set<string>)
      requires Consistent(open) && name in Universe(graph) && forall x :: x in open ==> Reaches(graph, x, name)
      modifies this
      ensures Consistent(open) && name in visited && old(visited) <= visited && old(result) <= result
      decreases |Universe(graph) - visited|
    {
      if name in visited { return; }
      ghost var before := visited;
      visited := visited + {name};
      ghost var open' := open + {name};
      ReachesItself(graph, name);
      Shrinks(Universe(graph), before, name);
      var rest := Called(graph, name);
      while rest != {}
        invariant Consistent(open') && before + {name} <= visited && old(result) <= result
        invariant rest <= Called(graph, name) && Called(graph, name) - rest <= visited
        decreases rest
      {
        var c :| c in rest;
        forall x | x in open' ensures Reaches(graph, x, c) { ReachesCalled(graph, x, name, c); }
        Shrinks2(Universe(graph), before, name, visited);
        Visit(c, open');
        rest := rest - {c};
      }
      Finish(name, open);
    }

    /** Adds a symbol all of whose called symbols have been visited to the result. */
    method Finish(name: string, ghost open: set<string>)
      requires Consistent(open + {name}) && name !in open && Called(graph, name) <= visited
      requires forall x :: x in open + {name} ==> Reaches(graph, x, name)
      modifies this`result
      ensures Consistent(open) && result == old(result) + [name]
    {
      result := result + [name];
      assert (set x | x in result) == (set x | x in old(result)) + {name};
      forall j, c | 0 <= j < |result| && c in Called(graph, result[j]) ensures c in result[..j] || Reaches(graph, c, result[j]) {
        assert result[..j] == if j < |old(result)| then old(result)[..j] else old(result);
      }
    }
  }

  lemma Shrinks(u: set<string>, visited: set<string>, name: string)
    requires name in u && name !in visited
    ensures |u - (visited + {name})| < |u - visited|
  {
    assert u - (visited + {name}) == (u - visited) - {name};
  }

  lemma Shrinks2(u: set<string>, before: set<string>, name: string, visited: set<string>)
    requires name in u && name !in before && before + {name} <= visited
    ensures |u - visited| < |u - before|
  {
    Shrinks(u, before, name);
    assert u - (before + {name}) == (u - visited) + ((u - (before + {name})) - (u - visited));
  }

  /** Sorts all symbols of the graph. Fails if a symbol outside the graph is called. */
  method SortCalledFirst(g: Graph) returns (r: Option<seq<string>>)
    ensures r.Some? <==> Closed(g)
    ensures r.Some? ==> Distinct(r.value) && (forall x :: x in r.value <==> x in g) && Ordered(g, r.value)
  {
    var s := new Sorter(g);
    var rest := g.Keys;
    while rest != {}
      invariant s.graph == g && fresh(s) && s.Consistent({}) && rest <= g.Keys && g.Keys - rest <= s.visited
      decreases rest
    {
      var n :| n in rest;
      s.Visit(n, {});
      rest := rest - {n};
    }
    ghost var all := set x | x in s.result;
    assert g.Keys <= all;
    DistinctSize(s.result);
    SubsetOfSameSize(g.Keys, all);
    AllCalled(g, all);
    if |g| == |s.result| { r := Some(s.result); } else { r := None; }
  }

  lemma AllCalled(g: Graph, all: set<string>)
    requires g.Keys <= all <= Universe(g) && forall x :: x in all ==> Called(g, x) <= all
    ensures Closed(g) <==> all == g.Keys
  {
    if Closed(g) { assert Universe(g) == g.Keys; }
    if all == g.Keys {
      forall n, c | n in g && c in g[n] ensures c in g { assert c in Called(g, n); }
    }
  }
}
