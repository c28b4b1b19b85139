/** Which modules an entry module pulls in, over an import graph that may have cycles. */
module Reachable {
  import opened PyText

  /** The imported names of each production module. */
  type Graph = map<string, seq<string>>

  /** An import of `imported` brings in the module of that name and everything in the package of that name. */
  predicate Brings(imported: string, m: string)
  {
    m == imported || StartsWith(m, imported + ".")
  }

  predicate Edge(modules: seq<string>, graph: Graph, a: string, b: string)
  {
    a in graph && b in modules && exists imported :: imported in graph[a] && Brings(imported, b)
  }

  predicate IsPath(modules: seq<string>, graph: Graph, path: seq<string>)
  {
    path != [] && forall i | 0 <= i < |path| - 1 :: Edge(modules, graph, path[i], path[i + 1])
  }

  ghost predicate Reaches(modules: seq<string>, graph: Graph, a: string, b: string)
  {
    exists path :: IsPath(modules, graph, path) && path[0] == a && path[|path| - 1] == b
  }

  ghost predicate Closed(modules: seq<string>, graph: Graph, s: set<string>)
  {
    forall a, b | a in s && Edge(modules, graph, a, b) :: b in s
  }

  lemma ReachesSelf(modules: seq<string>, graph: Graph, a: string)
    ensures Reaches(modules, graph, a, a)
  {
    assert IsPath(modules, graph, [a]);
  }

  lemma ReachesNext(modules: seq<string>, graph: Graph, a: string, b: string, c: string)
    requires Reaches(modules, graph, a, b) && Edge(modules, graph, b, c)
    ensures Reaches(modules, graph, a, c)
  {
    var path :| IsPath(modules, graph, path) && path[0] == a && path[|path| - 1] == b;
    assert IsPath(modules, graph, path + [c]);
  }

  /** A set that imports do not leave holds the end of every path that starts in it. */
  lemma {:induction false} PathStaysIn(modules: seq<string>, graph: Graph, s: set<string>, path: seq<string>)
    requires Closed(modules, graph, s) && IsPath(modules, graph, path) && path[0] in s
    ensures path[|path| - 1] in s
    decreases |path|
  {
    if |path| > 1 {
      assert Edge(modules, graph, path[0], path[1]);
      PathStaysIn(modules, graph, s, path[1..]);
    }
  }

  /** `[module for module in modules if ...]` */
  function Candidates(modules: seq<string>, imported: string): (r: seq<string>)
    ensures forall m :: m in r <==> m in modules && Brings(imported, m)
  {
    if modules == [] then []
    else (if Brings(imported, modules[0]) then [modules[0]] else []) + Candidates(modules[1..], imported)
  }

  ghost predicate Frontier(modules: seq<string>, graph: Graph, entry: string, seen: set<string>, pending: seq<string>)
  {
    && (entry in seen || entry in pending)
    && (forall m | m in seen || m in pending :: Reaches(modules, graph, entry, m) && (m == entry || m in modules))
    && (forall a, b | a in seen && Edge(modules, graph, a, b) :: b in seen || b in pending)
  }

  lemma FrontierDone(modules: seq<string>, graph: Graph, entry: string, seen: set<string>)
    requires Frontier(modules, graph, entry, seen, [])
    ensures forall m :: m in seen <==> Reaches(modules, graph, entry, m)
  {
    forall m | Reaches(modules, graph, entry, m) ensures m in seen {
      var path :| IsPath(modules, graph, path) && path[0] == entry && path[|path| - 1] == m;
      PathStaysIn(modules, graph, seen, path);
    }
  }

  lemma FewerUnseen(modules: seq<string>, entry: string, seen: set<string>, name: string)
    requires (name == entry || name in modules) && name !in seen
    ensures |Universe(modules, entry) - (seen + {name})| < |Universe(modules, entry) - seen|
  {
    assert Universe(modules, entry) - (seen + {name}) == (Universe(modules, entry) - seen) - {name};
  }

  function Universe(modules: seq<string>, entry: string): set<string>
  {
    {entry} + set m | m in modules
  }

  /** What the inner loop pushes for one module: exactly the ends of its edges. */
  method PushImports(modules: seq<string>, graph: Graph, name: string, pending: seq<string>) returns (r: seq<string>)
    ensures forall m :: m in r <==> m in pending || Edge(modules, graph, name, m)
  {
    r := pending;
    var imports := if name in graph then graph[name] else [];
    for i := 0 to |imports|
      invariant forall m :: m in r <==> m in pending || exists j :: 0 <= j < i && m in modules && Brings(imports[j], m)
    {
      r := r + Candidates(modules, imports[i]);
    }
    forall m ensures m in r <==> m in pending || Edge(modules, graph, name, m) {
      if Edge(modules, graph, name, m) {
        var imported :| imported in graph[name] && Brings(imported, m);
        var j :| 0 <= j < |imports| && imports[j] == imported;
      }
    }
  }

  /** One round: a module not seen before is taken from the stack and the ends of its edges are pushed. */
  lemma FrontierStep(modules: seq<string>, graph: Graph, entry: string, seen: set<string>, pending: seq<string>,
      name: string, next: seq<string>)
    requires Frontier(modules, graph, entry, seen, pending + [name])
    requires forall m :: m in next <==> m in pending || Edge(modules, graph, name, m)
    ensures Frontier(modules, graph, entry, seen + {name}, next)
  {
    assert name in pending + [name];
    forall m | Edge(modules, graph, name, m) ensures Reaches(modules, graph, entry, m) {
      ReachesNext(modules, graph, entry, name, m);
    }
  }

  lemma FrontierSeen(modules: seq<string>, graph: Graph, entry: string, seen: set<string>, pending: seq<string>,
      name: string)
    requires Frontier(modules, graph, entry, seen, pending + [name]) && name in seen
    ensures Frontier(modules, graph, entry, seen, pending)
  {
    assert forall m | m in pending :: m in pending + [name];
  }

  method ReachableModules(modules: seq<string>, graph: Graph, entry: string) returns (seen: set<string>)
    ensures forall m :: m in seen <==> Reaches(modules, graph, entry, m)
  {
    seen := {};
    var pending := [entry];
    ReachesSelf(modules, graph, entry);
    while pending != []
      invariant Frontier(modules, graph, entry, seen, pending)
      decreases |Universe(modules, entry) - seen|, |pending|
    {
      ghost var before := pending;
      var name := pending[|pending| - 1];
      pending := pending[..|pending| - 1];
      assert before == pending + [name];
      if name in seen {
        FrontierSeen(modules, graph, entry, seen, pending, name);
        continue;
      }
      FewerUnseen(modules, entry, seen, name);
      var next := PushImports(modules, graph, name, pending);
      FrontierStep(modules, graph, entry, seen, pending, name, next);
      seen := seen + {name};
      pending := next;
    }
    FrontierDone(modules, graph, entry, seen);
  }

  /** The reachable modules are the least set that holds the entry and that no import leaves. */
  lemma ReachableIsLeast(modules: seq<string>, graph: Graph, entry: string, s: set<string>)
    requires forall m :: m in s <==> Reaches(modules, graph, entry, m)
    ensures entry in s && Closed(modules, graph, s)
    ensures forall t: set<string> | entry in t && Closed(modules, graph, t) :: s <= t
  {
    ReachesSelf(modules, graph, entry);
    forall a, b | a in s && Edge(modules, graph, a, b) ensures b in s {
      ReachesNext(modules, graph, entry, a, b);
    }
    forall t: set<string>, m | entry in t && Closed(modules, graph, t) && m in s ensures m in t {
      var path :| IsPath(modules, graph, path) && path[0] == entry && path[|path| - 1] == m;
      PathStaysIn(modules, graph, t, path);
    }
  }
}
