/** async-task-graph: the roots of the await graph and the indented walk that prints each of them. */
module AwaitGraph {
  import opened Graphs
  import opened Sets

  predicate WellFormed(g: Graph) {
    NULL !in g && forall k <- g :: Distinct(g[k])
  }

  /** A printed object line; `parent` is the object whose targets are walked, `full` tells a repr from `<!seen>`. */
  datatype Line = Line(parent: Addr, addr: Addr, depth: nat, full: bool)

  datatype Trace = Trace(lines: seq<Line>, seen: set<Addr>)

  /** What print_entry prints, and the set of addresses it has seen afterwards. */
  function Print(g: Graph, parent: Addr, addr: Addr, seen: set<Addr>, depth: nat): (r: Trace)
    ensures seen <= r.seen
    decreases |g.Keys - seen|, 0
  {
    if addr == NULL then Trace([], seen)
    else if addr in seen then Trace([Line(parent, addr, depth, false)], seen)
    else if addr !in g then Trace([Line(parent, addr, depth, true)], seen + {addr})
    else
      SmallerRest(g.Keys, seen, addr);
      var rest := PrintAll(g, addr, g[addr], seen + {addr}, depth + 1);
      Trace([Line(parent, addr, depth, true)] + rest.lines, rest.seen)
  }

  function PrintAll(g: Graph, parent: Addr, targets: seq<Addr>, seen: set<Addr>, depth: nat): (r: Trace)
    ensures seen <= r.seen
    decreases |g.Keys - seen|, |targets|
  {
    if targets == [] then Trace([], seen)
    else
      var first := Print(g, parent, targets[0], seen, depth);
      SubsetSize(g.Keys - first.seen, g.Keys - seen);
      var rest := PrintAll(g, parent, targets[1..], first.seen, depth);
      Trace(first.lines + rest.lines, rest.seen)
  }

  /** The walk from one root. */
  function Walk(g: Graph, root: Addr): Trace { Print(g, NULL, root, {}, 0) }

  lemma PrintCases(g: Graph, parent: Addr, addr: Addr, seen: set<Addr>, depth: nat)
    requires addr != NULL
    ensures var r := Print(g, parent, addr, seen, depth);
      && (addr in seen ==> r == Trace([Line(parent, addr, depth, false)], seen))
      && (addr !in seen && addr !in g ==> r == Trace([Line(parent, addr, depth, true)], seen + {addr}))
      && (addr !in seen && addr in g ==>
            var rest := PrintAll(g, addr, g[addr], seen + {addr}, depth + 1);
            r == Trace([Line(parent, addr, depth, true)] + rest.lines, rest.seen))
  {
  }

  lemma PrintAllFrom(g: Graph, parent: Addr, targets: seq<Addr>, i: nat, seen: set<Addr>, depth: nat)
    requires i < |targets|
    ensures var first := Print(g, parent, targets[i], seen, depth);
      var rest := PrintAll(g, parent, targets[i + 1..], first.seen, depth);
      PrintAll(g, parent, targets[i..], seen, depth) == Trace(first.lines + rest.lines, rest.seen)
  {
    assert targets[i..][1..] == targets[i + 1..];
  }

  lemma PrintAllEmpty(g: Graph, parent: Addr, targets: seq<Addr>, seen: set<Addr>, depth: nat)
    ensures PrintAll(g, parent, targets[|targets|..], seen, depth) == Trace([], seen)
    ensures targets[0..] == targets
  {
  }

  lemma Concatenation<T>(a: seq<T>, b: seq<T>, c: seq<T>)
    ensures a + (b + c) == a + b + c
  {
  }

  class Printer {
    const graph: Graph
    var seen: set<Addr>
    var recursionDepth: nat
    var output: seq<Line>

    constructor (graph: Graph)
      ensures this.graph == graph && seen == {} && recursionDepth == 0 && output == []
    {
      this.graph, seen, recursionDepth, output := graph, {}, 0, [];
    }

    /** print_entry, with the warning for an uncollected target left out of the output. */
    method PrintEntry(addr: Addr, parent: Addr)
      modifies this
      ensures var r := Print(graph, parent, addr, old(seen), old(recursionDepth));
        output == old(output) + r.lines && seen == r.seen
      ensures recursionDepth == old(recursionDepth)
      decreases |graph.Keys - seen|
    {
      if addr == NULL { return; }
      hide Print, PrintAll;
      PrintCases(graph, parent, addr, seen, recursionDepth);
      var addrSeen := addr in seen;
      ghost var start := seen + {addr};
      seen := seen + {addr};
      output := output + [Line(parent, addr, recursionDepth, !addrSeen)];
      if addrSeen {
        assert seen == old(seen);
      } else {
        if addr !in graph { return; }
        SmallerRest(graph.Keys, old(seen), addr);
        ghost var all, afterSelf := PrintAll(graph, addr, graph[addr], seen, recursionDepth + 1), output;
        recursionDepth := recursionDepth + 1;
        var targets := graph[addr];
        PrintAllEmpty(graph, addr, targets, seen, recursionDepth);
        for i := 0 to |targets|
          invariant recursionDepth == old(recursionDepth) + 1 && start <= seen
          invariant var rest := PrintAll(graph, addr, targets[i..], seen, recursionDepth);
            afterSelf + all.lines == output + rest.lines && all.seen == rest.seen
        {
          SubsetSize(graph.Keys - seen, graph.Keys - start);
          PrintAllFrom(graph, addr, targets, i, seen, recursionDepth);
          ghost var first := Print(graph, addr, targets[i], seen, recursionDepth);
          Concatenation(output, first.lines, PrintAll(graph, addr, targets[i + 1..], first.seen, recursionDepth).lines);
          PrintEntry(targets[i], addr);
        }
        PrintAllEmpty(graph, addr, targets, seen, recursionDepth);
        Concatenation(old(output), [Line(parent, addr, old(recursionDepth), true)], all.lines);
        recursionDepth := recursionDepth - 1;
      }
    }
  }

  predicate TargetOfAny(g: Graph, keys: set<Addr>, addr: Addr)
    requires keys <= g.Keys
  {
    exists k <- keys :: addr in g[k]
  }

  lemma TargetOfOneMore(g: Graph, keys: set<Addr>, k: Addr)
    requires keys <= g.Keys && k in g
    ensures forall a :: TargetOfAny(g, keys + {k}, a) <==> TargetOfAny(g, keys, a) || a in g[k]
  {
  }

  lemma TargetsOfAll(g: Graph)
    ensures forall a :: TargetOfAny(g, g.Keys, a) <==> exists k <- g :: a in g[k]
  {
  }

  lemma NoTargetsYet(g: Graph)
    ensures forall a :: !TargetOfAny(g, {}, a)
  {
  }

  predicate IsTarget(g: Graph, addr: Addr) { TargetOfAny(g, g.Keys, addr) }

  /** Collected objects that nothing collected awaits. */
  function Roots(g: Graph): set<Addr> { set k | k in g && !IsTarget(g, k) }

  /** The root computation: insert every key, then erase every target. */
  method ComputeRoots(g: Graph) returns (roots: set<Addr>)
    ensures forall a :: a in roots <==> a in g && forall k <- g :: a !in g[k]
    ensures roots == Roots(g)
  {
    hide TargetOfAny;
    roots := g.Keys;
    var left := g.Keys;
    NoTargetsYet(g);
    assert g.Keys - left == {};
    while left != {}
      invariant left <= g.Keys
      invariant forall a :: a in roots <==> a in g && !TargetOfAny(g, g.Keys - left, a)
      decreases |left|
    {
      var k :| k in left;
      for i := 0 to |g[k]|
        invariant forall a :: a in roots <==> a in g && !TargetOfAny(g, g.Keys - left, a) && a !in g[k][..i]
      {
        roots := roots - {g[k][i]};
        assert g[k][..i + 1] == g[k][..i] + [g[k][i]];
      }
      assert g[k][..|g[k]|] == g[k];
      assert g.Keys - (left - {k}) == (g.Keys - left) + {k};
      TargetOfOneMore(g, g.Keys - left, k);
      left := left - {k};
    }
    assert g.Keys - left == g.Keys;
    TargetsOfAll(g);
  }

  // ---- What a walk sees ----

  /** Only addresses reachable from the entry are added. */
  lemma {:induction false} PrintReaches(g: Graph, parent: Addr, addr: Addr, seen: set<Addr>, depth: nat, b: Addr)
    requires b in Print(g, parent, addr, seen, depth).seen - seen
    ensures b != NULL && addr != NULL && Reaches(g, addr, b)
    decreases |g.Keys - seen|, 0
  {
    hide Reaches;
    ReachesSelf(g, addr);
    if addr !in seen && addr in g && b != addr {
      SmallerRest(g.Keys, seen, addr);
      var t := PrintAllReaches(g, addr, g[addr], seen + {addr}, depth + 1, b);
      StepReaches(g, addr, t, b);
    }
  }

  lemma {:induction false} PrintAllReaches(
    g: Graph, parent: Addr, targets: seq<Addr>, seen: set<Addr>, depth: nat, b: Addr)
    returns (t: Addr)
    requires b in PrintAll(g, parent, targets, seen, depth).seen - seen
    ensures b != NULL && t in targets && t != NULL && Reaches(g, t, b)
    decreases |g.Keys - seen|, |targets|
  {
    hide Reaches;
    var first := Print(g, parent, targets[0], seen, depth).seen;
    SubsetSize(g.Keys - first, g.Keys - seen);
    t := targets[0];
    if b in first {
      PrintReaches(g, parent, targets[0], seen, depth, b);
    } else {
      t := PrintAllReaches(g, parent, targets[1..], first, depth, b);
    }
  }

  lemma PrintCovers(g: Graph, parent: Addr, addr: Addr, seen: set<Addr>, depth: nat)
    requires addr != NULL
    ensures addr in Print(g, parent, addr, seen, depth).seen
  {
    hide Print, PrintAll;
    PrintCases(g, parent, addr, seen, depth);
  }

  lemma {:induction false} PrintAllCovers(
    g: Graph, parent: Addr, targets: seq<Addr>, seen: set<Addr>, depth: nat, t: Addr)
    requires t in targets && t != NULL
    ensures t in PrintAll(g, parent, targets, seen, depth).seen
    decreases |targets|
  {
    hide Print;
    var first := Print(g, parent, targets[0], seen, depth).seen;
    if t == targets[0] {
      PrintCovers(g, parent, t, seen, depth);
    } else {
      PrintAllCovers(g, parent, targets[1..], first, depth, t);
    }
  }

  /** Everything awaited by an address that was added has been seen as well. */
  lemma {:induction false} PrintCloses(
    g: Graph, parent: Addr, addr: Addr, seen: set<Addr>, depth: nat, a: Addr, b: Addr)
    requires a in Print(g, parent, addr, seen, depth).seen - seen && Edge(g, a, b)
    ensures b in Print(g, parent, addr, seen, depth).seen
    decreases |g.Keys - seen|, 0
  {
    if addr !in seen && addr in g {
      SmallerRest(g.Keys, seen, addr);
      if a == addr {
        PrintAllCovers(g, addr, g[addr], seen + {addr}, depth + 1, b);
      } else {
        PrintAllCloses(g, addr, g[addr], seen + {addr}, depth + 1, a, b);
      }
    }
  }

  lemma {:induction false} PrintAllCloses(
    g: Graph, parent: Addr, targets: seq<Addr>, seen: set<Addr>, depth: nat, a: Addr, b: Addr)
    requires a in PrintAll(g, parent, targets, seen, depth).seen - seen && Edge(g, a, b)
    ensures b in PrintAll(g, parent, targets, seen, depth).seen
    decreases |g.Keys - seen|, |targets|
  {
    var first := Print(g, parent, targets[0], seen, depth).seen;
    SubsetSize(g.Keys - first, g.Keys - seen);
    if a in first {
      PrintCloses(g, parent, targets[0], seen, depth, a, b);
    } else {
      PrintAllCloses(g, parent, targets[1..], first, depth, a, b);
    }
  }

  lemma {:induction false} WalkSeesPath(g: Graph, root: Addr, p: seq<Addr>)
    requires root != NULL && IsPath(g, p) && p[0] == root
    ensures p[|p| - 1] in Walk(g, root).seen
  {
    hide Print, PrintAll;
    if |p| == 1 {
      PrintCovers(g, NULL, root, {}, 0);
    } else {
      WalkSeesPath(g, root, p[..|p| - 1]);
      assert Edge(g, p[|p| - 2], p[|p| - 2 + 1]);
      PrintCloses(g, NULL, root, {}, 0, p[|p| - 2], p[|p| - 1]);
    }
  }

  /** A walk sees exactly the objects reachable from its root. */
  lemma WalkSeesReachable(g: Graph, root: Addr, b: Addr)
    requires root != NULL
    ensures b in Walk(g, root).seen <==> b != NULL && Reaches(g, root, b)
  {
    hide Print, PrintAll;
    if b in Walk(g, root).seen {
      PrintReaches(g, NULL, root, {}, 0, b);
    }
    if Reaches(g, root, b) {
      var p :| IsPath(g, p) && p[0] == root && p[|p| - 1] == b;
      WalkSeesPath(g, root, p);
    }
  }
}
