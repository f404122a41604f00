/** Finite graphs over addresses: paths, reachability and cycles. */
module Graphs {
  type Addr = nat

  const NULL: Addr := 0

  /** The successors of each node; an edge to null is none. */
  type Graph = map<Addr, seq<Addr>>

  predicate Edge(g: Graph, a: Addr, b: Addr) { a in g && b in g[a] && b != NULL }

  predicate IsPath(g: Graph, p: seq<Addr>) {
    p != [] && forall i | 0 <= i < |p| - 1 :: Edge(g, p[i], p[i + 1])
  }

  ghost predicate Reaches(g: Graph, a: Addr, b: Addr) {
    exists p :: IsPath(g, p) && p[0] == a && p[|p| - 1] == b
  }

  ghost predicate OnCycle(g: Graph, c: Addr) {
    exists p :: IsPath(g, p) && |p| >= 2 && p[0] == c && p[|p| - 1] == c
  }

  lemma ReachesSelf(g: Graph, a: Addr)
    ensures Reaches(g, a, a)
  {
    assert IsPath(g, [a]);
  }

  lemma ReachesStep(g: Graph, a: Addr, b: Addr, c: Addr)
    requires Reaches(g, a, b) && Edge(g, b, c)
    ensures Reaches(g, a, c)
  {
    var p :| IsPath(g, p) && p[0] == a && p[|p| - 1] == b;
    assert IsPath(g, p + [c]);
  }

  lemma StepReaches(g: Graph, a: Addr, b: Addr, c: Addr)
    requires Edge(g, a, b) && Reaches(g, b, c)
    ensures Reaches(g, a, c)
  {
    var p :| IsPath(g, p) && p[0] == b && p[|p| - 1] == c;
    assert IsPath(g, [a] + p);
  }

  lemma ReachesTransitive(g: Graph, a: Addr, b: Addr, c: Addr)
    requires Reaches(g, a, b) && Reaches(g, b, c)
    ensures Reaches(g, a, c)
  {
    var p :| IsPath(g, p) && p[0] == a && p[|p| - 1] == b;
    var q :| IsPath(g, q) && q[0] == b && q[|q| - 1] == c;
    var r := p + q[1..];
    assert r[|r| - 1] == c;
    forall i | 0 <= i < |r| - 1 ensures Edge(g, r[i], r[i + 1]) {
      if i < |p| - 1 {
        assert Edge(g, p[i], p[i + 1]);
      } else {
        assert Edge(g, q[i - (|p| - 1)], q[i - (|p| - 1) + 1]);
      }
    }
  }

  lemma PathReaches(g: Graph, p: seq<Addr>)
    requires IsPath(g, p)
    ensures Reaches(g, p[0], p[|p| - 1])
  {
  }

  lemma CycleNodeIsKey(g: Graph, c: Addr)
    requires OnCycle(g, c)
    ensures c in g
  {
    var p :| IsPath(g, p) && |p| >= 2 && p[0] == c && p[|p| - 1] == c;
    assert Edge(g, p[0], p[1]);
  }

  /** The successor of a node on a cycle is on the cycle. */
  lemma NextOnCycle(g: Graph, a: Addr) returns (b: Addr)
    requires OnCycle(g, a)
    ensures Edge(g, a, b) && OnCycle(g, b)
  {
    var p :| IsPath(g, p) && |p| >= 2 && p[0] == a && p[|p| - 1] == a;
    b := p[1];
    assert Edge(g, p[0], p[1]);
    var q := p[1..] + [b];
    forall i | 0 <= i < |q| - 1 ensures Edge(g, q[i], q[i + 1]) {
      if i + 2 < |p| { assert Edge(g, p[i + 1], p[i + 2]); }
    }
    assert q[0] == b && q[|q| - 1] == b && |q| >= 2;
  }
}
