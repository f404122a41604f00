/** find-all-stacks: tracebacks that follow f_back from the frames no other frame points back to. */
module Stacks {
  import opened Wrappers
  import opened AwaitGraph
  import opened AwaitGraphProperties
  import opened Graphs
  import opened Sets

  /** f_back of every collected frame. */
  type BackMap = map<Addr, Addr>

  predicate Links(back: BackMap, a: Addr, b: Addr) { a in back && back[a] == b && b != NULL }

  /** The frames a traceback prints: the f_back chain up to null, or up to and including the first uncollected frame. */
  predicate IsChain(back: BackMap, root: Addr, s: seq<Addr>) {
    && s != [] && s[0] == root && root != NULL
    && (forall i | 0 <= i < |s| - 1 :: Links(back, s[i], s[i + 1]))
    && (s[|s| - 1] in back ==> back[s[|s| - 1]] == NULL)
  }

  ghost predicate Ends(back: BackMap, root: Addr) { exists s :: IsChain(back, root, s) }

  /** One traceback; it is only for chains that end, because on a cyclic chain the source loops for ever. */
  method Traceback(back: BackMap, root: Addr) returns (printed: seq<Addr>, missing: Option<Addr>)
    requires Ends(back, root)
    ensures IsChain(back, root, printed)
    ensures missing == if printed[|printed| - 1] in back then None else Some(printed[|printed| - 1])
  {
    ghost var chain :| IsChain(back, root, chain);
    var addr := root;
    printed, missing := [], None;
    while addr != NULL
      invariant |printed| <= |chain| && printed == chain[..|printed|]
      invariant addr == if |printed| < |chain| then chain[|printed|] else NULL
      invariant |printed| < |chain| ==> missing == None
      invariant |printed| == |chain| ==>
        missing == if chain[|chain| - 1] in back then None else Some(chain[|chain| - 1])
      decreases |chain| - |printed|
    {
      printed := printed + [addr];
      if addr in back {
        addr := back[addr];
      } else {
        missing := Some(addr);
        addr := NULL;
      }
    }
  }

  /** The f_back map as a graph, so that roots, reachability and cycles are those of the await graph. */
  function ToGraph(back: BackMap): Graph { map k | k in back :: [back[k]] }

  lemma ToGraphFacts(back: BackMap)
    requires NULL !in back
    ensures WellFormed(ToGraph(back)) && ToGraph(back).Keys == back.Keys
    ensures forall a, b :: Edge(ToGraph(back), a, b) <==> Links(back, a, b)
  {
  }

  /** Insert every collected frame, erase every f_back. */
  method FrameRoots(back: BackMap) returns (roots: set<Addr>)
    ensures forall a :: a in roots <==> a in back && forall k <- back :: back[k] != a
    ensures roots == Roots(ToGraph(back))
  {
    roots := back.Keys;
    var left := back.Keys;
    while left != {}
      invariant left <= back.Keys
      invariant forall a :: a in roots <==> a in back && forall k <- back.Keys - left :: back[k] != a
      decreases |left|
    {
      var k :| k in left;
      roots := roots - {back[k]};
      assert back.Keys - (left - {k}) == (back.Keys - left) + {k};
      left := left - {k};
    }
    RootsOfFrames(back, roots);
  }

  lemma RootsOfFrames(back: BackMap, roots: set<Addr>)
    requires forall a :: a in roots <==> a in back && forall k <- back.Keys :: back[k] != a
    ensures roots == Roots(ToGraph(back))
  {
    var g := ToGraph(back);
    assert g.Keys == back.Keys;
    forall a | a in back ensures a in roots <==> a in Roots(g) {
      assert forall k <- g.Keys :: a in g[k] <==> back[k] == a;
    }
  }

  /** No frame lies on an f_back cycle. */
  ghost predicate Acyclic(back: BackMap) { forall c :: !OnCycle(ToGraph(back), c) }

  ghost predicate NoCycleFrom(back: BackMap, root: Addr) {
    forall c :: Reaches(ToGraph(back), root, c) ==> !OnCycle(ToGraph(back), c)
  }

  /** Extending a path of distinct frames either ends or closes a cycle, because frames are finite. */
  lemma {:induction false} ExtendChain(back: BackMap, p: seq<Addr>) returns (s: seq<Addr>)
    requires NULL !in back && IsPath(ToGraph(back), p) && p[0] != NULL && NoCycleFrom(back, p[0])
    requires Distinct(p) && Members(p[..|p| - 1]) <= back.Keys
    ensures IsChain(back, p[0], s)
    decreases |back.Keys| + 1 - |p|
  {
    hide OnCycle, Distinct, Reaches;
    var g, last := ToGraph(back), p[|p| - 1];
    ToGraphFacts(back);
    if last !in back || back[last] == NULL {
      s := p;
      PathIsChain(back, p);
    } else {
      var next := back[last];
      var q := p + [next];
      assert IsPath(g, q);
      if next in p {
        ClosedPath(g, p, next);
        PathReaches(g, q);
      }
      AppendDistinct(p, next);
      assert q[..|q| - 1] == p && p == p[..|p| - 1] + [last];
      SubsetSize(Members(p), back.Keys);
      DistinctSize(p);
      s := ExtendChain(back, q);
    }
  }

  lemma PathIsChain(back: BackMap, p: seq<Addr>)
    requires NULL !in back && IsPath(ToGraph(back), p) && p[0] != NULL
    requires p[|p| - 1] in back ==> back[p[|p| - 1]] == NULL
    ensures IsChain(back, p[0], p)
  {
    ToGraphFacts(back);
    forall i | 0 <= i < |p| - 1 ensures Links(back, p[i], p[i + 1]) {
      assert Edge(ToGraph(back), p[i], p[i + 1]);
    }
  }

  lemma ClosedPath(g: Graph, p: seq<Addr>, next: Addr)
    requires IsPath(g, p + [next]) && next in p
    ensures OnCycle(g, next)
  {
    var i :| 0 <= i < |p| && p[i] == next;
    var q := (p + [next])[i..];
    assert IsPath(g, q) by {
      forall k | 0 <= k < |q| - 1 ensures Edge(g, q[k], q[k + 1]) {
        assert Edge(g, (p + [next])[i + k], (p + [next])[i + k + 1]);
      }
    }
  }

  lemma AppendDistinct(p: seq<Addr>, a: Addr)
    requires Distinct(p) && a !in p
    ensures Distinct(p + [a]) && Members(p + [a]) == Members(p) + {a}
  {
  }

  /** The chain contains every frame reachable from the root. */
  lemma {:induction false} ChainContainsPath(back: BackMap, s: seq<Addr>, p: seq<Addr>)
    requires NULL !in back && IsPath(ToGraph(back), p) && IsChain(back, p[0], s)
    ensures |p| <= |s| && p == s[..|p|]
  {
    ToGraphFacts(back);
    if |p| > 1 {
      var q := p[..|p| - 1];
      assert Edge(ToGraph(back), p[|p| - 2], p[|p| - 2 + 1]);
      ChainContainsPath(back, s, q);
      assert q[|q| - 1] == s[|q| - 1];
    }
  }

  lemma BackOnCycle(back: BackMap, c: Addr)
    requires NULL !in back && OnCycle(ToGraph(back), c)
    ensures c in back && back[c] != NULL && OnCycle(ToGraph(back), back[c])
  {
    hide OnCycle;
    ToGraphFacts(back);
    var b := NextOnCycle(ToGraph(back), c);
    assert Links(back, c, b);
  }

  /** A chain that ends passes through no cycle. */
  lemma {:induction false} ChainAvoidsCycles(back: BackMap, root: Addr, s: seq<Addr>, i: nat)
    requires NULL !in back && IsChain(back, root, s) && i < |s|
    ensures !OnCycle(ToGraph(back), s[i])
    decreases |s| - i
  {
    hide OnCycle;
    if OnCycle(ToGraph(back), s[i]) {
      BackOnCycle(back, s[i]);
      if i + 1 < |s| { ChainAvoidsCycles(back, root, s, i + 1); }
    }
  }

  ghost predicate ShownUnder(back: BackMap, root: Addr, frame: Addr) {
    exists s :: IsChain(back, root, s) && frame in s
  }

  /** A traceback ends if and only if its root cannot reach an f_back cycle. */
  lemma EndsIffNoCycle(back: BackMap, root: Addr)
    requires NULL !in back && root != NULL
    ensures Ends(back, root) <==> NoCycleFrom(back, root)
  {
    hide OnCycle, IsChain;
    var g := ToGraph(back);
    if NoCycleFrom(back, root) {
      var s := ExtendChain(back, [root]);
    }
    if s :| IsChain(back, root, s) {
      forall c | Reaches(g, root, c) ensures !OnCycle(g, c) {
        var p :| IsPath(g, p) && p[0] == root && p[|p| - 1] == c;
        ChainContainsPath(back, s, p);
        ChainAvoidsCycles(back, root, s, |p| - 1);
      }
    }
  }

  lemma AcyclicShowsFrame(back: BackMap, frame: Addr)
    requires NULL !in back && Acyclic(back) && frame in back
    ensures exists r :: r in Roots(ToGraph(back)) && ShownUnder(back, r, frame)
  {
    hide Walk, Roots, OnCycle;
    var g := ToGraph(back);
    ToGraphFacts(back);
    AcyclicShowsEverything(g, frame);
    var r :| r in Roots(g) && frame in Walk(g, r).seen;
    RootIsKey(g, r);
    WalkSeesReachable(g, r, frame);
    var p :| IsPath(g, p) && p[0] == r && p[|p| - 1] == frame;
    var s := ExtendChain(back, [r]);
    ChainContainsPath(back, s, p);
    assert ShownUnder(back, r, frame);
  }

  /**
   * Every traceback loop terminates and every collected frame appears in a traceback, if and only if no frames form an
   * f_back cycle.
   */
  lemma TracebacksCompleteIffAcyclic(back: BackMap)
    requires NULL !in back
    ensures (forall r <- Roots(ToGraph(back)) :: Ends(back, r))
      && (forall f <- back :: exists r :: r in Roots(ToGraph(back)) && ShownUnder(back, r, f))
      <==> Acyclic(back)
  {
    hide Roots, OnCycle, IsChain, Ends, Reaches;
    if Acyclic(back) {
      forall r | r in Roots(ToGraph(back)) ensures Ends(back, r) {
        ToGraphFacts(back);
        RootIsKey(ToGraph(back), r);
        EndsIffNoCycle(back, r);
      }
      forall f | f in back ensures exists r :: r in Roots(ToGraph(back)) && ShownUnder(back, r, f) {
        AcyclicShowsFrame(back, f);
      }
    } else if forall f <- back :: exists r :: r in Roots(ToGraph(back)) && ShownUnder(back, r, f) {
      var c :| OnCycle(ToGraph(back), c);
      BackOnCycle(back, c);
      var r :| r in Roots(ToGraph(back)) && ShownUnder(back, r, c);
      var s :| IsChain(back, r, s) && c in s;
      var i :| 0 <= i < |s| && s[i] == c;
      ChainAvoidsCycles(back, r, s, i);
      assert false;
    }
  }
}
