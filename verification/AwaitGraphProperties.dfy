/** What the await-graph output tells: which lines are printed, when `<!seen>` appears, and what no root shows. */
module AwaitGraphProperties {
  import opened AwaitGraph
  import opened Graphs
  import opened Sets

  /** Lines for the await of `b` by `x`. */
  function CountPair(lines: seq<Line>, x: Addr, b: Addr): nat {
    if lines == [] then 0
    else (if lines[0].parent == x && lines[0].addr == b then 1 else 0) + CountPair(lines[1..], x, b)
  }

  /** Full representations of `b`. */
  function CountFull(lines: seq<Line>, b: Addr): nat {
    if lines == [] then 0 else (if lines[0].full && lines[0].addr == b then 1 else 0) + CountFull(lines[1..], b)
  }

  function CountIn(targets: seq<Addr>, b: Addr): nat {
    if targets == [] then 0 else (if targets[0] == b then 1 else 0) + CountIn(targets[1..], b)
  }

  lemma {:induction false} CountsAppend(p: seq<Line>, q: seq<Line>, x: Addr, b: Addr)
    ensures CountPair(p + q, x, b) == CountPair(p, x, b) + CountPair(q, x, b)
    ensures CountFull(p + q, b) == CountFull(p, b) + CountFull(q, b)
  {
    if p == [] {
      assert p + q == q;
    } else {
      assert (p + q)[1..] == p[1..] + q;
      CountsAppend(p[1..], q, x, b);
    }
  }

  lemma {:induction false} CountInDistinct(targets: seq<Addr>, b: Addr)
    requires Distinct(targets)
    ensures CountIn(targets, b) == if b in targets then 1 else 0
  {
    if targets != [] {
      CountInDistinct(targets[1..], b);
      assert targets == [targets[0]] + targets[1..];
    }
  }

  function Bit(p: bool): nat { if p then 1 else 0 }

  /** One line for the entry itself and one for each await of a newly seen object; one full line for each of these. */
  lemma {:induction false} PrintCounts(
    g: Graph, parent: Addr, addr: Addr, seen: set<Addr>, depth: nat, x: Addr, b: Addr)
    requires WellFormed(g)
    ensures var r := Print(g, parent, addr, seen, depth);
      && CountPair(r.lines, x, b) == Bit(x == parent && b == addr != NULL) + Bit(x in r.seen - seen && Edge(g, x, b))
      && CountFull(r.lines, b) == Bit(b in r.seen - seen)
    decreases |g.Keys - seen|, 0
  {
    if addr != NULL && addr !in seen && addr in g {
      SmallerRest(g.Keys, seen, addr);
      PrintAllCounts(g, addr, g[addr], seen + {addr}, depth + 1, x, b);
      CountInDistinct(g[addr], b);
      CountsAppend([Line(parent, addr, depth, true)], PrintAll(g, addr, g[addr], seen + {addr}, depth + 1).lines, x, b);
    }
  }

  lemma {:induction false} PrintAllCounts(
    g: Graph, parent: Addr, targets: seq<Addr>, seen: set<Addr>, depth: nat, x: Addr, b: Addr)
    requires WellFormed(g)
    ensures var r := PrintAll(g, parent, targets, seen, depth);
      && CountPair(r.lines, x, b)
         == (if x == parent && b != NULL then CountIn(targets, b) else 0) + Bit(x in r.seen - seen && Edge(g, x, b))
      && CountFull(r.lines, b) == Bit(b in r.seen - seen)
    decreases |g.Keys - seen|, |targets|
  {
    if targets != [] {
      var first := Print(g, parent, targets[0], seen, depth);
      PrintCounts(g, parent, targets[0], seen, depth, x, b);
      SubsetSize(g.Keys - first.seen, g.Keys - seen);
      PrintAllCounts(g, parent, targets[1..], first.seen, depth, x, b);
      CountsAppend(first.lines, PrintAll(g, parent, targets[1..], first.seen, depth).lines, x, b);
    }
  }

  /**
   * The lines of a walk: one for the root, one for every await that leaves a reachable object, and among them exactly
   * one full representation of every reachable object and none of anything else.
   */
  lemma WalkCounts(g: Graph, root: Addr, x: Addr, b: Addr)
    requires WellFormed(g) && root != NULL
    ensures CountPair(Walk(g, root).lines, x, b)
         == Bit(x == NULL && b == root) + Bit(Reaches(g, root, x) && Edge(g, x, b))
    ensures CountFull(Walk(g, root).lines, b) == Bit(b != NULL && Reaches(g, root, b))
  {
    hide Print, PrintAll, CountPair, CountFull, Reaches;
    PrintCounts(g, NULL, root, {}, 0, x, b);
    WalkSeesReachable(g, root, x);
    WalkSeesReachable(g, root, b);
  }

  // ---- Indentation ----

  /** Line `i` is one step deeper than an earlier full line of the object whose targets it belongs to. */
  predicate Under(lines: seq<Line>, i: nat)
    requires i < |lines|
  {
    exists j :: 0 <= j < i && lines[j].full && lines[j].addr == lines[i].parent && lines[j].depth + 1 == lines[i].depth
  }

  predicate Indented(lines: seq<Line>, parent: Addr, depth: nat, i: nat)
    requires i < |lines|
  {
    (lines[i].parent == parent && lines[i].depth == depth) || Under(lines, i)
  }

  lemma UnderShifts(front: seq<Line>, lines: seq<Line>, back: seq<Line>, i: nat)
    requires i < |lines| && Under(lines, i)
    ensures Under(front + lines + back, |front| + i)
  {
    var j :| 0 <= j < i && lines[j].full && lines[j].addr == lines[i].parent && lines[j].depth + 1 == lines[i].depth;
    var whole, k := front + lines + back, |front| + j;
    assert whole[k] == lines[j] && whole[|front| + i] == lines[i];
  }

  lemma UnderFirst(first: seq<Line>, rest: seq<Line>, i: nat)
    requires i < |first| && Under(first, i)
    ensures Under(first + rest, i)
  {
    UnderShifts([], first, rest, i);
    assert [] + first + rest == first + rest;
  }

  lemma UnderSecond(first: seq<Line>, rest: seq<Line>, i: nat)
    requires i < |rest| && Under(rest, i)
    ensures Under(first + rest, |first| + i)
  {
    UnderShifts(first, rest, [], i);
    assert first + rest + [] == first + rest;
  }

  lemma IndentedInEither(first: seq<Line>, rest: seq<Line>, parent: Addr, depth: nat, i: nat)
    requires i < |first| + |rest|
    requires if i < |first| then Indented(first, parent, depth, i) else Indented(rest, parent, depth, i - |first|)
    ensures Indented(first + rest, parent, depth, i)
  {
    if i < |first| {
      if Under(first, i) { UnderFirst(first, rest, i); }
    } else {
      if Under(rest, i - |first|) { UnderSecond(first, rest, i - |first|); }
    }
  }

  lemma UnderRoot(top: Line, rest: seq<Line>, i: nat)
    requires i < |rest| && top.full && Indented(rest, top.addr, top.depth + 1, i)
    ensures Under([top] + rest, i + 1)
  {
    if Under(rest, i) {
      UnderSecond([top], rest, i);
    } else {
      assert ([top] + rest)[0] == top;
    }
  }

  lemma {:induction false} PrintIndents(g: Graph, parent: Addr, addr: Addr, seen: set<Addr>, depth: nat, i: nat)
    requires i < |Print(g, parent, addr, seen, depth).lines|
    ensures var lines := Print(g, parent, addr, seen, depth).lines;
      if i == 0 then lines[0].parent == parent && lines[0].depth == depth else Under(lines, i)
    decreases |g.Keys - seen|, 0
  {
    hide Under;
    if i > 0 {
      SmallerRest(g.Keys, seen, addr);
      PrintAllIndents(g, addr, g[addr], seen + {addr}, depth + 1, i - 1);
      var rest := PrintAll(g, addr, g[addr], seen + {addr}, depth + 1).lines;
      UnderRoot(Line(parent, addr, depth, true), rest, i - 1);
    }
  }

  lemma {:induction false} PrintAllIndents(
    g: Graph, parent: Addr, targets: seq<Addr>, seen: set<Addr>, depth: nat, i: nat)
    requires i < |PrintAll(g, parent, targets, seen, depth).lines|
    ensures Indented(PrintAll(g, parent, targets, seen, depth).lines, parent, depth, i)
    decreases |g.Keys - seen|, |targets|
  {
    hide Under, Print;
    var first := Print(g, parent, targets[0], seen, depth);
    SubsetSize(g.Keys - first.seen, g.Keys - seen);
    var rest := PrintAll(g, parent, targets[1..], first.seen, depth);
    if i < |first.lines| {
      PrintIndents(g, parent, targets[0], seen, depth, i);
    } else {
      PrintAllIndents(g, parent, targets[1..], first.seen, depth, i - |first.lines|);
    }
    IndentedInEither(first.lines, rest.lines, parent, depth, i);
  }

  /** Indentation shows who awaits: the root is at depth 0, every other line one step below its awaiter's full line. */
  lemma WalkIndents(g: Graph, root: Addr, i: nat)
    requires root != NULL && i < |Walk(g, root).lines|
    ensures var lines := Walk(g, root).lines;
      if i == 0 then lines[0] == Line(NULL, root, 0, true) else Under(lines, i)
  {
    hide PrintAll, Under;
    PrintIndents(g, NULL, root, {}, 0, i);
  }

  // ---- Counting lines ----

  lemma {:induction false} PairCounted(lines: seq<Line>, i: nat)
    requires i < |lines|
    ensures CountPair(lines, lines[i].parent, lines[i].addr) >= 1
    ensures lines[i].full ==> CountFull(lines, lines[i].addr) >= 1
  {
    if i > 0 { PairCounted(lines[1..], i - 1); }
  }

  lemma {:induction false} TwoPairsCounted(lines: seq<Line>, i: nat, j: nat)
    requires i < j < |lines| && lines[i].addr == lines[j].addr
    ensures lines[i].parent == lines[j].parent ==> CountPair(lines, lines[i].parent, lines[i].addr) >= 2
    ensures lines[i].full && lines[j].full ==> CountFull(lines, lines[i].addr) >= 2
  {
    if i == 0 { PairCounted(lines[1..], j - 1); } else { TwoPairsCounted(lines[1..], i - 1, j - 1); }
  }

  lemma {:induction false} PairFound(lines: seq<Line>, x: Addr, b: Addr) returns (i: nat)
    requires CountPair(lines, x, b) >= 1
    ensures i < |lines| && lines[i].parent == x && lines[i].addr == b
  {
    if lines[0].parent == x && lines[0].addr == b {
      i := 0;
    } else {
      i := PairFound(lines[1..], x, b);
      i := i + 1;
    }
  }

  lemma {:induction false} FullFound(lines: seq<Line>, b: Addr) returns (i: nat)
    requires CountFull(lines, b) >= 1
    ensures i < |lines| && lines[i].full && lines[i].addr == b
  {
    if lines[0].full && lines[0].addr == b {
      i := 0;
    } else {
      i := FullFound(lines[1..], b);
      i := i + 1;
    }
  }

  /** `<!seen>` appears in the output. */
  predicate SeenPrinted(lines: seq<Line>) { exists i :: 0 <= i < |lines| && !lines[i].full }

  /** Two distinct objects reachable from the root await the same object. */
  ghost predicate Shared(g: Graph, root: Addr, x: Addr, y: Addr, b: Addr) {
    x != y && Edge(g, x, b) && Edge(g, y, b) && Reaches(g, root, x) && Reaches(g, root, y)
  }

  lemma SeenImpliesShared(g: Graph, root: Addr, i: nat) returns (y: Addr)
    requires WellFormed(g) && root in Roots(g)
    requires i < |Walk(g, root).lines| && !Walk(g, root).lines[i].full
    ensures Shared(g, root, Walk(g, root).lines[i].parent, y, Walk(g, root).lines[i].addr)
  {
    hide Walk, Reaches, Edge, CountPair, CountFull, Roots;
    assert root != NULL && forall x :: !Edge(g, x, root) by { RootIsKey(g, root); }
    var lines := Walk(g, root).lines;
    var x, b := lines[i].parent, lines[i].addr;
    PairCounted(lines, i);
    WalkCounts(g, root, x, b);
    ReachesSelf(g, root);
    if x != NULL || b != root { TargetReached(g, root, x, b); }
    var j := FullFound(lines, b);
    y := lines[j].parent;
    WalkCounts(g, root, y, b);
    PairCounted(lines, j);
    if i < j { TwoPairsCounted(lines, i, j); } else { TwoPairsCounted(lines, j, i); }
  }

  lemma RootIsKey(g: Graph, root: Addr)
    requires WellFormed(g) && root in Roots(g)
    ensures root != NULL && forall x :: !Edge(g, x, root)
  {
  }

  lemma TargetReached(g: Graph, root: Addr, x: Addr, b: Addr)
    requires Reaches(g, root, x) && Edge(g, x, b)
    ensures b != NULL && Reaches(g, root, b)
  {
    ReachesStep(g, root, x, b);
  }

  lemma SharedImpliesSeen(g: Graph, root: Addr, x: Addr, y: Addr, b: Addr)
    requires WellFormed(g) && root != NULL && Shared(g, root, x, y, b)
    ensures SeenPrinted(Walk(g, root).lines)
  {
    hide Walk, Reaches, Edge, CountPair, CountFull;
    var lines := Walk(g, root).lines;
    WalkCounts(g, root, x, b);
    WalkCounts(g, root, y, b);
    var i := PairFound(lines, x, b);
    var j := PairFound(lines, y, b);
    if i < j { TwoPairsCounted(lines, i, j); } else { TwoPairsCounted(lines, j, i); }
  }

  /** Under a root, `<!seen>` is printed if and only if two distinct reachable objects await the same object. */
  lemma SeenIffShared(g: Graph, root: Addr)
    requires WellFormed(g) && root in Roots(g)
    ensures SeenPrinted(Walk(g, root).lines) <==> exists x, y, b :: Shared(g, root, x, y, b)
  {
    hide Walk, Shared, Roots;
    RootIsKey(g, root);
    if SeenPrinted(Walk(g, root).lines) {
      var i :| 0 <= i < |Walk(g, root).lines| && !Walk(g, root).lines[i].full;
      var y := SeenImpliesShared(g, root, i);
    }
    if x, y, b :| Shared(g, root, x, y, b) {
      SharedImpliesSeen(g, root, x, y, b);
    }
  }

  // ---- The number of lines ----

  ghost function EdgesFrom(g: Graph, root: Addr): set<(Addr, Addr)> {
    set a, b | a in g && b in g[a] && b != NULL && Reaches(g, root, a) :: (a, b)
  }

  function PairsOf(lines: seq<Line>): (r: seq<(Addr, Addr)>)
    ensures |r| == |lines|
    ensures forall i | 0 <= i < |lines| :: r[i] == (lines[i].parent, lines[i].addr)
  {
    if lines == [] then [] else [(lines[0].parent, lines[0].addr)] + PairsOf(lines[1..])
  }

  lemma PairsAreEdges(g: Graph, root: Addr)
    requires WellFormed(g) && root != NULL
    ensures Members(PairsOf(Walk(g, root).lines)) == EdgesFrom(g, root) + {(NULL, root)}
  {
    hide Walk, Reaches, CountPair, CountFull;
    var lines := Walk(g, root).lines;
    var pairs := PairsOf(lines);
    forall e: (Addr, Addr) ensures e in pairs <==> e in EdgesFrom(g, root) + {(NULL, root)} {
      WalkCounts(g, root, e.0, e.1);
      if e in pairs {
        var i :| 0 <= i < |pairs| && pairs[i] == e;
        PairCounted(lines, i);
      }
      if CountPair(lines, e.0, e.1) >= 1 {
        var i := PairFound(lines, e.0, e.1);
        assert pairs[i] == e;
      }
    }
  }

  lemma PairsDistinct(g: Graph, root: Addr)
    requires WellFormed(g) && root != NULL
    ensures Distinct(PairsOf(Walk(g, root).lines))
  {
    hide Walk, Reaches, CountPair, CountFull;
    var lines := Walk(g, root).lines;
    var pairs := PairsOf(lines);
    forall i, j | 0 <= i < j < |pairs| ensures pairs[i] != pairs[j] {
      if pairs[i] == pairs[j] {
        TwoPairsCounted(lines, i, j);
        WalkCounts(g, root, pairs[i].0, pairs[i].1);
      }
    }
  }

  /** A walk prints one line for the root and one for every await that leaves a reachable object. */
  lemma WalkLineCount(g: Graph, root: Addr)
    requires WellFormed(g) && root != NULL
    ensures |Walk(g, root).lines| == 1 + |EdgesFrom(g, root)|
  {
    hide Walk, Reaches, PairsOf, Distinct, Members;
    var pairs := PairsOf(Walk(g, root).lines);
    PairsAreEdges(g, root);
    PairsDistinct(g, root);
    DistinctSize(pairs);
    assert (NULL, root) !in EdgesFrom(g, root);
  }

  // ---- Cycles ----

  /** An object awaited along a cycle has an awaiter on the same cycle. */
  lemma PredecessorOnCycle(g: Graph, c: Addr) returns (a: Addr)
    requires OnCycle(g, c)
    ensures Edge(g, a, c) && OnCycle(g, a) && Reaches(g, c, a)
  {
    var p :| IsPath(g, p) && |p| >= 2 && p[0] == c && p[|p| - 1] == c;
    var n := |p| - 2;
    a := p[n];
    assert Edge(g, p[n], p[n + 1]);
    var init := p[..n + 1];
    assert IsPath(g, init) && init[|init| - 1] == a;
    var q := [a] + init;
    assert q[|q| - 1] == a && IsPath(g, q);
  }

  /** Following a path back from a cycle: two awaiters of one object are met, or the root itself is awaited. */
  lemma {:induction false} BackFromCycle(g: Graph, root: Addr, p: seq<Addr>)
    requires IsPath(g, p) && p[0] == root && OnCycle(g, p[|p| - 1])
    ensures (exists x, y, b :: Shared(g, root, x, y, b)) || exists a :: Edge(g, a, root)
  {
    hide OnCycle, Reaches;
    var n := |p| - 1;
    var a := PredecessorOnCycle(g, p[n]);
    if n > 0 {
      var q := p[..n];
      assert Edge(g, p[n - 1], p[n - 1 + 1]) && IsPath(g, q);
      if a == p[n - 1] {
        BackFromCycle(g, root, q);
      } else {
        PathReaches(g, p);
        PathReaches(g, q);
        ReachesTransitive(g, root, p[n], a);
        assert Shared(g, root, p[n - 1], a, p[n]);
      }
    }
  }

  /** Any cycle reachable from a root produces `<!seen>` in that root's output. */
  lemma ReachableCycleIsShown(g: Graph, root: Addr, c: Addr)
    requires WellFormed(g) && root in Roots(g) && Reaches(g, root, c) && OnCycle(g, c)
    ensures SeenPrinted(Walk(g, root).lines)
  {
    hide Walk, OnCycle, Shared, Roots;
    RootIsKey(g, root);
    var p :| IsPath(g, p) && p[0] == root && p[|p| - 1] == c;
    BackFromCycle(g, root, p);
    SeenIffShared(g, root);
  }

  ghost predicate OnlyAwaiter(g: Graph, root: Addr, x: Addr, b: Addr) {
    Edge(g, x, b) && Reaches(g, root, x) && forall y :: Edge(g, y, b) && Reaches(g, root, y) ==> y == x
  }

  /** Without `<!seen>` the part shown under a root is a tree: every object but the root has exactly one awaiter. */
  lemma NoSeenMeansTree(g: Graph, root: Addr, b: Addr)
    requires WellFormed(g) && root in Roots(g) && !SeenPrinted(Walk(g, root).lines)
    requires Reaches(g, root, b) && b != root
    ensures exists x :: OnlyAwaiter(g, root, x, b)
  {
    hide Walk, Roots;
    SeenIffShared(g, root);
    var p :| IsPath(g, p) && p[0] == root && p[|p| - 1] == b;
    var x, q := p[|p| - 2], p[..|p| - 1];
    assert Edge(g, x, p[|p| - 2 + 1]) && IsPath(g, q) && q[|q| - 1] == x;
    forall y | Edge(g, y, b) && Reaches(g, root, y) ensures y == x {
      assert Shared(g, root, x, y, b) || x == y;
    }
    assert OnlyAwaiter(g, root, x, b);
  }

  // ---- What no root shows ----

  /** The collected object `b` appears in no output. */
  ghost predicate Hidden(g: Graph, b: Addr) {
    forall r <- Roots(g) :: b !in Walk(g, r).seen
  }

  lemma HiddenPredecessor(g: Graph, b: Addr) returns (a: Addr)
    requires WellFormed(g) && b in g && Hidden(g, b)
    ensures Edge(g, a, b) && Hidden(g, a)
  {
    hide Walk, Reaches, Edge;
    if b in Roots(g) {
      ReachesSelf(g, b);
      WalkSeesReachable(g, b, b);
      assert false;
    }
    a := AwaiterOf(g, b);
    forall r | r in Roots(g) ensures a !in Walk(g, r).seen {
      WalkSeesReachable(g, r, a);
      WalkSeesReachable(g, r, b);
      if a in Walk(g, r).seen { TargetReached(g, r, a, b); }
    }
  }

  lemma AwaiterOf(g: Graph, b: Addr) returns (a: Addr)
    requires WellFormed(g) && b in g && b !in Roots(g)
    ensures Edge(g, a, b)
  {
    a :| a in g.Keys && b in g[a];
  }

  /** Awaiters of awaiters of a hidden object: a path of distinct hidden keys must close, because keys are finite. */
  lemma {:induction false} BackToCycle(g: Graph, p: seq<Addr>) returns (c: Addr)
    requires WellFormed(g) && IsPath(g, p) && Distinct(p) && Members(p) <= g.Keys && Hidden(g, p[0])
    ensures OnCycle(g, c) && Reaches(g, c, p[|p| - 1])
    decreases |g.Keys| - |p|
  {
    hide Walk, Hidden, Reaches, OnCycle, Distinct;
    DistinctSize(p);
    SubsetSize(Members(p), g.Keys);
    var a := HiddenPredecessor(g, p[0]);
    var q := [a] + p;
    assert IsPath(g, q);
    if a in p {
      c := a;
      CloseCycle(g, a, p);
      PathReaches(g, q);
    } else {
      ExtendDistinct(a, p);
      DistinctSize(q);
      SubsetSize(Members(q), g.Keys);
      c := BackToCycle(g, q);
    }
  }

  lemma ExtendDistinct(a: Addr, p: seq<Addr>)
    requires Distinct(p) && a !in p
    ensures Distinct([a] + p) && Members([a] + p) == {a} + Members(p)
  {
  }

  lemma CloseCycle(g: Graph, a: Addr, p: seq<Addr>)
    requires IsPath(g, [a] + p) && a in p
    ensures OnCycle(g, a)
  {
    var i :| 0 <= i < |p| && p[i] == a;
    var q := ([a] + p)[..i + 2];
    assert IsPath(g, q) && q[0] == a && q[|q| - 1] == a;
  }

  /** Every collected object that no root shows is reachable from an await cycle. */
  lemma HiddenIsBehindCycle(g: Graph, b: Addr) returns (c: Addr)
    requires WellFormed(g) && b in g && Hidden(g, b)
    ensures OnCycle(g, c) && Reaches(g, c, b)
  {
    c := BackToCycle(g, [b]);
  }

  /** In an acyclic await graph every collected task and future appears under at least one root. */
  lemma AcyclicShowsEverything(g: Graph, b: Addr)
    requires WellFormed(g) && b in g && forall c :: !OnCycle(g, c)
    ensures exists r :: r in Roots(g) && b in Walk(g, r).seen
  {
    hide Walk, Reaches, Roots;
    if Hidden(g, b) {
      var c := HiddenIsBehindCycle(g, b);
      assert false;
    }
  }

  /** Some root reaches `c`. */
  ghost predicate RootReached(g: Graph, c: Addr) { exists r :: r in Roots(g) && Reaches(g, r, c) }

  lemma HiddenIffNotReached(g: Graph, b: Addr)
    requires WellFormed(g) && b in g
    ensures Hidden(g, b) <==> !RootReached(g, b)
  {
    hide Walk, Reaches, Roots;
    forall r | r in Roots(g) ensures b in Walk(g, r).seen <==> Reaches(g, r, b) {
      RootIsKey(g, r);
      WalkSeesReachable(g, r, b);
    }
  }

  /** Every collected object appears under some root if and only if every await cycle is reached from a root. */
  lemma AllShownIffCyclesReached(g: Graph)
    requires WellFormed(g)
    ensures (forall b <- g :: !Hidden(g, b)) <==> (forall c :: OnCycle(g, c) ==> RootReached(g, c))
  {
    hide Hidden, OnCycle, Reaches, Roots;
    if forall c :: OnCycle(g, c) ==> RootReached(g, c) {
      forall b | b in g ensures !Hidden(g, b) {
        HiddenIffNotReached(g, b);
        if Hidden(g, b) {
          var c := HiddenIsBehindCycle(g, b);
          var r :| r in Roots(g) && Reaches(g, r, c);
          ReachesTransitive(g, r, c, b);
        }
      }
    }
    if forall b <- g :: !Hidden(g, b) {
      forall c | OnCycle(g, c) ensures RootReached(g, c) {
        CycleNodeIsKey(g, c);
        HiddenIffNotReached(g, c);
      }
    }
  }

  // ---- The two directions the documentation does not get ----

  const DIAMOND: Graph := map[1 := [2, 3], 2 := [4], 3 := [4], 4 := []]

  lemma {:induction false} DiamondPathsGrow(p: seq<Addr>)
    requires IsPath(DIAMOND, p)
    ensures |p| >= 2 ==> p[0] < p[|p| - 1]
  {
    if |p| >= 2 {
      assert Edge(DIAMOND, p[0], p[1]);
      DiamondPathsGrow(p[1..]);
    }
  }

  /** `<!seen>` does not imply a cycle: two tasks that await one future are enough. */
  lemma SeenWithoutCycle()
    ensures WellFormed(DIAMOND) && 1 in Roots(DIAMOND) && (forall c :: !OnCycle(DIAMOND, c))
    ensures SeenPrinted(Walk(DIAMOND, 1).lines)
  {
    hide Walk;
    forall c ensures !OnCycle(DIAMOND, c) {
      if OnCycle(DIAMOND, c) {
        var p :| IsPath(DIAMOND, p) && |p| >= 2 && p[0] == c && p[|p| - 1] == c;
        DiamondPathsGrow(p);
      }
    }
    assert IsPath(DIAMOND, [1, 2]) && IsPath(DIAMOND, [1, 3]);
    PathReaches(DIAMOND, [1, 2]);
    PathReaches(DIAMOND, [1, 3]);
    assert Shared(DIAMOND, 1, 2, 3, 4);
    SharedImpliesSeen(DIAMOND, 1, 2, 3, 4);
  }

  const DEADLOCK: Graph := map[1 := [2], 2 := [1]]

  /** A cycle does not imply `<!seen>`: two tasks that await each other leave no root, and nothing is printed. */
  lemma CycleWithoutOutput()
    ensures WellFormed(DEADLOCK) && OnCycle(DEADLOCK, 1) && Roots(DEADLOCK) == {}
  {
    assert IsPath(DEADLOCK, [1, 2, 1]);
    assert 1 in DEADLOCK[2] && 2 in DEADLOCK[1];
    assert 2 in DEADLOCK.Keys && 1 in DEADLOCK.Keys;
  }
}
