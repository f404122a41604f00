/** When a `<!seen>` line is the last edge of a cycle: when it names one of the objects it is indented under. */
module AwaitCycles {
  import opened AwaitGraph
  import opened AwaitGraphProperties
  import opened Graphs
  import opened Sets

  /** Line `i` is indented under line `j`. */
  predicate IsUnder(lines: seq<Line>, j: nat, i: nat) {
    j < i < |lines| && forall k | j < k <= i :: lines[k].depth > lines[j].depth
  }

  /** Line `i` is a `<!seen>` of an object it is indented under. */
  predicate ClosesAt(lines: seq<Line>, j: nat, i: nat) {
    IsUnder(lines, j, i) && !lines[i].full && lines[j].addr == lines[i].addr
  }

  ghost predicate CyclePrinted(lines: seq<Line>) { exists j: nat, i: nat :: ClosesAt(lines, j, i) }

  // ----- A closing line is a cycle -----

  /** The collected objects that are still unseen; walking shrinks them. */
  ghost function Left(g: Graph, seen: set<Addr>): nat { |g.Keys - seen| }

  lemma LeftShrinks(g: Graph, seen: set<Addr>, addr: Addr)
    requires addr in g && addr !in seen
    ensures Left(g, seen + {addr}) < Left(g, seen)
  {
    SmallerRest(g.Keys, seen, addr);
  }

  /** At least one await leads from `a` to `b`. */
  ghost predicate Leads(g: Graph, a: Addr, b: Addr) { exists t :: Edge(g, a, t) && Reaches(g, t, b) }

  lemma {:induction false} LineReached(g: Graph, parent: Addr, addr: Addr, seen: set<Addr>, depth: nat, i: nat)
    requires i < |Print(g, parent, addr, seen, depth).lines|
    ensures var line := Print(g, parent, addr, seen, depth).lines[i];
      addr != NULL && line.depth >= depth && Reaches(g, addr, line.addr)
    ensures i > 0 ==>
      addr in g && i <= |PrintAll(g, addr, g[addr], seen + {addr}, depth + 1).lines|
      && Print(g, parent, addr, seen, depth).lines[i]
         == PrintAll(g, addr, g[addr], seen + {addr}, depth + 1).lines[i - 1]
    decreases Left(g, seen), 0
  {
    hide Reaches, Left;
    ReachesSelf(g, addr);
    if i > 0 {
      LeftShrinks(g, seen, addr);
      var t := TargetLineReached(g, addr, g[addr], seen + {addr}, depth + 1, i - 1);
      StepReaches(g, addr, t, Print(g, parent, addr, seen, depth).lines[i].addr);
    }
  }

  lemma {:induction false} TargetLineReached(
    g: Graph, parent: Addr, targets: seq<Addr>, seen: set<Addr>, depth: nat, i: nat) returns (t: Addr)
    requires i < |PrintAll(g, parent, targets, seen, depth).lines|
    ensures var line := PrintAll(g, parent, targets, seen, depth).lines[i];
      t in targets && t != NULL && line.depth >= depth && Reaches(g, t, line.addr)
    decreases Left(g, seen), |targets|
  {
    hide Print, PrintAll, Reaches, Left;
    PrintAllSplit(g, parent, targets, seen, depth);
    var first := Print(g, parent, targets[0], seen, depth);
    if i < |first.lines| {
      t := targets[0];
      LineReached(g, parent, t, seen, depth, i);
    } else {
      t := TargetLineReached(g, parent, targets[1..], first.seen, depth, i - |first.lines|);
    }
  }

  lemma PrintAllSplit(g: Graph, parent: Addr, targets: seq<Addr>, seen: set<Addr>, depth: nat)
    ensures targets == [] ==> PrintAll(g, parent, targets, seen, depth) == Trace([], seen)
    ensures targets != [] ==>
      var first := Print(g, parent, targets[0], seen, depth);
      var rest := PrintAll(g, parent, targets[1..], first.seen, depth);
      && PrintAll(g, parent, targets, seen, depth) == Trace(first.lines + rest.lines, rest.seen)
      && Left(g, first.seen) <= Left(g, seen)
  {
    hide Print;
    if targets != [] {
      SubsetSize(g.Keys - Print(g, parent, targets[0], seen, depth).seen, g.Keys - seen);
    }
  }

  lemma {:induction false} UnderLeads(g: Graph, parent: Addr, addr: Addr, seen: set<Addr>, depth: nat, j: nat, i: nat)
    requires IsUnder(Print(g, parent, addr, seen, depth).lines, j, i)
    ensures var lines := Print(g, parent, addr, seen, depth).lines; Leads(g, lines[j].addr, lines[i].addr)
    decreases Left(g, seen), 0
  {
    hide Reaches, Print, PrintAll, Left;
    LineReached(g, parent, addr, seen, depth, i);
    PrintCases(g, parent, addr, seen, depth);
    LeftShrinks(g, seen, addr);
    var top, rest := Line(parent, addr, depth, true), PrintAll(g, addr, g[addr], seen + {addr}, depth + 1).lines;
    if j == 0 {
      var t := TargetLineReached(g, addr, g[addr], seen + {addr}, depth + 1, i - 1);
      assert Edge(g, addr, t);
    } else {
      UnderInPart([top], rest, j, i);
      TargetsUnderLead(g, addr, g[addr], seen + {addr}, depth + 1, j - 1, i - 1);
    }
  }

  /** Two lines of a list of targets, one under the other, belong to the first target or to the later ones. */
  lemma UnderOneTarget(
    g: Graph, parent: Addr, targets: seq<Addr>, seen: set<Addr>, depth: nat, j: nat, i: nat)
    requires IsUnder(PrintAll(g, parent, targets, seen, depth).lines, j, i)
    ensures targets != [] && j < i < |PrintAll(g, parent, targets, seen, depth).lines|
    ensures var lines := PrintAll(g, parent, targets, seen, depth).lines;
      var first := Print(g, parent, targets[0], seen, depth);
      var rest, n := PrintAll(g, parent, targets[1..], first.seen, depth).lines, |first.lines|;
      && Left(g, first.seen) <= Left(g, seen)
      && (i < n ==> IsUnder(first.lines, j, i) && lines[j] == first.lines[j] && lines[i] == first.lines[i])
      && (i >= n ==> j >= n && i - n < |rest| && IsUnder(rest, j - n, i - n))
      && (i >= n ==> lines[j] == rest[j - n] && lines[i] == rest[i - n])
  {
    hide *;
    UnderInRange(PrintAll(g, parent, targets, seen, depth).lines, j, i);
    PrintAllSplit(g, parent, targets, seen, depth);
    var first := Print(g, parent, targets[0], seen, depth);
    var rest := PrintAll(g, parent, targets[1..], first.seen, depth).lines;
    if j < |first.lines| { LineReached(g, parent, targets[0], seen, depth, j); }
    if rest != [] { FirstLineDepth(g, parent, targets[1..], first.seen, depth); }
    SamePart(first.lines, rest, j, i, depth);
  }

  lemma {:induction false} TargetsUnderLead(
    g: Graph, parent: Addr, targets: seq<Addr>, seen: set<Addr>, depth: nat, j: nat, i: nat)
    requires IsUnder(PrintAll(g, parent, targets, seen, depth).lines, j, i)
    ensures j < i < |PrintAll(g, parent, targets, seen, depth).lines|
    ensures var lines := PrintAll(g, parent, targets, seen, depth).lines; Leads(g, lines[j].addr, lines[i].addr)
    decreases Left(g, seen), |targets|
  {
    hide *;
    UnderOneTarget(g, parent, targets, seen, depth, j, i);
    var first := Print(g, parent, targets[0], seen, depth);
    if i < |first.lines| {
      UnderLeads(g, parent, targets[0], seen, depth, j, i);
    } else {
      TargetsUnderLead(g, parent, targets[1..], first.seen, depth, j - |first.lines|, i - |first.lines|);
    }
  }

  lemma UnderInRange(lines: seq<Line>, j: nat, i: nat)
    requires IsUnder(lines, j, i)
    ensures j < i < |lines|
  {
  }

  lemma FirstLineDepth(g: Graph, parent: Addr, targets: seq<Addr>, seen: set<Addr>, depth: nat)
    requires PrintAll(g, parent, targets, seen, depth).lines != []
    ensures PrintAll(g, parent, targets, seen, depth).lines[0].depth == depth
  {
    hide PrintAll;
    PrintAllIndents(g, parent, targets, seen, depth, 0);
  }

  /** A new target ends what was indented before it. */
  lemma SamePart(first: seq<Line>, rest: seq<Line>, j: nat, i: nat, depth: nat)
    requires IsUnder(first + rest, j, i)
    requires (j < |first| ==> first[j].depth >= depth) && (rest != [] ==> rest[0].depth == depth)
    ensures i < |first| ==>
      IsUnder(first, j, i) && j < i && (first + rest)[j] == first[j] && (first + rest)[i] == first[i]
    ensures i >= |first| ==>
      var n := |first|;
      && j >= n && i - n < |rest| && IsUnder(rest, j - n, i - n)
      && (first + rest)[j] == rest[j - n] && (first + rest)[i] == rest[i - n]
  {
    UnderInPart(first, rest, j, i);
    if rest != [] { assert (first + rest)[|first|] == rest[0]; }
  }

  lemma UnderInPart(first: seq<Line>, rest: seq<Line>, j: nat, i: nat)
    requires IsUnder(first + rest, j, i)
    ensures i < |first| ==> IsUnder(first, j, i)
    ensures j >= |first| ==> IsUnder(rest, j - |first|, i - |first|)
  {
    if i < |first| {
      forall k | j < k <= i ensures first[k].depth > first[j].depth { assert (first + rest)[k] == first[k]; }
    }
    if j >= |first| {
      var n := |first|;
      forall k | j - n < k <= i - n ensures rest[k].depth > rest[j - n].depth {
        assert (first + rest)[k + n] == rest[k];
      }
    }
  }

  // ----- Without a closing line there is no cycle -----

  /** Awaits do not leave the set, and none of its objects is on a cycle. */
  ghost predicate Safe(g: Graph, s: set<Addr>) {
    forall x <- s :: !OnCycle(g, x) && forall y :: Edge(g, x, y) ==> y in s
  }

  /** Line `i` is a `<!seen>` of an object it is indented under, or of one of those around the lines. */
  ghost predicate ClosesUnder(lines: seq<Line>, around: set<Addr>, i: nat) {
    i < |lines| && !lines[i].full && (lines[i].addr in around || exists j: nat :: ClosesAt(lines, j, i))
  }

  ghost predicate NothingCloses(lines: seq<Line>, around: set<Addr>) { forall i: nat :: !ClosesUnder(lines, around, i) }

  lemma {:induction false} SafeStays(g: Graph, s: set<Addr>, p: seq<Addr>)
    requires Safe(g, s) && IsPath(g, p) && p[0] in s
    ensures p[|p| - 1] in s
  {
    if |p| > 1 {
      var q := p[..|p| - 1];
      SafeStays(g, s, q);
      assert Edge(g, p[|p| - 2], p[|p| - 2 + 1]);
    }
  }

  lemma SafeGrows(g: Graph, s: set<Addr>, x: Addr)
    requires Safe(g, s) && x !in s && forall y :: Edge(g, x, y) ==> y in s
    ensures Safe(g, s + {x})
  {
    if OnCycle(g, x) {
      var p :| IsPath(g, p) && |p| >= 2 && p[0] == x && p[|p| - 1] == x;
      var q := p[1..];
      assert Edge(g, p[0], p[1]);
      forall k | 0 <= k < |q| - 1 ensures Edge(g, q[k], q[k + 1]) { assert Edge(g, p[k + 1], p[k + 2]); }
      SafeStays(g, s, q);
    }
  }

  lemma {:induction false} PrintIsSafe(
    g: Graph, parent: Addr, addr: Addr, seen: set<Addr>, depth: nat, around: set<Addr>)
    requires around <= seen && Safe(g, seen - around)
    requires NothingCloses(Print(g, parent, addr, seen, depth).lines, around)
    ensures var r := Print(g, parent, addr, seen, depth);
      Safe(g, r.seen - around) && (addr != NULL ==> addr in r.seen - around)
    decreases Left(g, seen), 0
  {
    hide Safe, NothingCloses, OnCycle, Left;
    var lines := Print(g, parent, addr, seen, depth).lines;
    if addr != NULL && addr in seen {
      assert lines == [Line(parent, addr, depth, false)];
      FirstDoesNotClose(lines, around);
      assert !ClosesUnder(lines, around, 0);
    } else if addr != NULL && addr !in g {
      assert seen + {addr} - around == (seen - around) + {addr};
      SafeGrows(g, seen - around, addr);
    } else if addr != NULL {
      LeftShrinks(g, seen, addr);
      var rest := PrintAll(g, addr, g[addr], seen + {addr}, depth + 1);
      assert seen + {addr} - (around + {addr}) == seen - around;
      NothingClosesInside(g, addr, seen, depth, Line(parent, addr, depth, true), rest.lines, around);
      AllAreSafe(g, addr, g[addr], seen + {addr}, depth + 1, around + {addr});
      assert rest.seen - around == (rest.seen - (around + {addr})) + {addr};
      SafeGrows(g, rest.seen - (around + {addr}), addr);
    }
  }

  lemma FirstDoesNotClose(lines: seq<Line>, around: set<Addr>)
    requires NothingCloses(lines, around)
    ensures !ClosesUnder(lines, around, 0)
  {
  }

  /** What closes under the object itself or inside its lines also closes in the lines with its own in front. */
  lemma NothingClosesInside(
    g: Graph, addr: Addr, seen: set<Addr>, depth: nat, top: Line, rest: seq<Line>, around: set<Addr>)
    requires top == Line(top.parent, addr, depth, true) && NothingCloses([top] + rest, around) && addr in g
    requires rest == PrintAll(g, addr, g[addr], seen + {addr}, depth + 1).lines
    ensures NothingCloses(rest, around + {addr})
  {
    hide PrintAll, ClosesAt;
    forall i: nat ensures !ClosesUnder(rest, around + {addr}, i) {
      if ClosesUnder(rest, around + {addr}, i) {
        assert ([top] + rest)[i + 1] == rest[i] && !ClosesUnder([top] + rest, around, i + 1);
        if rest[i].addr == addr {
          TopIsAbove(g, addr, seen, depth, top, rest, i);
        } else {
          var j: nat :| ClosesAt(rest, j, i);
          ClosesShifted(top, rest, j, i);
        }
      }
    }
  }

  lemma TopIsAbove(g: Graph, addr: Addr, seen: set<Addr>, depth: nat, top: Line, rest: seq<Line>, i: nat)
    requires top.addr == addr && top.depth == depth && addr in g && i < |rest| && rest[i].addr == addr && !rest[i].full
    requires rest == PrintAll(g, addr, g[addr], seen + {addr}, depth + 1).lines
    ensures ClosesAt([top] + rest, 0, i + 1)
  {
    hide PrintAll;
    var lines := [top] + rest;
    forall k | 0 < k <= i + 1 ensures lines[k].depth > depth {
      assert lines[k] == rest[k - 1];
      var t := TargetLineReached(g, addr, g[addr], seen + {addr}, depth + 1, k - 1);
    }
  }

  lemma ClosesShifted(top: Line, rest: seq<Line>, j: nat, i: nat)
    requires ClosesAt(rest, j, i)
    ensures ClosesAt([top] + rest, j + 1, i + 1)
  {
    var lines := [top] + rest;
    forall k | j + 1 < k <= i + 1 ensures lines[k].depth > lines[j + 1].depth { assert lines[k] == rest[k - 1]; }
  }

  lemma {:induction false} AllAreSafe(
    g: Graph, parent: Addr, targets: seq<Addr>, seen: set<Addr>, depth: nat, around: set<Addr>)
    requires around <= seen && Safe(g, seen - around)
    requires NothingCloses(PrintAll(g, parent, targets, seen, depth).lines, around)
    ensures var r := PrintAll(g, parent, targets, seen, depth);
      Safe(g, r.seen - around) && forall t <- targets :: t != NULL ==> t in r.seen - around
    decreases Left(g, seen), |targets|
  {
    hide Safe, NothingCloses, OnCycle, Print, PrintAll, Left;
    PrintAllSplit(g, parent, targets, seen, depth);
    if targets != [] {
      var first := Print(g, parent, targets[0], seen, depth);
      var rest := PrintAll(g, parent, targets[1..], first.seen, depth);
      NothingClosesInParts(first.lines, rest.lines, around);
      PrintIsSafe(g, parent, targets[0], seen, depth, around);
      AllAreSafe(g, parent, targets[1..], first.seen, depth, around);
      assert targets == [targets[0]] + targets[1..];
    }
  }

  lemma NothingClosesInParts(first: seq<Line>, rest: seq<Line>, around: set<Addr>)
    requires NothingCloses(first + rest, around)
    ensures NothingCloses(first, around) && NothingCloses(rest, around)
  {
    hide IsUnder;
    var lines, n := first + rest, |first|;
    forall i: nat ensures !ClosesUnder(first, around, i) {
      if ClosesUnder(first, around, i) {
        assert lines[i] == first[i] && !ClosesUnder(lines, around, i);
        var j: nat :| ClosesAt(first, j, i);
        UnderInWhole(first, rest, j, i);
      }
    }
    forall i: nat ensures !ClosesUnder(rest, around, i) {
      if ClosesUnder(rest, around, i) {
        assert lines[n + i] == rest[i] && !ClosesUnder(lines, around, n + i);
        var j: nat :| ClosesAt(rest, j, i);
        UnderInTail(first, rest, j, i);
      }
    }
  }

  lemma UnderInWhole(first: seq<Line>, rest: seq<Line>, j: nat, i: nat)
    requires ClosesAt(first, j, i)
    ensures ClosesAt(first + rest, j, i)
  {
    var lines := first + rest;
    forall k | j < k <= i ensures lines[k].depth > lines[j].depth { assert lines[k] == first[k]; }
  }

  lemma UnderInTail(first: seq<Line>, rest: seq<Line>, j: nat, i: nat)
    requires ClosesAt(rest, j, i)
    ensures ClosesAt(first + rest, |first| + j, |first| + i)
  {
    var lines, n := first + rest, |first|;
    forall k | n + j < k <= n + i ensures lines[k].depth > lines[n + j].depth { assert lines[k] == rest[k - n]; }
  }

  // ----- Both -----

  /** A root reaches a cycle if and only if some `<!seen>` line names an object that it is indented under. */
  lemma CyclePrintedIff(g: Graph, root: Addr)
    requires root != NULL
    ensures CyclePrinted(Walk(g, root).lines) <==> exists c :: Reaches(g, root, c) && OnCycle(g, c)
  {
    hide Print, Reaches, OnCycle;
    var lines := Walk(g, root).lines;
    if j: nat, i: nat :| ClosesAt(lines, j, i) {
      LineReached(g, NULL, root, {}, 0, j);
      UnderLeads(g, NULL, root, {}, 0, j, i);
      LeadsToItself(g, lines[j].addr);
    }
    if c :| Reaches(g, root, c) && OnCycle(g, c) {
      if !CyclePrinted(lines) {
        assert Safe(g, {} - {}) && NothingCloses(lines, {});
        PrintIsSafe(g, NULL, root, {}, 0, {});
        CycleIsNotNull(g, c);
        WalkSeesReachable(g, root, c);
      }
    }
  }

  lemma LeadsToItself(g: Graph, a: Addr)
    requires Leads(g, a, a)
    ensures OnCycle(g, a)
  {
    var t :| Edge(g, a, t) && Reaches(g, t, a);
    var p :| IsPath(g, p) && p[0] == t && p[|p| - 1] == a;
    assert IsPath(g, [a] + p);
  }

  lemma CycleIsNotNull(g: Graph, c: Addr)
    requires OnCycle(g, c)
    ensures c != NULL
  {
    var p :| IsPath(g, p) && |p| >= 2 && p[0] == c && p[|p| - 1] == c;
    assert Edge(g, p[|p| - 2], p[|p| - 2 + 1]);
  }
}
