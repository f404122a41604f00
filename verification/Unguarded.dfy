/** The objects printed without a cycle guard, and the measure that makes printing end all the same. */
module Unguarded {
  import opened Graphs
  import opened Heap
  import opened Sets
  import opened Wrappers

  // ----- Steps without a guard -----

  /** The repr of `a`, if it ends, throws in every state: a check of it or, `n` names away, of its name does. */
  predicate ThrowsIn(h: Heap, o: Options, a: Addr, n: nat)
    decreases n
  {
    && a != NULL && a in h
    && (HasThrowingCheck(o, h[a])
        || (n > 0 && o.isShort && h[a].Coroutine? && ThrowsIn(h, o, h[a].qualname, n - 1)))
  }

  ghost predicate Throws(h: Heap, o: Options, a: Addr) { exists n: nat :: ThrowsIn(h, o, a, n) }

  lemma NameThrows(h: Heap, o: Options, a: Addr)
    requires o.isShort && a in h && h[a].Coroutine? && Throws(h, o, a)
    ensures HasThrowingCheck(o, h[a]) || Throws(h, o, h[a].qualname)
  {
    var n: nat :| ThrowsIn(h, o, a, n);
    if !HasThrowingCheck(o, h[a]) { assert ThrowsIn(h, o, h[a].qualname, n - 1); }
  }

  lemma OwnCheckThrows(h: Heap, o: Options, a: Addr)
    ensures a != NULL && a in h && HasThrowingCheck(o, h[a]) ==> Throws(h, o, a)
  {
    assert a != NULL && a in h && HasThrowingCheck(o, h[a]) ==> ThrowsIn(h, o, a, 0);
  }

  lemma NameDoesNotThrow(h: Heap, o: Options, a: Addr)
    requires o.isShort && a != NULL && a in h && h[a].Coroutine? && !Throws(h, o, a)
    ensures !Throws(h, o, h[a].qualname)
  {
    if n: nat :| ThrowsIn(h, o, h[a].qualname, n) { assert ThrowsIn(h, o, a, n + 1); }
  }

  predicate PrintsUnguarded(h: Heap, o: Options, a: Addr) {
    a != NULL && a in h && PlanOf(h, o, true, h[a]).Bare?
  }

  /** What such an object visits: its `__dict__`, or its name and, unless the name's repr throws, its file name. */
  ghost function Steps(h: Heap, o: Options, a: Addr): seq<Addr>
    requires PrintsUnguarded(h, o, a)
  {
    match h[a]
    case User(_, attributes) => [attributes]
    case Coroutine(_, qualname, FrameAt(Some(file))) => if Throws(h, o, qualname) then [qualname] else [qualname, file]
    case Coroutine(_, qualname, _) => [qualname]
    case _ => []
  }

  ghost function StepGraph(h: Heap, o: Options): Graph {
    map a | a in h && PrintsUnguarded(h, o, a) :: Steps(h, o, a)
  }

  /** No object leads back to itself by steps without a guard. */
  ghost predicate Printable(h: Heap, o: Options) { forall c :: !OnCycle(StepGraph(h, o), c) }

  /** Long output takes such a step only from a user object to its dict, which is printed under a guard. */
  lemma LongOutputPrintable(h: Heap, o: Options)
    requires !o.isShort
    ensures Printable(h, o)
  {
    hide PlanOf;
    var g := StepGraph(h, o);
    forall c ensures !OnCycle(g, c) {
      if OnCycle(g, c) {
        var p :| IsPath(g, p) && |p| >= 2 && p[0] == c && p[|p| - 1] == c;
        assert Edge(g, p[0], p[1]);
        if |p| > 2 { assert Edge(g, p[1], p[2]); }
        LongStep(h, o, p[0], p[1]);
      }
    }
  }

  lemma LongStep(h: Heap, o: Options, a: Addr, b: Addr)
    requires !o.isShort && Edge(StepGraph(h, o), a, b)
    ensures b !in StepGraph(h, o)
  {
  }

  // ----- The measure -----

  /** The objects without a guard that `a` leads to, itself included. */
  ghost function Ahead(h: Heap, o: Options, a: Addr): set<Addr> {
    set b | b in StepGraph(h, o).Keys && Reaches(StepGraph(h, o), a, b)
  }

  ghost function Rank(h: Heap, o: Options, a: Addr): nat { |Ahead(h, o, a)| }

  /** One more than every rank. */
  function Top(h: Heap): nat { |h.Keys| + 1 }

  lemma RankBelowTop(h: Heap, o: Options, a: Addr)
    ensures Rank(h, o, a) < Top(h)
  {
    SubsetSize(Ahead(h, o, a), h.Keys);
  }

  lemma StepLowersRank(h: Heap, o: Options, a: Addr, b: Addr)
    requires Printable(h, o) && PrintsUnguarded(h, o, a) && b in Steps(h, o, a)
    ensures Rank(h, o, b) < Rank(h, o, a)
  {
    hide Steps, PlanOf, OnCycle;
    var g := StepGraph(h, o);
    ReachesSelf(g, a);
    if b == NULL {
      NothingAheadOfNull(h, o);
      assert a in Ahead(h, o, a);
    } else {
      assert Edge(g, a, b);
      forall c | c in Ahead(h, o, b) ensures c in Ahead(h, o, a) { StepReaches(g, a, b, c); }
      if a in Ahead(h, o, b) { ClosesCycle(g, a, b); }
      SmallerRest(Ahead(h, o, a), {}, a);
      SubsetSize(Ahead(h, o, b), Ahead(h, o, a) - {a});
    }
  }

  lemma ClosesCycle(g: Graph, a: Addr, b: Addr)
    requires Edge(g, a, b) && Reaches(g, b, a)
    ensures OnCycle(g, a)
  {
    var p :| IsPath(g, p) && p[0] == b && p[|p| - 1] == a;
    assert IsPath(g, [a] + p);
  }

  lemma NothingAheadOfNull(h: Heap, o: Options)
    ensures Ahead(h, o, NULL) == {}
  {
    hide PlanOf;
    var g := StepGraph(h, o);
    forall b | b in g.Keys ensures !Reaches(g, NULL, b) {
      if Reaches(g, NULL, b) {
        var p :| IsPath(g, p) && p[0] == NULL && p[|p| - 1] == b;
        NoPathFromNull(h, o, p);
      }
    }
  }

  lemma NoPathFromNull(h: Heap, o: Options, p: seq<Addr>)
    requires IsPath(StepGraph(h, o), p) && p[0] == NULL
    ensures |p| == 1
  {
    hide PlanOf;
    assert |p| > 1 ==> Edge(StepGraph(h, o), p[0], p[1]);
  }

  // ----- Bodies -----

  /** An operation after which the body certainly does not go on. */
  ghost predicate Doomed(h: Heap, o: Options, op: Op) {
    (op.Visit? && Throws(h, o, op.addr)) || (op.Throw? && op.fault != OutOfRange)
  }

  /** A body that certainly throws, and not `out_of_range`. */
  ghost predicate DoomedOps(h: Heap, o: Options, ops: seq<Op>) {
    ops != [] && (Doomed(h, o, ops[0]) || (ops[0].Visit? && DoomedOps(h, o, ops[1..])))
  }

  /** Every object the body gets to visit has a rank below `bound`. */
  ghost predicate Bounded(h: Heap, o: Options, bound: nat, ops: seq<Op>)
    decreases ops
  {
    ops == [] || (BoundedOp(h, o, bound, ops[0]) && (Doomed(h, o, ops[0]) || Bounded(h, o, bound, ops[1..])))
  }

  ghost predicate BoundedOp(h: Heap, o: Options, bound: nat, op: Op)
    decreases op
  {
    match op
    case Visit(a) => Rank(h, o, a) < bound
    case Indent(sub) => Bounded(h, o, bound, sub)
    case Try(_, sub) => Bounded(h, o, bound, sub)
    case LimitTo(_, sub) => Bounded(h, o, bound, sub)
    case Throw(_) => true
  }

  lemma {:induction false} AnyRank(h: Heap, o: Options, ops: seq<Op>)
    ensures Bounded(h, o, Top(h), ops)
    decreases ops
  {
    hide Rank, Doomed;
    if ops != [] {
      AnyRank(h, o, ops[1..]);
      match ops[0]
      case Visit(a) => RankBelowTop(h, o, a);
      case Indent(sub) => AnyRank(h, o, sub);
      case Try(_, sub) => AnyRank(h, o, sub);
      case LimitTo(_, sub) => AnyRank(h, o, sub);
      case Throw(_) =>
    }
  }

  /** What is printed without a guard gets to visit only objects of a lower rank. */
  lemma BareIsBounded(h: Heap, o: Options, root: bool, a: Addr)
    requires Printable(h, o) && a != NULL && a in h && PlanOf(h, o, root, h[a]).Bare?
    ensures Rank(h, o, a) > 0 && Bounded(h, o, Rank(h, o, a), PlanOf(h, o, root, h[a]).ops)
  {
    hide Printable, Rank, Doomed;
    var ops, bound := PlanOf(h, o, root, h[a]).ops, Rank(h, o, a);
    forall b | b in Steps(h, o, a) ensures Rank(h, o, b) < bound { StepLowersRank(h, o, a, b); }
    assert PrintsUnguarded(h, o, a) && Steps(h, o, a) != [];
    assert Steps(h, o, a)[0] in Steps(h, o, a);
    match h[a] {
      case User(_, attributes) => OneVisitBounded(h, o, bound, attributes);
      case Coroutine(_, qualname, frame) =>
        if frame.FrameAt? { WhereBounded(h, o, bound, qualname, frame.file); }
        if frame.FaultyFrame? { OneThrowBounded(h, o, bound, frame.fault); }
        assert ops[1..] == FrameRefOps(frame);
        assert Steps(h, o, a)[0] == qualname;
    }
  }

  lemma OneThrowBounded(h: Heap, o: Options, bound: nat, f: Fault)
    ensures Bounded(h, o, bound, [Throw(f)])
  {
    assert [Throw(f)][1..] == [];
  }

  lemma OneVisitBounded(h: Heap, o: Options, bound: nat, a: Addr)
    requires Rank(h, o, a) < bound
    ensures Bounded(h, o, bound, [Visit(a)])
  {
    assert [Visit(a)][1..] == [];
  }

  lemma WhereBounded(h: Heap, o: Options, bound: nat, qualname: Addr, file: Option<Addr>)
    requires file.Some? && !Throws(h, o, qualname) ==> Rank(h, o, file.value) < bound
    ensures Doomed(h, o, Visit(qualname)) || Bounded(h, o, bound, WhereOps(file))
  {
    hide Rank, Throws;
    if file.Some? && !Throws(h, o, qualname) { OneVisitBounded(h, o, bound, file.value); }
    if file.None? { assert [Throw(InvalidObject)][1..] == []; }
    assert WhereOps(file)[1..] == [];
  }
}
