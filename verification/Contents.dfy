/** What the repr of each kind of object shows, in terms of the fields of the object. */
module Contents {
  import opened Graphs
  import opened Heap
  import opened Positions
  import opened Traversal
  import opened TraversalProperties
  import opened Unguarded
  import opened Wrappers

  // ----- Bodies in parts -----

  /** A body that runs with more objects in progress than its call. */
  ghost function RunIn(h: Heap, o: Options, p: set<Addr>, d: int, m: int, ops: seq<Op>): Run
    requires Printable(h, o)
  {
    AnyRank(h, o, ops);
    EvalOps(h, o, p, d, m, Top(h), ops)
  }

  lemma RunsNothing(h: Heap, o: Options, p: set<Addr>, d: int, m: int)
    requires Printable(h, o)
    ensures RunIn(h, o, p, d, m, []) == Run([], None, m)
  {
  }

  lemma RunsFirst(h: Heap, o: Options, p: set<Addr>, d: int, m: int, op: Op, ops: seq<Op>)
    requires Printable(h, o)
    ensures BoundedOp(h, o, Top(h), op)
    ensures var first := EvalOp(h, o, p, d, m, Top(h), op);
      RunIn(h, o, p, d, m, [op] + ops)
      == if first.fault.Some? then first else Prefixed(first.trees, RunIn(h, o, p, d, first.limit, ops))
  {
    hide Eval, EvalOp, EvalOps, Bounded, BoundedOp, Printable, Rank, Throws, Top;
    assert ([op] + ops)[1..] == ops;
    AnyRank(h, o, [op] + ops);
    AnyRank(h, o, ops);
    OpsUnfold(h, o, p, d, m, Top(h), [op] + ops);
  }

  /** The second part of a body runs after the first, unless that throws. */
  lemma {:induction false} RunsBoth(h: Heap, o: Options, p: set<Addr>, d: int, m: int, xs: seq<Op>, ys: seq<Op>)
    requires Printable(h, o)
    ensures var first := RunIn(h, o, p, d, m, xs);
      RunIn(h, o, p, d, m, xs + ys)
      == if first.fault.Some? then first else Prefixed(first.trees, RunIn(h, o, p, d, first.limit, ys))
    decreases |xs|
  {
    hide Printable, RunIn, EvalOp, BoundedOp, Top;
    if xs == [] {
      RunsNothing(h, o, p, d, m);
      assert xs + ys == ys;
      assert forall run: Run :: [] + run.trees == run.trees;
    } else {
      assert xs + ys == [xs[0]] + (xs[1..] + ys) && xs == [xs[0]] + xs[1..];
      RunsFirst(h, o, p, d, m, xs[0], xs[1..] + ys);
      RunsFirst(h, o, p, d, m, xs[0], xs[1..]);
      var first := EvalOp(h, o, p, d, m, Top(h), xs[0]);
      if first.fault.None? {
        RunsBoth(h, o, p, d, first.limit, xs[1..], ys);
        var second := RunIn(h, o, p, d, first.limit, xs[1..]);
        PrefixedTwice(first.trees, second.trees, RunIn(h, o, p, d, second.limit, ys));
      }
    }
  }

  lemma RunsOne(h: Heap, o: Options, p: set<Addr>, d: int, m: int, op: Op)
    requires Printable(h, o)
    ensures BoundedOp(h, o, Top(h), op)
    ensures RunIn(h, o, p, d, m, [op]) == EvalOp(h, o, p, d, m, Top(h), op)
  {
    hide Printable, RunIn, EvalOp, BoundedOp, Top;
    RunsFirst(h, o, p, d, m, op, []);
    var first := EvalOp(h, o, p, d, m, Top(h), op);
    RunsNothing(h, o, p, d, first.limit);
    assert [op] + [] == [op] && first.trees + [] == first.trees;
  }

  /** Inside another object, a visit shows the object and keeps the limit. */
  lemma RunsVisit(h: Heap, o: Options, p: set<Addr>, d: int, m: int, a: Addr)
    requires Printable(h, o) && p != {}
    ensures RunIn(h, o, p, d, m, [Visit(a)])
         == match Eval(h, o, p, d, m, a).repr
            case Success(t) => Run([t], None, m)
            case Failure(f) => Run([], Some(f), m)
  {
    hide Eval, Printable, Rank, Throws, Top, RunIn;
    RunsOne(h, o, p, d, m, Visit(a));
    LimitIsKept(h, o, p, d, m, a);
  }

  lemma RunsIndented(h: Heap, o: Options, p: set<Addr>, d: int, m: int, ops: seq<Op>)
    requires Printable(h, o)
    ensures RunIn(h, o, p, d, m, [Indent(ops)]) == RunIn(h, o, p, d + 1, m, ops)
  {
    hide EvalOps, Eval, Printable, Rank, Throws, Top, Doomed;
    RunsOne(h, o, p, d, m, Indent(ops));
  }

  lemma RunsTried(h: Heap, o: Options, p: set<Addr>, d: int, m: int, keeps: bool, ops: seq<Op>)
    requires Printable(h, o)
    ensures var run := RunIn(h, o, p, d, m, ops);
      RunIn(h, o, p, d, m, [Try(keeps, ops)])
      == if run.fault.None? then run
         else Run((if keeps then run.trees else []) + [Mark(NULL, Caught(run.fault.value))], None, run.limit)
  {
    hide EvalOps, Eval, Printable, Rank, Throws, Top, Doomed;
    RunsOne(h, o, p, d, m, Try(keeps, ops));
  }

  lemma RunsThrow(h: Heap, o: Options, p: set<Addr>, d: int, m: int, f: Fault)
    requires Printable(h, o)
    ensures RunIn(h, o, p, d, m, [Throw(f)]) == Run([], Some(f), m)
  {
    hide EvalOps, Eval, Printable, Rank, Throws, Top, Doomed, RunIn;
    RunsOne(h, o, p, d, m, Throw(f));
  }

  lemma RunsLimited(h: Heap, o: Options, p: set<Addr>, d: int, m: int, limit: int, ops: seq<Op>)
    requires Printable(h, o)
    ensures var run := RunIn(h, o, p, d, limit, ops);
      RunIn(h, o, p, d, m, [LimitTo(limit, ops)]) == if run.fault.None? then run.(limit := m) else run
  {
    hide EvalOps, Eval, Printable, Rank, Throws, Top, Doomed;
    RunsOne(h, o, p, d, m, LimitTo(limit, ops));
  }

  // ----- Lists of nested reprs -----

  /** The reprs of the addresses, one for each, in order, up to the first that throws. */
  ghost predicate Printed(
    h: Heap, o: Options, p: set<Addr>, d: int, m: int, addrs: seq<Addr>, trees: seq<Tree>, fault: Option<Fault>)
    requires Printable(h, o)
  {
    && |trees| <= |addrs|
    && (forall i | 0 <= i < |trees| :: Eval(h, o, p, d, m, addrs[i]).repr == Success(trees[i]))
    && (if |trees| == |addrs| then fault == None
        else fault.Some? && Eval(h, o, p, d, m, addrs[|trees|]).repr == Failure(fault.value))
  }

  /** The loops of the repr bodies: one nested repr for each address, in order, until one throws. */
  lemma {:induction false} VisitsPrintEach(h: Heap, o: Options, p: set<Addr>, d: int, m: int, addrs: seq<Addr>)
    requires Printable(h, o) && p != {}
    ensures var run := RunIn(h, o, p, d, m, Visits(addrs));
      Printed(h, o, p, d, m, addrs, run.trees, run.fault) && run.limit == m
    decreases |addrs|
  {
    hide Printable, RunIn, Eval, Top;
    if addrs == [] {
      RunsNothing(h, o, p, d, m);
    } else {
      VisitsPrintEach(h, o, p, d, m, addrs[1..]);
      assert Visits(addrs) == [Visit(addrs[0])] + Visits(addrs[1..]);
      RunsBoth(h, o, p, d, m, [Visit(addrs[0])], Visits(addrs[1..]));
      RunsVisit(h, o, p, d, m, addrs[0]);
    }
  }

  /** The object is expanded, with exactly these objects inside it; if one of them throws, so does the call. */
  ghost predicate Expanded(
    h: Heap, o: Options, p: set<Addr>, d: int, m: int, a: Addr, indents: bool, addrs: seq<Addr>)
    requires Printable(h, o)
  {
    var out, depth := Eval(h, o, p, d, m, a), if indents then d + 1 else d;
    && out.limit == m
    && match out.repr
       case Success(t) =>
         t.Node? && t.addr == a && t.indents == indents && Printed(h, o, p + {a}, depth, m, addrs, t.children, None)
       case Failure(f) => exists trees :: Printed(h, o, p + {a}, depth, m, addrs, trees, Some(f))
  }

  /** The call is not stopped by a guard: the object is not in progress, and the depth limit is not reached. */
  predicate Free(h: Heap, p: set<Addr>, d: int, m: int, a: Addr) {
    a != NULL && a in h && a !in p && (m < 0 || d < m)
  }

  /** A body under its guards, and how the call ends. */
  lemma GuardedRun(h: Heap, o: Options, p: set<Addr>, d: int, m: int, a: Addr)
    requires Printable(h, o) && Free(h, p, d, m, a) && PlanOf(h, o, p == {}, h[a]).Guarded?
    ensures var Guarded(_, indents, ops) := PlanOf(h, o, p == {}, h[a]);
      var run := RunIn(h, o, p + {a}, if indents then d + 1 else d, m, ops);
      Eval(h, o, p, d, m, a) == match run.fault
        case None => Outcome(Success(Node(a, indents, run.trees)), run.limit)
        case Some(OutOfRange) => Outcome(Success(Mark(a, InvalidAddr)), run.limit)
        case Some(f) => Outcome(Failure(f), run.limit)
  {
    hide EvalOps, Eval, Printable, Rank, Throws, Top, Bounded, PlanOf;
    PlanKinds(h, o, p == {}, a);
    EvalEntry(h, o, p, d, m, a);
  }

  lemma NoThrowOutOfRange(h: Heap, o: Options, p: set<Addr>, d: int, m: int, a: Addr)
    requires Printable(h, o)
    ensures Eval(h, o, p, d, m, a).repr != Failure(OutOfRange)
  {
    hide Printable;
  }

  lemma PrintedFault(
    h: Heap, o: Options, p: set<Addr>, d: int, m: int, addrs: seq<Addr>, trees: seq<Tree>, fault: Option<Fault>)
    requires Printable(h, o) && Printed(h, o, p, d, m, addrs, trees, fault)
    ensures fault != Some(OutOfRange)
  {
    hide Printable, Eval;
    if |trees| < |addrs| { NoThrowOutOfRange(h, o, p, d, m, addrs[|trees|]); }
  }

  lemma GuardedContents(
    h: Heap, o: Options, p: set<Addr>, d: int, m: int, a: Addr, checkFirst: bool, indents: bool, addrs: seq<Addr>)
    requires Printable(h, o) && Free(h, p, d, m, a)
    requires PlanOf(h, o, p == {}, h[a]) == Guarded(checkFirst, indents, Visits(addrs))
    ensures Expanded(h, o, p, d, m, a, indents, addrs)
  {
    hide RunIn, Eval, Printable, Visits, PlanOf, Printed;
    var depth := if indents then d + 1 else d;
    GuardedRun(h, o, p, d, m, a);
    VisitsPrintEach(h, o, p + {a}, depth, m, addrs);
    var run := RunIn(h, o, p + {a}, depth, m, Visits(addrs));
    PrintedFault(h, o, p + {a}, depth, m, addrs, run.trees, run.fault);
  }

  // ----- Containers -----

  /** How many entries a container shows. */
  function ShownCount(n: nat, max: int): nat { if 0 <= max < n then max else n }

  /** An expanded tuple or list shows its items in order, up to the entry limit; only a tuple indents them. */
  lemma SequenceContents(h: Heap, o: Options, p: set<Addr>, d: int, m: int, a: Addr)
    requires Printable(h, o) && Free(h, p, d, m, a)
    requires h[a].Tuple? || (h[a].List? && h[a].items != [])
    ensures Expanded(h, o, p, d, m, a, h[a].Tuple?, h[a].items[..ShownCount(|h[a].items|, o.maxEntries)])
  {
    hide Eval, Printable, Expanded, Visits;
    var shown := h[a].items[..ShownCount(|h[a].items|, o.maxEntries)];
    assert shown == Shown(h[a].items, o.maxEntries);
    GuardedContents(h, o, p, d, m, a, true, h[a].Tuple?, shown);
  }

  /** Exactly the positions of the non-null addresses, in increasing order. */
  ghost predicate NonNullAt(addrs: seq<Addr>, idx: seq<nat>) {
    Ascending(idx) && forall i: nat :: i in idx <==> i < |addrs| && addrs[i] != 0
  }

  lemma NonNullFront(addrs: seq<Addr>)
    requires addrs != []
    ensures NonNull(addrs) == (if addrs[0] != 0 then [addrs[0]] else []) + NonNull(addrs[1..])
  {
  }

  lemma {:induction false} NonNullPositions(addrs: seq<Addr>) returns (idx: seq<nat>)
    ensures forall i <- idx :: i < |addrs|
    ensures NonNullAt(addrs, idx) && NonNull(addrs) == Picked(addrs, idx)
  {
    idx := [];
    if addrs != [] {
      hide NonNull, Picked;
      var rest := NonNullPositions(addrs[1..]);
      NonNullFront(addrs);
      idx := Shifted(addrs[0] != NULL, rest);
      PickedShifted(addrs, addrs[0] != NULL, rest, idx);
    }
  }

  /** An expanded set shows the non-null entries of its table, in table order, up to the entry limit. */
  lemma SetContents(h: Heap, o: Options, p: set<Addr>, d: int, m: int, a: Addr) returns (idx: seq<nat>)
    requires Printable(h, o) && Free(h, p, d, m, a) && h[a].Set?
    ensures NonNullAt(h[a].table, idx)
    ensures Expanded(h, o, p, d, m, a, true, Picked(h[a].table, idx)[..ShownCount(|idx|, o.maxEntries)])
  {
    hide Eval, Printable, Expanded, Visits, NonNullAt;
    idx := NonNullPositions(h[a].table);
    assert NonNullAt(h[a].table, idx);
    var items := NonNull(h[a].table);
    var shown := items[..ShownCount(|items|, o.maxEntries)];
    assert shown == Shown(items, o.maxEntries);
    GuardedContents(h, o, p, d, m, a, true, true, shown);
  }

  /** The first and the second component of each pair in turn. */
  function Alternating(pairs: seq<(Addr, Addr)>): seq<Addr> {
    seq<Addr>(2 * |pairs|, k requires 0 <= k < 2 * |pairs| => if k % 2 == 0 then pairs[k / 2].0 else pairs[k / 2].1)
  }

  lemma AlternatingFront(first: (Addr, Addr), rest: seq<(Addr, Addr)>)
    ensures Alternating([first] + rest) == [first.0, first.1] + Alternating(rest)
  {
  }

  /** The key and the value of each entry, and a pair of nulls in place of an unreadable one. */
  function Entries(pairs: seq<Option<(Addr, Addr)>>): (r: seq<(Addr, Addr)>)
    ensures |r| == |pairs|
  {
    seq<(Addr, Addr)>(|pairs|, i requires 0 <= i < |pairs| => if pairs[i].Some? then pairs[i].value else (0, 0))
  }

  /** Exactly the positions of the readable entries among the first `n`. */
  ghost predicate ReadableAt(pairs: seq<Option<(Addr, Addr)>>, n: nat, idx: seq<nat>)
    requires n <= |pairs|
  {
    Ascending(idx) && forall i: nat :: i in idx <==> i < n && pairs[i].Some?
  }

  lemma {:induction false} PairAddrsAlternate(pairs: seq<Option<(Addr, Addr)>>) returns (idx: seq<nat>)
    ensures ReadableAt(pairs, |pairs|, idx) && (forall i <- idx :: i < |pairs|)
    ensures PairAddrs(pairs) == Alternating(Picked(Entries(pairs), idx))
  {
    hide Alternating, Picked, PairAddrs;
    idx := [];
    if pairs == [] {
      NoPairs(pairs);
    } else {
      var rest := PairAddrsAlternate(pairs[1..]);
      var tail := Picked(Entries(pairs[1..]), rest);
      idx := Shifted(pairs[0].Some?, rest);
      assert Entries(pairs)[1..] == Entries(pairs[1..]);
      PickedShifted(Entries(pairs), pairs[0].Some?, rest, idx);
      PairsFront(pairs);
      if pairs[0].Some? {
        AlternatingFront(pairs[0].value, tail);
      } else {
        assert [] + tail == tail && [] + PairAddrs(pairs[1..]) == PairAddrs(pairs[1..]);
      }
    }
  }

  lemma PairsFront(pairs: seq<Option<(Addr, Addr)>>)
    requires pairs != []
    ensures PairAddrs(pairs)
         == (match pairs[0] case Some(e) => [e.0, e.1] case None => []) + PairAddrs(pairs[1..])
  {
  }

  lemma NoPairs(pairs: seq<Option<(Addr, Addr)>>)
    requires pairs == []
    ensures PairAddrs(pairs) == Alternating(Picked(Entries(pairs), []))
  {
  }

  /** An expanded dict shows the key and the value of each readable entry, in slot order, up to the entry limit. */
  lemma DictContents(h: Heap, o: Options, p: set<Addr>, d: int, m: int, a: Addr) returns (idx: seq<nat>)
    requires Printable(h, o) && Free(h, p, d, m, a) && h[a].Dict?
    ensures ReadableAt(h[a].pairs, ShownCount(|h[a].pairs|, o.maxEntries), idx)
    ensures Expanded(h, o, p, d, m, a, true, Alternating(Picked(Entries(h[a].pairs), idx)))
  {
    hide Eval, Printable, Expanded, PairAddrs, Visits, Alternating;
    var shown := h[a].pairs[..ShownCount(|h[a].pairs|, o.maxEntries)];
    assert shown == Shown(h[a].pairs, o.maxEntries);
    idx := PairAddrsAlternate(shown);
    PickedPrefix(Entries(shown), Entries(h[a].pairs), idx);
    GuardedContents(h, o, p, d, m, a, false, true, PairAddrs(shown));
  }

  /** An expanded cell shows its reference, also a null one. */
  lemma CellContents(h: Heap, o: Options, p: set<Addr>, d: int, m: int, a: Addr)
    requires Printable(h, o) && Free(h, p, d, m, a) && h[a].Cell?
    ensures Expanded(h, o, p, d, m, a, true, [h[a].ref])
  {
    hide Eval, Printable, Expanded;
    assert Visits([h[a].ref]) == [Visit(h[a].ref)];
    GuardedContents(h, o, p, d, m, a, true, true, [h[a].ref]);
  }

  /** An expanded code object shows its name and file name and, as root, its other fields. */
  lemma CodeContents(h: Heap, o: Options, p: set<Addr>, d: int, m: int, a: Addr)
    requires Printable(h, o) && Free(h, p, d, m, a) && h[a].Code?
    ensures Expanded(
      h, o, p, d, m, a, true, [h[a].name, h[a].filename] + (if p == {} then h[a].rootFields else []))
  {
    hide Eval, Printable, Expanded, Visits;
    GuardedContents(
      h, o, p, d, m, a, true, true, [h[a].name, h[a].filename] + (if p == {} then h[a].rootFields else []));
  }

  // ----- Futures, tasks and generators -----

  function AddrsOf(fields: seq<Field>): (r: seq<Addr>)
    ensures |r| == |fields|
  {
    seq<Addr>(|fields|, i requires 0 <= i < |fields| => fields[i].addr)
  }

  /** Exactly the positions of the non-null fields, in short output of those that it shows. */
  ghost predicate ShownAt(fields: seq<Field>, isShort: bool, idx: seq<nat>) {
    && Ascending(idx)
    && forall i: nat :: i in idx <==> i < |fields| && fields[i].addr != 0 && (isShort ==> fields[i].inShort)
  }

  lemma FieldsFront(fields: seq<Field>, isShort: bool)
    requires fields != []
    ensures FieldAddrs(fields, isShort)
         == (if fields[0].addr != 0 && (isShort ==> fields[0].inShort) then [fields[0].addr] else [])
            + FieldAddrs(fields[1..], isShort)
  {
  }

  lemma {:induction false} FieldPositions(fields: seq<Field>, isShort: bool) returns (idx: seq<nat>)
    ensures forall i <- idx :: i < |fields|
    ensures ShownAt(fields, isShort, idx) && FieldAddrs(fields, isShort) == Picked(AddrsOf(fields), idx)
  {
    idx := [];
    if fields != [] {
      hide FieldAddrs, Picked;
      var rest := FieldPositions(fields[1..], isShort);
      var shown := fields[0].addr != NULL && (isShort ==> fields[0].inShort);
      FieldsFront(fields, isShort);
      idx := Shifted(shown, rest);
      assert AddrsOf(fields)[1..] == AddrsOf(fields[1..]);
      PickedShifted(AddrsOf(fields), shown, rest, idx);
    }
  }

  /** An expanded future shows its non-null fields, in short output of these only the ones marked for it. */
  lemma FutureContents(h: Heap, o: Options, p: set<Addr>, d: int, m: int, a: Addr) returns (idx: seq<nat>)
    requires Printable(h, o) && Free(h, p, d, m, a) && h[a].Future?
    ensures ShownAt(h[a].fields, o.isShort, idx)
    ensures Expanded(h, o, p, d, m, a, true, Picked(AddrsOf(h[a].fields), idx))
  {
    hide Eval, Printable, Expanded, Visits, ShownAt, FieldAddrs;
    idx := FieldPositions(h[a].fields, o.isShort);
    assert ShownAt(h[a].fields, o.isShort, idx);
    GuardedContents(h, o, p, d, m, a, true, true, FieldAddrs(h[a].fields, o.isShort));
  }

  /** An expanded task shows these fields and its coroutine, in long output also what it waits for, name and context. */
  lemma TaskContents(h: Heap, o: Options, p: set<Addr>, d: int, m: int, a: Addr) returns (idx: seq<nat>)
    requires Printable(h, o) && Free(h, p, d, m, a) && h[a].Task?
    ensures ShownAt(h[a].fields, o.isShort, idx)
    ensures Expanded(h, o, p, d, m, a, true, Picked(AddrsOf(h[a].fields), idx)
      + (if o.isShort then [h[a].coro] else [h[a].coro, h[a].waiter, h[a].taskName, h[a].context]))
  {
    hide Eval, Printable, Expanded, Visits, ShownAt, FieldAddrs;
    idx := FieldPositions(h[a].fields, o.isShort);
    assert ShownAt(h[a].fields, o.isShort, idx);
    var fields := FieldAddrs(h[a].fields, o.isShort);
    var more := if o.isShort then [] else [h[a].waiter, h[a].taskName, h[a].context];
    assert fields + [h[a].coro] + more
        == fields + (if o.isShort then [h[a].coro] else [h[a].coro, h[a].waiter, h[a].taskName, h[a].context]);
    GuardedContents(h, o, p, d, m, a, true, true, fields + [h[a].coro] + more);
  }

  /** An expanded generator, or a coroutine in long output, shows its non-null fields. */
  lemma GeneratorContents(h: Heap, o: Options, p: set<Addr>, d: int, m: int, a: Addr) returns (idx: seq<nat>)
    requires Printable(h, o) && Free(h, p, d, m, a) && (h[a].Generator? || (h[a].Coroutine? && !o.isShort))
    ensures NonNullAt(h[a].genFields, idx)
    ensures Expanded(h, o, p, d, m, a, true, Picked(h[a].genFields, idx))
  {
    hide Eval, Printable, Expanded, Visits, NonNullAt, NonNull;
    idx := NonNullPositions(h[a].genFields);
    assert NonNullAt(h[a].genFields, idx);
    GuardedContents(h, o, p, d, m, a, true, true, NonNull(h[a].genFields));
  }

  /** What a caught list of nested reprs leaves: its own trees, or those before the exception and a marker. */
  function WithMarker(trees: seq<Tree>, fault: Option<Fault>): seq<Tree> {
    if fault.None? then trees else trees + [Mark(0, Caught(fault.value))]
  }

  /**
   * An expanded gathering future shows the fields of a future and, in long output, its children in order; an exception
   * among the children, or while finding them, ends them with a marker and is not passed on.
   */
  lemma GatheringContents(h: Heap, o: Options, p: set<Addr>, d: int, m: int, a: Addr)
    returns (idx: seq<nat>, fields: seq<Tree>, fault: Option<Fault>, children: seq<Tree>, caught: Option<Fault>)
    requires Printable(h, o) && Free(h, p, d, m, a) && h[a].Gathering?
    ensures ShownAt(h[a].fields, o.isShort, idx)
    ensures Printed(h, o, p + {a}, d + 1, m, Picked(AddrsOf(h[a].fields), idx), fields, fault)
    ensures if o.isShort then children == [] && caught == None
      else match h[a].children
           case None => children == [] && caught == Some(RuntimeError)
           case Some(cs) => Printed(h, o, p + {a}, d + 1, m, cs, children, caught)
    ensures Eval(h, o, p, d, m, a) == match fault
      case Some(f) => Outcome(Failure(f), m)
      case None => Outcome(Success(Node(a, true, fields + WithMarker(children, caught))), m)
  {
    hide RunIn, Eval, Printable, Visits, Printed, ShownAt, FieldAddrs;
    var q := p + {a};
    GuardedRun(h, o, p, d, m, a);
    idx := FieldPositions(h[a].fields, o.isShort);
    assert ShownAt(h[a].fields, o.isShort, idx);
    var addrs := Picked(AddrsOf(h[a].fields), idx);
    VisitsPrintEach(h, o, q, d + 1, m, addrs);
    var first := RunIn(h, o, q, d + 1, m, Visits(addrs));
    fields, fault := first.trees, first.fault;
    PrintedFault(h, o, q, d + 1, m, addrs, fields, fault);
    children, caught := [], None;
    if o.isShort {
      assert Visits(addrs) + [] == Visits(addrs) && fields + [] == fields;
    } else {
      var sub := match h[a].children case Some(cs) => Visits(cs) case None => [Throw(RuntimeError)];
      RunsBoth(h, o, q, d + 1, m, Visits(addrs), [Try(true, sub)]);
      RunsTried(h, o, q, d + 1, m, true, sub);
      match h[a].children {
        case Some(cs) => VisitsPrintEach(h, o, q, d + 1, m, cs);
        case None => RunsThrow(h, o, q, d + 1, m, RuntimeError);
      }
      var second := RunIn(h, o, q, d + 1, m, sub);
      children, caught := second.trees, second.fault;
    }
  }

  // ----- Frames -----

  /** The file name of a frame's code, or a marker for whatever was thrown on the way. */
  ghost function WhereTree(h: Heap, o: Options, p: set<Addr>, d: int, m: int, file: Option<Addr>): Tree
    requires Printable(h, o)
  {
    match file
    case None => Mark(0, Caught(InvalidObject))
    case Some(name) => match Eval(h, o, p, d, m, name).repr
      case Success(t) => t
      case Failure(f) => Mark(0, Caught(f))
  }

  lemma WhereRun(h: Heap, o: Options, p: set<Addr>, d: int, m: int, file: Option<Addr>)
    requires Printable(h, o) && p != {}
    ensures RunIn(h, o, p, d, m, WhereOps(file)) == Run([WhereTree(h, o, p, d, m, file)], None, m)
  {
    hide RunIn, Eval, Printable;
    var sub := match file case Some(f) => [Visit(f)] case None => [Throw(InvalidObject)];
    RunsTried(h, o, p, d, m, false, sub);
    match file
    case Some(name) => RunsVisit(h, o, p, d, m, name);
    case None => RunsThrow(h, o, p, d, m, InvalidObject);
  }

  lemma {:induction false} VariablesAlternate(vars: seq<(Addr, Addr)>)
    ensures VariableAddrs(vars) == Alternating(vars)
  {
    if vars != [] {
      VariablesAlternate(vars[1..]);
      AlternatingFront(vars[0], vars[1..]);
      assert vars == [vars[0]] + vars[1..];
    }
  }

  /** What the variables of a frame leave: their reprs, or a marker alone if one throws or they are unreadable. */
  ghost predicate VariablesShown(
    h: Heap, o: Options, p: set<Addr>, d: int, m: int, variables: Option<seq<(Addr, Addr)>>, trees: seq<Tree>)
    requires Printable(h, o)
  {
    match variables
    case None => trees == [Mark(0, Caught(InvalidObject))]
    case Some(vs) =>
      || Printed(h, o, p, d, m, Alternating(vs), trees, None)
      || exists before, f :: Printed(h, o, p, d, m, Alternating(vs), before, Some(f)) && trees == [Mark(0, Caught(f))]
  }

  lemma VariablesRun(h: Heap, o: Options, p: set<Addr>, d: int, m: int, variables: Option<seq<(Addr, Addr)>>)
    requires Printable(h, o) && p != {}
    ensures var ops := match variables
        case Some(vs) => [Indent(Visits(VariableAddrs(vs)))]
        case None => [Throw(InvalidObject)];
      var run := RunIn(h, o, p, d, m, [Try(false, ops)]);
      run.fault == None && run.limit == m && VariablesShown(h, o, p, d + 1, m, variables, run.trees)
  {
    hide RunIn, Eval, Printable, Visits, Printed, VariableAddrs;
    match variables {
      case Some(vs) =>
        VariablesAlternate(vs);
        var ops := [Indent(Visits(VariableAddrs(vs)))];
        RunsTried(h, o, p, d, m, false, ops);
        RunsIndented(h, o, p, d, m, Visits(VariableAddrs(vs)));
        VisitsPrintEach(h, o, p, d + 1, m, Alternating(vs));
      case None =>
        RunsTried(h, o, p, d, m, false, [Throw(InvalidObject)]);
        RunsThrow(h, o, p, d, m, InvalidObject);
    }
  }

  /**
   * An expanded frame shows where it is, in long output its fields, and unless they are omitted its variables, each name
   * before its value and one depth deeper. Only an exception from a field is passed on.
   */
  lemma FrameContents(h: Heap, o: Options, p: set<Addr>, d: int, m: int, a: Addr)
    returns (fields: seq<Tree>, fault: Option<Fault>, variables: seq<Tree>)
    requires Printable(h, o) && Free(h, p, d, m, a) && h[a].Frame?
    ensures if o.isShort then fields == [] && fault == None
      else Printed(
        h, o, p + {a}, d + 1, m,
        (if o.frameOmitBack then [] else [h[a].back]) + [h[a].code, h[a].locals, h[a].trace, h[a].gen], fields, fault)
    ensures if o.isShort || o.frameOmitLocals then variables == []
      else VariablesShown(h, o, p + {a}, d + 2, m, h[a].variables, variables)
    ensures Eval(h, o, p, d, m, a) == match fault
      case Some(f) => Outcome(Failure(f), m)
      case None =>
        Outcome(Success(Node(a, true, [WhereTree(h, o, p + {a}, d + 1, m, h[a].where)] + fields + variables)), m)
  {
    hide RunIn, Eval, Printable, Visits, Printed, VariablesShown, WhereTree, WhereOps;
    var q, f := p + {a}, h[a];
    GuardedRun(h, o, p, d, m, a);
    fields, fault, variables := [], None, [];
    WhereRun(h, o, q, d + 1, m, f.where);
    var place := WhereTree(h, o, q, d + 1, m, f.where);
    if o.isShort {
      assert WhereOps(f.where) + [] == WhereOps(f.where) && [place] + [] + [] == [place];
    } else {
      var addrs := (if o.frameOmitBack then [] else [f.back]) + [f.code, f.locals, f.trace, f.gen];
      var ops := match f.variables
        case Some(vs) => [Indent(Visits(VariableAddrs(vs)))]
        case None => [Throw(InvalidObject)];
      var last := if o.frameOmitLocals then [] else [Try(false, ops)];
      assert FrameOps(f, o) == WhereOps(f.where) + (Visits(addrs) + last);
      RunsBoth(h, o, q, d + 1, m, WhereOps(f.where), Visits(addrs) + last);
      RunsBoth(h, o, q, d + 1, m, Visits(addrs), last);
      VisitsPrintEach(h, o, q, d + 1, m, addrs);
      var run := RunIn(h, o, q, d + 1, m, Visits(addrs));
      fields, fault := run.trees, run.fault;
      PrintedFault(h, o, q, d + 1, m, addrs, fields, fault);
      if o.frameOmitLocals {
        RunsNothing(h, o, q, d + 1, m);
      } else {
        VariablesRun(h, o, q, d + 1, m, f.variables);
        variables := RunIn(h, o, q, d + 1, m, last).trees;
      }
      assert [place] + (fields + variables) == [place] + fields + variables;
    }
  }

  // ----- Objects that are expanded as root, and names -----

  /** An expanded type object shows its base, its dict under the limit 2 and the others; a dict that throws leaves it. */
  lemma TypeContents(h: Heap, o: Options, d: int, m: int, a: Addr) returns (others: seq<Tree>, fault: Option<Fault>)
    requires Printable(h, o) && Free(h, {}, d, m, a) && h[a].Type?
    ensures Printed(h, o, {a}, d + 1, m, h[a].others, others, fault)
    ensures var base, dict := Eval(h, o, {a}, d + 1, m, h[a].base).repr, Eval(h, o, {a}, d + 1, 2, h[a].dict).repr;
      Eval(h, o, {}, d, m, a)
      == if base.Failure? then Outcome(base, m)
         else if dict.Failure? then Outcome(dict, 2)
         else if fault.Some? then Outcome(Failure(fault.value), m)
         else Outcome(Success(Node(a, true, [base.value, dict.value] + others)), m)
  {
    hide RunIn, Eval, Printable, Visits, Printed;
    var Type(base, dict, rest) := h[a];
    GuardedRun(h, o, {}, d, m, a);
    assert {} + {a} == {a};
    var limited := [LimitTo(2, [Visit(dict)])];
    assert [Visit(base), LimitTo(2, [Visit(dict)])] + Visits(rest) == [Visit(base)] + (limited + Visits(rest));
    RunsBoth(h, o, {a}, d + 1, m, [Visit(base)], limited + Visits(rest));
    RunsBoth(h, o, {a}, d + 1, m, limited, Visits(rest));
    RunsVisit(h, o, {a}, d + 1, m, base);
    RunsLimited(h, o, {a}, d + 1, m, 2, [Visit(dict)]);
    RunsVisit(h, o, {a}, d + 1, 2, dict);
    VisitsPrintEach(h, o, {a}, d + 1, m, rest);
    var run := RunIn(h, o, {a}, d + 1, m, Visits(rest));
    others, fault := run.trees, run.fault;
    PrintedFault(h, o, {a}, d + 1, m, rest, others, fault);
    NoThrowOutOfRange(h, o, {a}, d + 1, m, base);
    NoThrowOutOfRange(h, o, {a}, d + 1, 2, dict);
    assert forall b: Tree, t: Tree :: [b] + ([t] + others) == [b, t] + others;
  }

  /** The objects in the slots before the first unreadable one, which is slot `n` or none. */
  ghost predicate ReadableSlots(slots: seq<Option<Addr>>, n: nat, addrs: seq<Addr>) {
    && n == |addrs| <= |slots|
    && (forall i | 0 <= i < n :: slots[i] == Some(addrs[i]))
    && (n < |slots| ==> slots[n].None?)
  }

  lemma SlotsFront(slots: seq<Option<Addr>>)
    requires slots != []
    ensures SlotOps(slots) == (match slots[0] case Some(a) => [Visit(a)] case None => [Throw(OutOfRange)])
      + SlotOps(slots[1..])
  {
  }

  lemma ReadableFront(a: Addr, slots: seq<Option<Addr>>, n: nat, addrs: seq<Addr>)
    requires ReadableSlots(slots, n, addrs)
    ensures ReadableSlots([Some(a)] + slots, n + 1, [a] + addrs)
  {
  }

  lemma PrintedFront(
    h: Heap, o: Options, p: set<Addr>, d: int, m: int, a: Addr, addrs: seq<Addr>, trees: seq<Tree>, fault: Option<Fault>)
    requires Printable(h, o) && Printed(h, o, p, d, m, addrs, trees, fault)
    ensures match Eval(h, o, p, d, m, a).repr
      case Success(t) => Printed(h, o, p, d, m, [a] + addrs, [t] + trees, fault)
      case Failure(f) => Printed(h, o, p, d, m, [a] + addrs, [], Some(f))
  {
    hide Eval, Printable;
  }

  lemma {:induction false} SlotsRun(h: Heap, o: Options, p: set<Addr>, d: int, m: int, slots: seq<Option<Addr>>)
    returns (n: nat, addrs: seq<Addr>, fault: Option<Fault>)
    requires Printable(h, o) && p != {}
    ensures ReadableSlots(slots, n, addrs)
    ensures var run := RunIn(h, o, p, d, m, SlotOps(slots));
      && Printed(h, o, p, d, m, addrs, run.trees, fault) && run.limit == m
      && run.fault == if fault.None? && n < |slots| then Some(OutOfRange) else fault
    decreases |slots|
  {
    hide RunIn, Eval, Printable, Top, SlotOps, ReadableSlots, Printed;
    n, addrs, fault := 0, [], None;
    if slots == [] {
      NoSlots(h, o, p, d, m);
    } else if slots[0].None? {
      SlotsFront(slots);
      NothingReadable(h, o, p, d, m, slots);
      RunsBoth(h, o, p, d, m, [Throw(OutOfRange)], SlotOps(slots[1..]));
      RunsThrow(h, o, p, d, m, OutOfRange);
    } else {
      var a := slots[0].value;
      SlotsFront(slots);
      n, addrs, fault := SlotsRun(h, o, p, d, m, slots[1..]);
      assert slots == [Some(a)] + slots[1..];
      ReadableFront(a, slots[1..], n, addrs);
      PrintedFront(h, o, p, d, m, a, addrs, RunIn(h, o, p, d, m, SlotOps(slots[1..])).trees, fault);
      n, addrs := n + 1, [a] + addrs;
      RunsBoth(h, o, p, d, m, [Visit(a)], SlotOps(slots[1..]));
      RunsVisit(h, o, p, d, m, a);
      var first := Eval(h, o, p, d, m, a).repr;
      if first.Failure? { fault := Some(first.fault); }
    }
  }

  lemma NoSlots(h: Heap, o: Options, p: set<Addr>, d: int, m: int)
    requires Printable(h, o)
    ensures RunIn(h, o, p, d, m, SlotOps([])) == Run([], None, m)
    ensures ReadableSlots([], 0, []) && Printed(h, o, p, d, m, [], [], None)
  {
    hide RunIn, Eval, Printable;
    RunsNothing(h, o, p, d, m);
  }

  lemma NothingReadable(h: Heap, o: Options, p: set<Addr>, d: int, m: int, slots: seq<Option<Addr>>)
    requires Printable(h, o) && slots != [] && slots[0].None?
    ensures ReadableSlots(slots, 0, []) && Printed(h, o, p, d, m, [], [], None)
  {
    hide Eval, Printable;
  }

  /** How a root user object with slots is printed: with nothing in it if a slot cannot be read. */
  lemma SlotsEntry(h: Heap, o: Options, d: int, m: int, a: Addr)
    requires Printable(h, o) && a != NULL && a in h && h[a].User? && h[a].slots != [] && DictTyped(h, h[a].attributes)
    ensures var ops := SlotOps(h[a].slots)
        + (if h[a].attributes == NULL then [] else [Indent([Visit(h[a].attributes)])]);
      var run := RunIn(h, o, {a}, d, m, ops);
      Eval(h, o, {}, d, m, a) == match run.fault
        case None => Outcome(Success(Node(a, false, run.trees)), run.limit)
        case Some(OutOfRange) => Outcome(Success(Node(a, false, [])), run.limit)
        case Some(f) => Outcome(Failure(f), run.limit)
  {
    hide EvalOps, Eval, Printable, Rank, Throws, Top, Bounded, SlotOps;
    assert {} + {a} == {a};
    EvalEntry(h, o, {}, d, m, a);
  }

  /**
   * A user object with slots, as root, at any depth limit: the objects in its slots at the same depth, then its
   * `__dict__` one deeper, if it has one. An unreadable slot leaves only the name of its type.
   */
  lemma UserContents(h: Heap, o: Options, d: int, m: int, a: Addr)
    returns (n: nat, addrs: seq<Addr>, slots: seq<Tree>, fault: Option<Fault>)
    requires Printable(h, o) && a != NULL && a in h && h[a].User? && h[a].slots != []
    requires h[a].attributes == 0 || (h[a].attributes in h && (h[h[a].attributes].Dict? || h[h[a].attributes].BadDict?))
    ensures ReadableSlots(h[a].slots, n, addrs) && Printed(h, o, {a}, d, m, addrs, slots, fault)
    ensures var dict := Eval(h, o, {a}, d + 1, m, h[a].attributes).repr;
      Eval(h, o, {}, d, m, a)
      == if fault.Some? then Outcome(Failure(fault.value), m)
         else if n < |h[a].slots| then Outcome(Success(Node(a, false, [])), m)
         else if h[a].attributes == 0 then Outcome(Success(Node(a, false, slots)), m)
         else if dict.Failure? then Outcome(dict, m)
         else Outcome(Success(Node(a, false, slots + [dict.value])), m)
  {
    hide RunIn, Eval, Printable, Visits, Printed, SlotOps, ReadableSlots;
    var attributes := h[a].attributes;
    SlotsEntry(h, o, d, m, a);
    n, addrs, fault := SlotsRun(h, o, {a}, d, m, h[a].slots);
    var run := RunIn(h, o, {a}, d, m, SlotOps(h[a].slots));
    slots := run.trees;
    PrintedFault(h, o, {a}, d, m, addrs, slots, fault);
    if attributes == NULL {
      assert SlotOps(h[a].slots) + [] == SlotOps(h[a].slots);
    } else {
      RunsBoth(h, o, {a}, d, m, SlotOps(h[a].slots), [Indent([Visit(attributes)])]);
      RunsIndented(h, o, {a}, d, m, [Visit(attributes)]);
      RunsVisit(h, o, {a}, d + 1, m, attributes);
      NoThrowOutOfRange(h, o, {a}, d + 1, m, attributes);
      assert slots + [] == slots;
    }
    assert ReadableSlots(h[a].slots, n, addrs) ==> n <= |h[a].slots| by { SlotsCount(h[a].slots, n, addrs); }
  }

  lemma SlotsCount(slots: seq<Option<Addr>>, n: nat, addrs: seq<Addr>)
    ensures ReadableSlots(slots, n, addrs) ==> n <= |slots|
  {
  }

  /** A user object without slots, as root: its `__dict__`, in the state of its own call. */
  lemma DictOnlyContents(h: Heap, o: Options, d: int, m: int, a: Addr)
    requires Printable(h, o) && a != NULL && a in h && h[a].User? && h[a].slots == []
    requires h[a].attributes == 0 || (h[a].attributes in h && (h[h[a].attributes].Dict? || h[h[a].attributes].BadDict?))
    ensures var dict := Eval(h, o, {}, d, m, h[a].attributes);
      Eval(h, o, {}, d, m, a)
      == match dict.repr
         case Success(t) => Outcome(Success(Node(a, false, [t])), dict.limit)
         case Failure(f) => Outcome(Failure(f), dict.limit)
  {
    hide EvalOps, Eval, Printable, Rank, Throws, Bounded;
    assert [Visit(h[a].attributes)] + [] == [Visit(h[a].attributes)];
    EvalEntry(h, o, {}, d, m, a);
    BareVisit(h, o, {}, d, m, Rank(h, o, a), h[a].attributes, []);
    var dict := Eval(h, o, {}, d, m, h[a].attributes);
    NoThrowOutOfRange(h, o, {}, d, m, h[a].attributes);
    if dict.repr.Success? {
      NoOps(h, o, {}, d, dict.limit, Rank(h, o, a), []);
      assert [dict.repr.value] + [] == [dict.repr.value];
    }
  }

  /** The first visit of a body that runs without a guard. */
  lemma BareVisit(h: Heap, o: Options, p: set<Addr>, d: int, m: int, bound: nat, a: Addr, rest: seq<Op>)
    requires Printable(h, o) && Bounded(h, o, bound, [Visit(a)] + rest)
    ensures var out := Eval(h, o, p, d, m, a);
      match out.repr
      case Success(t) =>
        && Bounded(h, o, bound, rest)
        && EvalOps(h, o, p, d, m, bound, [Visit(a)] + rest)
           == Prefixed([t], EvalOps(h, o, p, d, out.limit, bound, rest))
      case Failure(f) => EvalOps(h, o, p, d, m, bound, [Visit(a)] + rest) == Run([], Some(f), out.limit)
  {
    hide Eval, Printable, Rank, Throws, EvalOps, Bounded;
    assert ([Visit(a)] + rest)[1..] == rest;
    OpsUnfold(h, o, p, d, m, bound, [Visit(a)] + rest);
  }

  /** The file name after the name of a coroutine, every exception caught, under the limit the name left. */
  lemma BareWhere(h: Heap, o: Options, p: set<Addr>, d: int, m: int, bound: nat, file: Option<Addr>)
    requires Printable(h, o) && Bounded(h, o, bound, WhereOps(file))
    ensures EvalOps(h, o, p, d, m, bound, WhereOps(file))
         == match file
            case None => Run([Mark(0, Caught(InvalidObject))], None, m)
            case Some(name) =>
              var out := Eval(h, o, p, d, m, name);
              Run([WhereTree(h, o, p, d, m, file)], None, out.limit)
  {
    hide Eval, Printable, Rank, Throws, EvalOps, Bounded, Doomed;
    var ops := WhereOps(file);
    var sub := ops[0].ops;
    OpsUnfold(h, o, p, d, m, bound, ops);
    assert BoundedOp(h, o, bound, ops[0]) && Bounded(h, o, bound, sub);
    match file {
      case None =>
        assert sub == [Throw(InvalidObject)];
        OneThrow(h, o, p, d, m, bound, sub);
      case Some(name) =>
        assert sub == [Visit(name)] + [];
        BareVisit(h, o, p, d, m, bound, name, []);
        var out := Eval(h, o, p, d, m, name);
        if out.repr.Success? { NoOps(h, o, p, d, out.limit, bound, []); }
    }
    var tried := EvalOp(h, o, p, d, m, bound, ops[0]);
    assert ops[1..] == [] && tried.trees + [] == tried.trees;
    NoOps(h, o, p, d, tried.limit, bound, []);
  }

  /**
   * A coroutine in short output, in any state and whatever is in progress: its name, then the file name of its frame if
   * it has one to show. An exception from the name is passed on, and so is one from checking the frame; one from the
   * file name is caught.
   */
  lemma NameContents(h: Heap, o: Options, p: set<Addr>, d: int, m: int, a: Addr)
    requires Printable(h, o) && a != NULL && a in h && h[a].Coroutine? && o.isShort
    ensures var name := Eval(h, o, p, d, m, h[a].qualname);
      Eval(h, o, p, d, m, a)
      == match name.repr
         case Failure(f) => Outcome(Failure(f), name.limit)
         case Success(t) => match h[a].frame
           case NoFrame => Outcome(Success(Node(a, false, [t])), name.limit)
           case FaultyFrame(OutOfRange) => Outcome(Success(Mark(a, InvalidAddr)), name.limit)
           case FaultyFrame(f) => Outcome(Failure(f), name.limit)
           case FrameAt(None) =>
             Outcome(Success(Node(a, false, [t, Mark(0, Caught(InvalidObject))])), name.limit)
           case FrameAt(Some(file)) =>
             Outcome(Success(Node(a, false, [t, WhereTree(h, o, p, d, name.limit, Some(file))])),
                     Eval(h, o, p, d, name.limit, file).limit)
  {
    hide EvalOps, Eval, Printable, Rank, Throws, Bounded, WhereTree, WhereOps;
    var frame, bound := h[a].frame, Rank(h, o, a);
    var name := Eval(h, o, p, d, m, h[a].qualname);
    EvalEntry(h, o, p, d, m, a);
    BareVisit(h, o, p, d, m, bound, h[a].qualname, FrameRefOps(frame));
    NoThrowOutOfRange(h, o, p, d, m, h[a].qualname);
    if name.repr.Success? {
      var t := name.repr.value;
      assert [t] + [] == [t] && forall u: Tree :: [t] + [u] == [t, u];
      match frame {
        case NoFrame => NoOps(h, o, p, d, name.limit, bound, []);
        case FaultyFrame(f) => OneThrow(h, o, p, d, name.limit, bound, [Throw(f)]);
        case FrameAt(file) => BareWhere(h, o, p, d, name.limit, bound, file);
      }
    }
  }

  // ----- Objects that are not expanded -----

  /** The kinds of object that are expanded wherever no guard forbids it. */
  predicate Container(o: Options, obj: Obj) {
    match obj
    case Tuple(_) => true
    case List(items) => items != []
    case Set(_) => true
    case Dict(_) => true
    case Cell(_) => true
    case Code(_, _, _) => true
    case Future(_) => true
    case Task(_, _, _, _, _) => true
    case Gathering(_, _) => true
    case Generator(_) => true
    case Coroutine(_, _, _) => !o.isShort
    case Frame(_, _, _, _, _, _, _) => true
    case _ => false
  }

  /**
   * The markers: an object that is not in progress is marked at the depth limit only, one in progress always. At the
   * limit the latter is marked as too deep, except a dict, which asks its cycle guard first.
   */
  lemma MarkerContents(h: Heap, o: Options, p: set<Addr>, d: int, m: int, a: Addr)
    requires Printable(h, o) && a != NULL && a in h && Container(o, h[a]) && !Free(h, p, d, m, a)
    ensures var tooDeep := 0 <= m <= d;
      Eval(h, o, p, d, m, a)
      == Outcome(Success(Mark(a, if a in p && (h[a].Dict? || !tooDeep) then RecursiveRepr else RecursionDepth)), m)
  {
    hide EvalOps, Printable, Rank, Throws, Bounded;
    EvalEntry(h, o, p, d, m, a);
  }

  /** What is printed without looking at another object, and what is not printed at all. */
  lemma PlainContents(h: Heap, o: Options, p: set<Addr>, d: int, m: int, a: Addr)
    requires Printable(h, o)
    ensures var out := Eval(h, o, p, d, m, a);
      && (a == NULL ==> out == Outcome(Success(Mark(a, Null)), m))
      && (a != NULL && (a !in h || h[a] in {Unreadable, Faulty(OutOfRange)}) ==>
            out == Outcome(Success(Mark(a, InvalidAddr)), m))
      && (a != NULL && a in h ==> match h[a]
          case Leaf => out == Outcome(Success(Node(a, false, [])), m)
          case BadDict => out == Outcome(Success(Node(a, false, [])), m)
          case Faulty(f) => f != OutOfRange ==> out == Outcome(Failure(f), m)
          case List(items) => items == [] ==>
            out == Outcome(Success(if 0 <= m <= d then Mark(a, RecursionDepth) else Node(a, false, [])), m)
          case Type(_, _, _) =>
            && (p != {} ==> out == Outcome(Success(Node(a, false, [])), m))
            && (p == {} && 0 <= m <= d ==> out == Outcome(Success(Mark(a, RecursionDepth)), m))
          case User(_, attributes) =>
            p != {} || (attributes != 0 && (attributes !in h || !(h[attributes].Dict? || h[attributes].BadDict?))) ==>
              out == Outcome(Success(Node(a, false, [])), m)
          case _ => true)
  {
    hide EvalOps, Printable, Rank, Throws, Bounded;
    EvalEntry(h, o, p, d, m, a);
  }
}
