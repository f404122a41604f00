/** Printing an object graph: what Traversal::repr yields, and the guards it runs under. */
module Traversal {
  import opened Graphs
  import opened Heap
  import opened Unguarded
  import opened Wrappers

  /** Why a place in the output holds a marker instead of an object's contents. */
  datatype Reason = Null | InvalidAddr | RecursionDepth | RecursiveRepr | Caught(fault: Fault)

  /** The nesting of a repr: an object with the objects printed inside it, or a marker. */
  datatype Tree =
    | Node(addr: Addr, indents: bool, children: seq<Tree>)
    | Mark(addr: Addr, reason: Reason)

  /** What one repr call returns or throws, and the depth limit it leaves behind. */
  datatype Outcome = Outcome(repr: Result<Tree>, limit: int)

  /** What a repr body has printed when it ends or throws, and the depth limit it leaves behind. */
  datatype Run = Run(trees: seq<Tree>, fault: Option<Fault>, limit: int)

  predicate Allowed(depth: int, limit: int) { limit < 0 || depth < limit }

  /** `out_of_range` is caught at the top of every repr call; a user object is then printed by its type name. */
  function Finish(obj: Obj, a: Addr, indents: bool, run: Run): Outcome {
    match run.fault
    case None => Outcome(Success(Node(a, indents, run.trees)), run.limit)
    case Some(OutOfRange) => Outcome(Success(if obj.User? then Node(a, false, []) else Mark(a, InvalidAddr)), run.limit)
    case Some(f) => Outcome(Failure(f), run.limit)
  }

  function Prefixed(trees: seq<Tree>, run: Run): Run { Run(trees + run.trees, run.fault, run.limit) }

  /** What a repr call does before any nested call: end, or run a body under its guards. */
  datatype Entry = Now(out: Outcome) | Body(inProgress: set<Addr>, depth: int, indents: bool, ops: seq<Op>)

  /** The beginning of the repr of `a` while the objects `p` are in progress, at depth `d` with depth limit `m`. */
  function Enter(h: Heap, o: Options, p: set<Addr>, d: int, m: int, a: Addr): Entry {
    if a == NULL then Now(Outcome(Success(Mark(a, Null)), m))
    else if a !in h then Now(Outcome(Success(Mark(a, InvalidAddr)), m))
    else
      match PlanOf(h, o, p == {}, h[a])
      case Text => Now(Outcome(Success(Node(a, false, [])), m))
      case Fails(f) => Now(Finish(h[a], a, false, Run([], Some(f), m)))
      case Empty => Now(Outcome(Success(if Allowed(d, m) then Node(a, false, []) else Mark(a, RecursionDepth)), m))
      case Guarded(checkFirst, indents, ops) =>
        if checkFirst && !Allowed(d, m) then Now(Outcome(Success(Mark(a, RecursionDepth)), m))
        else if a in p then
          Now(Outcome(if h[a].Type? then Failure(LogicError) else Success(Mark(a, RecursiveRepr)), m))
        else if !Allowed(d, m) then Now(Outcome(Success(Mark(a, RecursionDepth)), m))
        else Body(p + {a}, if indents then d + 1 else d, indents, ops)
      case Slots(ops) => Body(p + {a}, d, false, ops)
      case Bare(ops) => Body(p, d, false, ops)
  }

  /** Above every rank the body of `a` gets to visit. */
  ghost function BodyBound(h: Heap, o: Options, p: set<Addr>, a: Addr, inner: set<Addr>): nat {
    if inner == p then Rank(h, o, a) else Top(h)
  }

  /** A body has more objects in progress than its call or, without a guard, visits only objects of a lower rank. */
  lemma EntersLower(h: Heap, o: Options, p: set<Addr>, d: int, m: int, a: Addr)
    requires Printable(h, o) && Enter(h, o, p, d, m, a).Body?
    ensures var Body(inner, _, _, ops) := Enter(h, o, p, d, m, a);
      && a in h && Bounded(h, o, BodyBound(h, o, p, a, inner), ops)
      && (inner == p || |h.Keys - inner| < |h.Keys - p|)
  {
    hide Printable, Bounded, Rank, PlanOf;
    var Body(inner, _, _, ops) := Enter(h, o, p, d, m, a);
    PlanKinds(h, o, p == {}, a);
    AnyRank(h, o, ops);
    if inner == p { BareIsBounded(h, o, p == {}, a); } else { Fewer(h, p, a); }
  }

  /** The repr of `a` while the objects `p` are in progress, at depth `d` with depth limit `m`. */
  function Eval(h: Heap, o: Options, p: set<Addr>, d: int, m: int, a: Addr): (r: Outcome)
    requires Printable(h, o)
    ensures r.repr.Failure? ==> r.repr.fault != OutOfRange
    ensures Throws(h, o, a) ==> r.repr.Failure?
    decreases |h.Keys - p|, 2 * Rank(h, o, a) + 1
  {
    hide Printable, Throws, Rank, Bounded, Enter;
    ThrowingEntry(h, o, p, d, m, a);
    match Enter(h, o, p, d, m, a)
    case Now(out) => out
    case Body(inner, depth, indents, ops) =>
      EntersLower(h, o, p, d, m, a);
      Finish(h[a], a, indents, EvalOps(h, o, inner, depth, m, BodyBound(h, o, p, a, inner), ops))
  }

  function EvalOp(h: Heap, o: Options, p: set<Addr>, d: int, m: int, ghost bound: nat, op: Op): (r: Run)
    requires Printable(h, o) && BoundedOp(h, o, bound, op)
    ensures Doomed(h, o, op) ==> r.fault.Some? && r.fault.value != OutOfRange
    decreases |h.Keys - p|, 2 * bound, op
  {
    match op
    case Visit(a) =>
      var out := Eval(h, o, p, d, m, a);
      if out.repr.Success? then Run([out.repr.value], None, out.limit) else Run([], Some(out.repr.fault), out.limit)
    case Indent(sub) => EvalOps(h, o, p, d + 1, m, bound, sub)
    case Try(keeps, sub) => Handled(keeps, EvalOps(h, o, p, d, m, bound, sub))
    case LimitTo(limit, sub) =>
      var run := EvalOps(h, o, p, d, limit, bound, sub);
      if run.fault.None? then run.(limit := m) else run
    case Throw(f) => Run([], Some(f), m)
  }

  function Handled(keeps: bool, run: Run): Run {
    if run.fault.None? then run
    else Run((if keeps then run.trees else []) + [Mark(NULL, Caught(run.fault.value))], None, run.limit)
  }

  function EvalOps(h: Heap, o: Options, p: set<Addr>, d: int, m: int, ghost bound: nat, ops: seq<Op>): (r: Run)
    requires Printable(h, o) && Bounded(h, o, bound, ops)
    ensures DoomedOps(h, o, ops) ==> r.fault.Some? && r.fault.value != OutOfRange
    decreases |h.Keys - p|, 2 * bound, ops
  {
    if ops == [] then Run([], None, m)
    else
      var first := EvalOp(h, o, p, d, m, bound, ops[0]);
      if first.fault.Some? then first else Prefixed(first.trees, EvalOps(h, o, p, d, first.limit, bound, ops[1..]))
  }

  /** What certainly throws does so at once or in its body; `out_of_range` never leaves a call. */
  lemma ThrowingEntry(h: Heap, o: Options, p: set<Addr>, d: int, m: int, a: Addr)
    ensures var entry := Enter(h, o, p, d, m, a);
      && (entry.Now? && entry.out.repr.Failure? ==> entry.out.repr.fault != OutOfRange)
      && (Throws(h, o, a) && entry.Now? ==> entry.out.repr.Failure?)
      && (Throws(h, o, a) && entry.Body? ==> DoomedOps(h, o, entry.ops))
  {
    if Throws(h, o, a) && o.isShort && h[a].Coroutine? {
      NameThrows(h, o, a);
      assert [Visit(h[a].qualname)] + FrameRefOps(h[a].frame) != [];
      assert ([Visit(h[a].qualname)] + FrameRefOps(h[a].frame))[1..] == FrameRefOps(h[a].frame);
    }
  }

  lemma EvalEntry(h: Heap, o: Options, p: set<Addr>, d: int, m: int, a: Addr)
    requires Printable(h, o)
    ensures match Enter(h, o, p, d, m, a)
      case Now(out) => Eval(h, o, p, d, m, a) == out
      case Body(inner, depth, indents, ops) =>
        && a in h && Bounded(h, o, BodyBound(h, o, p, a, inner), ops)
        && Eval(h, o, p, d, m, a)
           == Finish(h[a], a, indents, EvalOps(h, o, inner, depth, m, BodyBound(h, o, p, a, inner), ops))
  {
    hide Enter, Bounded, EvalOps, Printable, Rank, Throws, Finish;
    if Enter(h, o, p, d, m, a).Body? { EntersLower(h, o, p, d, m, a); }
  }

  /** A body does its first operation and, unless that throws, the others under the limit it left. */
  lemma OpsUnfold(h: Heap, o: Options, p: set<Addr>, d: int, m: int, bound: nat, ops: seq<Op>)
    requires Printable(h, o) && Bounded(h, o, bound, ops) && ops != []
    ensures BoundedOp(h, o, bound, ops[0])
    ensures var first, run := EvalOp(h, o, p, d, m, bound, ops[0]), EvalOps(h, o, p, d, m, bound, ops);
      && (first.fault.Some? ==> run == first)
      && (first.fault.None? ==> Bounded(h, o, bound, ops[1..]))
      && (first.fault.None? ==> run == Prefixed(first.trees, EvalOps(h, o, p, d, first.limit, bound, ops[1..])))
  {
    hide Eval, Printable, Rank, Throws;
  }

  lemma NoOps(h: Heap, o: Options, p: set<Addr>, d: int, m: int, bound: nat, ops: seq<Op>)
    requires Printable(h, o) && Bounded(h, o, bound, ops) && ops == []
    ensures EvalOps(h, o, p, d, m, bound, ops) == Run([], None, m)
  {
  }

  lemma PrefixedTwice(xs: seq<Tree>, ys: seq<Tree>, run: Run)
    ensures Prefixed(xs, Prefixed(ys, run)) == Prefixed(xs + ys, run)
  {
    assert xs + (ys + run.trees) == xs + ys + run.trees;
  }

  /** Every guarded expansion leaves fewer objects that are not in progress. */
  lemma Fewer(h: Heap, p: set<Addr>, a: Addr)
    requires a in h && (a !in p || p == {})
    ensures |h.Keys - (p + {a})| < |h.Keys - p|
  {
    assert h.Keys - (p + {a}) == (h.Keys - p) - {a};
  }

  /** The printing state shared by nested repr calls. */
  class Traversal {
    const memory: Heap
    const options: Options
    var inProgress: set<Addr>
    var recursionDepth: int
    var maxRecursionDepth: int

    constructor (memory: Heap, options: Options, maxRecursionDepth: int)
      ensures this.memory == memory && this.options == options
      ensures inProgress == {} && recursionDepth == 0 && this.maxRecursionDepth == maxRecursionDepth
    {
      this.memory, this.options := memory, options;
      inProgress, recursionDepth, this.maxRecursionDepth := {}, 0, maxRecursionDepth;
    }

    predicate RecursionAllowed()
      reads this
    {
      maxRecursionDepth < 0 || recursionDepth < maxRecursionDepth
    }

    /** Prints one object; a failure is an exception leaving the call. */
    method Repr(a: Addr) returns (r: Result<Tree>)
      requires Printable(memory, options)
      modifies this
      ensures inProgress == old(inProgress) && recursionDepth == old(recursionDepth)
      ensures Outcome(r, maxRecursionDepth)
           == Eval(memory, options, old(inProgress), old(recursionDepth), old(maxRecursionDepth), a)
      decreases |memory.Keys - inProgress|, 2 * Rank(memory, options, a) + 1
    {
      hide Bounded, BoundedOp, Eval, EvalOp, EvalOps, Printable, PlanOf, Rank, Throws, Top, Finish;
      PlanKinds(memory, options, inProgress == {}, a);
      EvalEntry(memory, options, inProgress, recursionDepth, maxRecursionDepth, a);
      if a == NULL { return Success(Mark(a, Null)); }
      if a !in memory { return Success(Mark(a, InvalidAddr)); }
      var trees, fault, indented := [], None, false;
      match PlanOf(memory, options, inProgress == {}, memory[a]) {
        case Text => return Success(Node(a, false, []));
        case Fails(f) => fault := Some(f);
        case Empty =>
          return Success(if RecursionAllowed() then Node(a, false, []) else Mark(a, RecursionDepth));
        case Guarded(checkFirst, indents, ops) =>
          if checkFirst && !RecursionAllowed() { return Success(Mark(a, RecursionDepth)); }
          if a in inProgress {
            return if memory[a].Type? then Failure(LogicError) else Success(Mark(a, RecursiveRepr));
          }
          if !RecursionAllowed() { return Success(Mark(a, RecursionDepth)); }
          indented := indents;
          AnyRank(memory, options, ops);
          trees, fault := RunGuarded(a, indents, ops);
        case Slots(ops) =>
          AnyRank(memory, options, ops);
          trees, fault := RunGuarded(a, false, ops);
        case Bare(ops) =>
          BareIsBounded(memory, options, inProgress == {}, a);
          trees, fault := RunOps(Rank(memory, options, a), ops);
      }
      r := Conclude(a, indented, trees, fault);
    }

    /** The end of every call, where `out_of_range` is caught. */
    method Conclude(a: Addr, indents: bool, trees: seq<Tree>, fault: Option<Fault>) returns (r: Result<Tree>)
      requires a in memory
      ensures Outcome(r, maxRecursionDepth) == Finish(memory[a], a, indents, Run(trees, fault, maxRecursionDepth))
    {
      r := match fault
        case None => Success(Node(a, indents, trees))
        case Some(OutOfRange) => Success(if memory[a].User? then Node(a, false, []) else Mark(a, InvalidAddr))
        case Some(f) => Failure(f);
    }

    /** A repr body under its cycle guard and, maybe, its indent guard; both are released on every way out. */
    method RunGuarded(a: Addr, indents: bool, ops: seq<Op>) returns (trees: seq<Tree>, fault: Option<Fault>)
      requires Printable(memory, options) && a in memory && a !in inProgress
      requires Bounded(memory, options, Top(memory), ops)
      modifies this
      ensures inProgress == old(inProgress) && recursionDepth == old(recursionDepth)
      ensures Run(trees, fault, maxRecursionDepth)
           == EvalOps(memory, options, old(inProgress) + {a}, old(recursionDepth) + (if indents then 1 else 0),
                      old(maxRecursionDepth), Top(memory), ops)
      decreases |memory.Keys - inProgress|, 0
    {
      hide Bounded, EvalOps, Printable, Rank, Throws, Doomed;
      Fewer(memory, inProgress, a);
      inProgress := inProgress + {a};
      if indents { recursionDepth := recursionDepth + 1; }
      trees, fault := RunOps(Top(memory), ops);
      if indents { recursionDepth := recursionDepth - 1; }
      inProgress := inProgress - {a};
    }

    method RunOps(ghost bound: nat, ops: seq<Op>) returns (trees: seq<Tree>, fault: Option<Fault>)
      requires Printable(memory, options) && Bounded(memory, options, bound, ops)
      modifies this
      ensures inProgress == old(inProgress) && recursionDepth == old(recursionDepth)
      ensures Run(trees, fault, maxRecursionDepth)
           == EvalOps(memory, options, inProgress, recursionDepth, old(maxRecursionDepth), bound, ops)
      decreases |memory.Keys - inProgress|, 2 * bound, ops
    {
      hide Eval, EvalOp, EvalOps, Printable, Rank, Throws, Bounded, BoundedOp, Doomed, DoomedOps;
      trees := [];
      var i := 0;
      assert ops[0..] == ops;
      while i < |ops|
        invariant 0 <= i <= |ops| && Bounded(memory, options, bound, ops[i..])
        invariant inProgress == old(inProgress) && recursionDepth == old(recursionDepth)
        invariant EvalOps(memory, options, inProgress, recursionDepth, old(maxRecursionDepth), bound, ops)
               == Prefixed(
                    trees, EvalOps(memory, options, inProgress, recursionDepth, maxRecursionDepth, bound, ops[i..]))
      {
        assert ops[i..][0] == ops[i] && ops[i..][1..] == ops[i + 1..];
        OpsUnfold(memory, options, inProgress, recursionDepth, maxRecursionDepth, bound, ops[i..]);
        var printed;
        printed, fault := RunOp(bound, ops[i]);
        ghost var done := trees;
        trees := trees + printed;
        if fault.Some? { return; }
        i := i + 1;
        PrefixedTwice(
          done, printed, EvalOps(memory, options, inProgress, recursionDepth, maxRecursionDepth, bound, ops[i..]));
      }
      NoOps(memory, options, inProgress, recursionDepth, maxRecursionDepth, bound, ops[i..]);
      fault := None;
    }

    method RunOp(ghost bound: nat, op: Op) returns (trees: seq<Tree>, fault: Option<Fault>)
      requires Printable(memory, options) && BoundedOp(memory, options, bound, op)
      modifies this
      ensures inProgress == old(inProgress) && recursionDepth == old(recursionDepth)
      ensures Run(trees, fault, maxRecursionDepth)
           == EvalOp(memory, options, inProgress, recursionDepth, old(maxRecursionDepth), bound, op)
      decreases |memory.Keys - inProgress|, 2 * bound, op
    {
      hide Eval, EvalOps, Printable, Rank, Throws, Bounded, Doomed;
      match op
      case Visit(a) =>
        var r := Repr(a);
        match r {
          case Success(tree) => trees, fault := [tree], None;
          case Failure(f) => trees, fault := [], Some(f);
        }
      case Indent(sub) =>
        recursionDepth := recursionDepth + 1;
        trees, fault := RunOps(bound, sub);
        recursionDepth := recursionDepth - 1;
      case Try(keeps, sub) =>
        trees, fault := RunOps(bound, sub);
        if fault.Some? {
          trees, fault := (if keeps then trees else []) + [Mark(NULL, Caught(fault.value))], None;
        }
      case LimitTo(limit, sub) =>
        var saved := maxRecursionDepth;
        maxRecursionDepth := limit;
        trees, fault := RunOps(bound, sub);
        if fault.None? { maxRecursionDepth := saved; }
      case Throw(f) =>
        trees, fault := [], Some(f);
    }
  }
}
