/** How deeply repr calls nest, on every heap: exactly when printing always ends. */
module CallDepth {
  import opened Graphs
  import opened Heap
  import opened Traversal
  import opened TraversalProperties
  import opened Unguarded
  import opened Wrappers

  // ----- The same calls, nested at most `n` deep -----

  /** The call of Eval if it nests at most `n` calls, itself included; None if it nests deeper. */
  function Call(h: Heap, o: Options, n: nat, p: set<Addr>, d: int, m: int, a: Addr): Option<Outcome>
    decreases 2 * n
  {
    if n == 0 then None
    else
      match Enter(h, o, p, d, m, a)
      case Now(out) => Some(out)
      case Body(inner, depth, indents, ops) =>
        match CallOps(h, o, n - 1, inner, depth, m, ops)
        case None => None
        case Some(run) => if a in h then Some(Finish(h[a], a, indents, run)) else None
  }

  function CallOp(h: Heap, o: Options, n: nat, p: set<Addr>, d: int, m: int, op: Op): Option<Run>
    decreases 2 * n + 1, op
  {
    match op
    case Visit(a) =>
      (match Call(h, o, n, p, d, m, a)
       case None => None
       case Some(Outcome(Success(tree), limit)) => Some(Run([tree], None, limit))
       case Some(Outcome(Failure(f), limit)) => Some(Run([], Some(f), limit)))
    case Indent(sub) => CallOps(h, o, n, p, d + 1, m, sub)
    case Try(keeps, sub) =>
      (match CallOps(h, o, n, p, d, m, sub) case None => None case Some(run) => Some(Handled(keeps, run)))
    case LimitTo(limit, sub) =>
      (match CallOps(h, o, n, p, d, limit, sub)
       case None => None
       case Some(run) => Some(if run.fault.None? then run.(limit := m) else run))
    case Throw(f) => Some(Run([], Some(f), m))
  }

  function CallOps(h: Heap, o: Options, n: nat, p: set<Addr>, d: int, m: int, ops: seq<Op>): Option<Run>
    decreases 2 * n + 1, ops
  {
    if ops == [] then Some(Run([], None, m))
    else
      match CallOp(h, o, n, p, d, m, ops[0])
      case None => None
      case Some(first) =>
        if first.fault.Some? then Some(first)
        else
          match CallOps(h, o, n, p, d, first.limit, ops[1..])
          case None => None
          case Some(rest) => Some(Prefixed(first.trees, rest))
  }

  /** The call returns or throws. */
  ghost predicate Ends(h: Heap, o: Options, p: set<Addr>, d: int, m: int, a: Addr) {
    exists n: nat :: Call(h, o, n, p, d, m, a).Some?
  }

  // ----- Without a cycle of unguarded steps -----

  /** A bound on the nesting: for each object that may still be put in progress, the longest chain without a guard. */
  ghost function Depth(h: Heap, p: set<Addr>, rank: nat): nat { |h.Keys - p| * (Top(h) + 1) + rank }

  lemma LowerDepth(h: Heap, p: set<Addr>, inner: set<Addr>, rank: nat)
    requires |h.Keys - inner| < |h.Keys - p|
    ensures Depth(h, inner, Top(h)) < Depth(h, p, rank)
  {
    var x, y, k := |h.Keys - inner|, |h.Keys - p|, Top(h) + 1;
    assert (y - x - 1) * k >= 0;
    assert y * k == x * k + k + (y - x - 1) * k;
  }

  /** A call that may go as deep as the bound does what Eval says. */
  lemma {:induction false} CallIsEval(h: Heap, o: Options, n: nat, p: set<Addr>, d: int, m: int, a: Addr)
    requires Printable(h, o) && Depth(h, p, Rank(h, o, a)) < n
    ensures Call(h, o, n, p, d, m, a) == Some(Eval(h, o, p, d, m, a))
    decreases |h.Keys - p|, 2 * Rank(h, o, a) + 1
  {
    hide Printable, Rank, Bounded, Enter, EvalOps, CallOps, Depth;
    if Enter(h, o, p, d, m, a).Body? {
      var Body(inner, depth, indents, ops) := Enter(h, o, p, d, m, a);
      var bound := BodyBound(h, o, p, a, inner);
      EntersLower(h, o, p, d, m, a);
      if inner != p { LowerDepth(h, p, inner, Rank(h, o, a)); }
      CallOpsIsEvalOps(h, o, n - 1, inner, depth, m, bound, ops);
    }
  }

  lemma {:induction false} CallOpIsEvalOp(
    h: Heap, o: Options, n: nat, p: set<Addr>, d: int, m: int, bound: nat, op: Op)
    requires Printable(h, o) && BoundedOp(h, o, bound, op) && Depth(h, p, bound) <= n
    ensures CallOp(h, o, n, p, d, m, op) == Some(EvalOp(h, o, p, d, m, bound, op))
    decreases |h.Keys - p|, 2 * bound, op
  {
    hide Printable, Rank, Bounded, Eval, EvalOps, Call, CallOps, Top;
    match op
    case Visit(a) => CallIsEval(h, o, n, p, d, m, a);
    case Indent(sub) => CallOpsIsEvalOps(h, o, n, p, d + 1, m, bound, sub);
    case Try(_, sub) => CallOpsIsEvalOps(h, o, n, p, d, m, bound, sub);
    case LimitTo(limit, sub) => CallOpsIsEvalOps(h, o, n, p, d, limit, bound, sub);
    case Throw(_) =>
  }

  lemma {:induction false} CallOpsIsEvalOps(
    h: Heap, o: Options, n: nat, p: set<Addr>, d: int, m: int, bound: nat, ops: seq<Op>)
    requires Printable(h, o) && Bounded(h, o, bound, ops) && Depth(h, p, bound) <= n
    ensures CallOps(h, o, n, p, d, m, ops) == Some(EvalOps(h, o, p, d, m, bound, ops))
    decreases |h.Keys - p|, 2 * bound, ops
  {
    hide Printable, Rank, BoundedOp, EvalOp, CallOp, Depth, Throws;
    if ops != [] {
      CallOpIsEvalOp(h, o, n, p, d, m, bound, ops[0]);
      var first := EvalOp(h, o, p, d, m, bound, ops[0]);
      if first.fault.None? { CallOpsIsEvalOps(h, o, n, p, d, first.limit, bound, ops[1..]); }
    }
  }

  // ----- On a cycle of unguarded steps -----

  /** In this state the repr of `a`, if it ends, returns. */
  ghost predicate Returns(h: Heap, o: Options, p: set<Addr>, d: int, a: Addr) {
    forall n: nat, m: int, out: Outcome | Call(h, o, n, p, d, m, a) == Some(out) :: out.repr.Success?
  }

  /** In this state the name of every coroutine on a cycle is itself on one, or its repr does not throw. */
  ghost predicate Trapped(h: Heap, o: Options, p: set<Addr>, d: int) {
    forall c | OnCycle(StepGraph(h, o), c) && c in h && h[c].Coroutine? ::
      OnCycle(StepGraph(h, o), h[c].qualname) || Returns(h, o, p, d, h[c].qualname)
  }

  lemma CycleStep(h: Heap, o: Options, a: Addr) returns (b: Addr)
    requires OnCycle(StepGraph(h, o), a)
    ensures PrintsUnguarded(h, o, a) && b in Steps(h, o, a) && OnCycle(StepGraph(h, o), b)
    ensures o.isShort && h[a].Coroutine?
  {
    hide PlanOf, Steps;
    var g := StepGraph(h, o);
    b := NextOnCycle(g, a);
    if h[a].User? || !o.isShort {
      UserLeadsToDict(h, o, a, b);
      CycleNodeIsKey(g, b);
      assert false;
    }
    UnguardedKinds(h, o, a);
  }

  lemma UnguardedKinds(h: Heap, o: Options, a: Addr)
    requires PrintsUnguarded(h, o, a)
    ensures h[a].User? || (o.isShort && h[a].Coroutine?)
  {
  }

  lemma UserLeadsToDict(h: Heap, o: Options, a: Addr, b: Addr)
    requires Edge(StepGraph(h, o), a, b) && (h[a].User? || !o.isShort)
    ensures b !in StepGraph(h, o)
  {
  }

  lemma NameIsStuck(h: Heap, o: Options, n: nat, p: set<Addr>, d: int, m: int, qualname: Addr, frame: FrameRef)
    requires Call(h, o, n, p, d, m, qualname).None?
    ensures CallOps(h, o, n, p, d, m, [Visit(qualname)] + FrameRefOps(frame)).None?
  {
    hide Call;
    assert ([Visit(qualname)] + FrameRefOps(frame))[0] == Visit(qualname);
  }

  lemma FileIsStuck(
    h: Heap, o: Options, n: nat, p: set<Addr>, d: int, m: int, qualname: Addr, frame: FrameRef, out: Outcome)
    requires Call(h, o, n, p, d, m, qualname) == Some(out) && out.repr.Success?
    requires frame.FrameAt? && frame.file.Some? && Call(h, o, n, p, d, out.limit, frame.file.value).None?
    ensures CallOps(h, o, n, p, d, m, [Visit(qualname)] + FrameRefOps(frame)).None?
  {
    hide Call;
    var sub := [Visit(frame.file.value)];
    var ops := [Visit(qualname)] + FrameRefOps(frame);
    assert ops[1..] == [Try(false, sub)];
    assert CallOp(h, o, n, p, d, out.limit, sub[0]).None? && CallOps(h, o, n, p, d, out.limit, sub).None?;
    assert CallOp(h, o, n, p, d, out.limit, ops[1..][0]).None?;
  }

  /** A trapped call never ends: each object on the cycle is printed again without leaving its state. */
  lemma {:induction false} TrappedNeverEnds(h: Heap, o: Options, n: nat, p: set<Addr>, d: int, m: int, a: Addr)
    requires OnCycle(StepGraph(h, o), a) && Trapped(h, o, p, d)
    ensures Call(h, o, n, p, d, m, a) == None
  {
    hide OnCycle, StepGraph, CallOps;
    if n > 0 {
      var b := CycleStep(h, o, a);
      var Coroutine(_, qualname, frame) := h[a];
      assert Enter(h, o, p, d, m, a) == Body(p, d, false, [Visit(qualname)] + FrameRefOps(frame));
      match Call(h, o, n - 1, p, d, m, qualname)
      case None => NameIsStuck(h, o, n - 1, p, d, m, qualname, frame);
      case Some(out) =>
        if OnCycle(StepGraph(h, o), qualname) { TrappedNeverEnds(h, o, n - 1, p, d, m, qualname); }
        assert out.repr.Success? && b != qualname;
        TrappedNeverEnds(h, o, n - 1, p, d, out.limit, b);
        FileIsStuck(h, o, n - 1, p, d, m, qualname, frame, out);
    }
  }

  /** With every object in progress, a name throws only if it throws in every state. */
  lemma {:induction false} AllInProgressReturns(
    h: Heap, o: Options, n: nat, p: set<Addr>, d: int, m: int, a: Addr, out: Outcome)
    requires h.Keys <= p && !Throws(h, o, a) && Call(h, o, n, p, d, m, a) == Some(out)
    ensures out.repr.Success?
  {
    hide CallOps;
    OwnCheckThrows(h, o, a);
    if Enter(h, o, p, d, m, a).Body? {
      var Coroutine(_, qualname, frame) := h[a];
      NameDoesNotThrow(h, o, a);
      var first := Call(h, o, n - 1, p, d, m, qualname);
      if first.None? {
        NameIsStuck(h, o, n - 1, p, d, m, qualname, frame);
      } else {
        AllInProgressReturns(h, o, n - 1, p, d, m, qualname, first.value);
        FrameNeverThrows(h, o, n - 1, p, d, m, qualname, frame, first.value);
      }
    }
  }

  lemma FrameNeverThrows(
    h: Heap, o: Options, n: nat, p: set<Addr>, d: int, m: int, qualname: Addr, frame: FrameRef, out: Outcome)
    requires Call(h, o, n, p, d, m, qualname) == Some(out) && out.repr.Success?
    requires frame.FaultyFrame? ==> frame.fault == OutOfRange
    ensures var run := CallOps(h, o, n, p, d, m, [Visit(qualname)] + FrameRefOps(frame));
      run.Some? && run.value.fault.Some? ==> run.value.fault.value == OutOfRange
  {
    hide Call;
    var ops := [Visit(qualname)] + FrameRefOps(frame);
    assert ops[1..] == FrameRefOps(frame) && ops[0] == Visit(qualname);
    match frame
    case NoFrame =>
    case FaultyFrame(_) => assert CallOp(h, o, n, p, d, out.limit, ops[1..][0]).value.fault == Some(OutOfRange);
    case FrameAt(_) =>
      var where := CallOp(h, o, n, p, d, out.limit, ops[1..][0]);
      if where.Some? {
        assert where.value.fault.None? && ops[1..][1..] == [];
        assert CallOps(h, o, n, p, d, where.value.limit, ops[1..][1..]).value.fault.None?;
      }
  }

  lemma CycleTrapsAllInProgress(h: Heap, o: Options, d: int)
    ensures Trapped(h, o, h.Keys, d)
  {
    hide OnCycle, StepGraph, PlanOf, Throws;
    forall c | OnCycle(StepGraph(h, o), c) && c in h && h[c].Coroutine?
      ensures OnCycle(StepGraph(h, o), h[c].qualname) || Returns(h, o, h.Keys, d, h[c].qualname)
    {
      var b := CycleStep(h, o, c);
      if b != h[c].qualname {
        forall n: nat, m: int, out: Outcome | Call(h, o, n, h.Keys, d, m, h[c].qualname) == Some(out)
          ensures out.repr.Success?
        {
          AllInProgressReturns(h, o, n, h.Keys, d, m, h[c].qualname, out);
        }
      }
    }
  }

  /** Every repr call on a heap ends, in every state, if and only if no object leads to itself without a guard. */
  lemma PrintingEndsIffPrintable(h: Heap, o: Options)
    ensures (forall p, d, m, a :: Ends(h, o, p, d, m, a)) <==> Printable(h, o)
  {
    hide Call, OnCycle, StepGraph, Rank;
    if Printable(h, o) {
      forall p, d, m, a ensures Ends(h, o, p, d, m, a) {
        CallIsEval(h, o, Depth(h, p, Rank(h, o, a)) + 1, p, d, m, a);
      }
    } else {
      var c :| OnCycle(StepGraph(h, o), c);
      CycleTrapsAllInProgress(h, o, 0);
      forall n: nat ensures Call(h, o, n, h.Keys, 0, -1, c).None? {
        TrappedNeverEnds(h, o, n, h.Keys, 0, -1, c);
      }
      assert !Ends(h, o, h.Keys, 0, -1, c);
    }
  }

  // ----- Calls with nothing in progress -----

  lemma {:induction false} CalmCallReturns(
    h: Heap, o: Options, n: nat, p: set<Addr>, d: int, m: int, a: Addr, out: Outcome)
    requires Calm(h, o) && Call(h, o, n, p, d, m, a) == Some(out)
    ensures out.repr.Success?
    decreases 2 * n
  {
    hide Enter, CallOps, Plain;
    EntryFaults(h, o, p, d, m, a);
    if Enter(h, o, p, d, m, a).Body? {
      var Body(inner, depth, _, ops) := Enter(h, o, p, d, m, a);
      BodyIsPlain(h, o, p, d, m, a);
      CalmContext(o, p == {}, h[a]);
      CalmOpsReturn(h, o, n - 1, inner, depth, m, ContextOf(o, p == {}, h[a]), ops);
    }
  }

  lemma {:induction false} CalmOpsReturn(
    h: Heap, o: Options, n: nat, p: set<Addr>, d: int, m: int, c: Context, ops: seq<Op>)
    requires Calm(h, o) && Plain(c, ops) && CallOps(h, o, n, p, d, m, ops).Some?
    ensures var f := CallOps(h, o, n, p, d, m, ops).value.fault; f.Some? ==> c.throws == f
    decreases 2 * n + 1, ops
  {
    hide Call;
    if ops != [] {
      assert PlainOp(c, ops[0]);
      match ops[0] {
        case Visit(a) => CalmCallReturns(h, o, n, p, d, m, a, Call(h, o, n, p, d, m, a).value);
        case Indent(sub) => CalmOpsReturn(h, o, n, p, d + 1, m, c, sub);
        case Try(_, _) =>
        case LimitTo(limit, sub) => CalmOpsReturn(h, o, n, p, d, limit, c, sub);
        case Throw(_) =>
      }
      var first := CallOp(h, o, n, p, d, m, ops[0]).value;
      if first.fault.None? { CalmOpsReturn(h, o, n, p, d, first.limit, c, ops[1..]); }
    }
  }

  /** Where no check throws, every call of a command, which has nothing in progress, ends under the same condition. */
  lemma CommandsEndIffPrintable(h: Heap, o: Options)
    requires Calm(h, o)
    ensures (forall d, m, a :: Ends(h, o, {}, d, m, a)) <==> Printable(h, o)
  {
    hide Call, OnCycle, StepGraph, Rank, Calm;
    if Printable(h, o) {
      forall d, m, a ensures Ends(h, o, {}, d, m, a) {
        CallIsEval(h, o, Depth(h, {}, Rank(h, o, a)) + 1, {}, d, m, a);
      }
    } else {
      var c :| OnCycle(StepGraph(h, o), c);
      forall a ensures Returns(h, o, {}, 0, a) {
        forall n: nat, m: int, out: Outcome | Call(h, o, n, {}, 0, m, a) == Some(out) ensures out.repr.Success? {
          CalmCallReturns(h, o, n, {}, 0, m, a, out);
        }
      }
      forall n: nat ensures Call(h, o, n, {}, 0, -1, c).None? { TrappedNeverEnds(h, o, n, {}, 0, -1, c); }
      assert !Ends(h, o, {}, 0, -1, c);
    }
  }

  const THROWING_NAME: Heap :=
    map[1 := Coroutine([], 2, FrameAt(Some(1))), 2 := User([Some(3)], 0), 3 := Faulty(RuntimeError)]

  const SHORT: Options := Options(true, false, false, -1)

  lemma ThrowingNameIsNotPrintable()
    ensures !Printable(THROWING_NAME, SHORT)
  {
    hide PlanOf;
    var h, o, g := THROWING_NAME, SHORT, StepGraph(THROWING_NAME, SHORT);
    assert !Throws(h, o, 2);
    assert PrintsUnguarded(h, o, 1) by { ShortCoroutineUnguarded(h, o, 1); }
    assert Steps(h, o, 1) == [2, 1];
    assert 1 in [2, 1] && IsPath(g, [1, 1]);
    assert OnCycle(g, 1);
  }

  lemma ShortCoroutineUnguarded(h: Heap, o: Options, a: Addr)
    requires o.isShort && a != NULL && a in h && h[a].Coroutine?
    ensures PrintsUnguarded(h, o, a)
  {
  }

  lemma ThrowingUserThrows(n: nat, d: int, m: int)
    requires n >= 2
    ensures Call(THROWING_NAME, SHORT, n, {}, d, m, 2) == Some(Outcome(Failure(RuntimeError), m))
  {
    var h, o := THROWING_NAME, SHORT;
    assert Call(h, o, n - 1, {2}, d, m, 3) == Some(Outcome(Failure(RuntimeError), m));
    assert {} + {2} == {2} && SlotOps([Some(3)])[0] == Visit(3);
    assert Enter(h, o, {}, d, m, 2) == Body({2}, d, false, SlotOps([Some(3)]) + []);
    assert CallOp(h, o, n - 1, {2}, d, m, (SlotOps([Some(3)]) + [])[0]) == Some(Run([], Some(RuntimeError), m));
  }

  /** With throwing checks the condition is not necessary for these calls: a name that throws as root breaks off. */
  lemma ThrowingNameEnds(d: int, m: int, a: Addr)
    ensures Ends(THROWING_NAME, SHORT, {}, d, m, a)
  {
    hide CallOps;
    var h, o := THROWING_NAME, SHORT;
    ThrowingUserThrows(2, d, m);
    ThrowingUserThrows(3, d, m);
    if a == 1 { ThrowingBody(d, m); }
    assert Call(h, o, 3, {}, d, m, a).Some?;
  }

  lemma ThrowingBody(d: int, m: int)
    ensures CallOps(THROWING_NAME, SHORT, 2, {}, d, m, [Visit(2)] + FrameRefOps(FrameAt(Some(1)))).Some?
  {
    hide Call;
    ThrowingUserThrows(2, d, m);
    assert ([Visit(2)] + FrameRefOps(FrameAt(Some(1))))[0] == Visit(2);
  }

  /** A coroutine that is its own name is never printed in short output, whatever is in progress. */
  lemma {:induction false} SelfNamedNeverEnds(h: Heap, o: Options, n: nat, p: set<Addr>, d: int, m: int, a: Addr)
    requires o.isShort && a != NULL && a in h && h[a].Coroutine? && h[a].qualname == a
    ensures Call(h, o, n, p, d, m, a).None?
  {
    hide CallOps;
    if n > 0 {
      SelfNamedNeverEnds(h, o, n - 1, p, d, m, a);
      NameIsStuck(h, o, n - 1, p, d, m, a, h[a].frame);
    }
  }
}
