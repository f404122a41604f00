/** What every traversal guarantees: where exceptions come from, and the depth limit it leaves behind. */
module TraversalProperties {
  import opened Graphs
  import opened Heap
  import opened Traversal
  import opened Unguarded
  import opened Wrappers

  // ----- Repr bodies -----

  /** What a body may do: overwrite the depth limit with 2, throw one fault outside a catch. */
  datatype Context = Context(limits: bool, throws: Option<Fault>)

  /** A body within its context. */
  predicate Plain(c: Context, ops: seq<Op>)
    decreases ops
  {
    forall i | 0 <= i < |ops| :: PlainOp(c, ops[i])
  }

  predicate PlainOp(c: Context, op: Op)
    decreases op
  {
    match op
    case Visit(a) => true
    case Indent(sub) => Plain(c, sub)
    case Try(_, sub) => Plain(c.(throws := None), sub) || (|sub| == 1 && sub[0].Throw?)
    case LimitTo(limit, sub) => c.limits && limit == 2 && Plain(c, sub)
    case Throw(f) => c.throws == Some(f)
  }

  function ContextOf(o: Options, root: bool, obj: Obj): Context {
    Context(
      root && obj.Type?,
      if obj.User? then Some(OutOfRange)
      else if o.isShort && obj.Coroutine? && obj.frame.FaultyFrame? then Some(obj.frame.fault)
      else None)
  }

  function PlanBody(plan: Plan): seq<Op> {
    if plan.Guarded? || plan.Slots? || plan.Bare? then plan.ops else []
  }

  lemma PlanIsPlain(h: Heap, o: Options, root: bool, obj: Obj)
    ensures Plain(ContextOf(o, root, obj), PlanBody(PlanOf(h, o, root, obj)))
  {
    hide NonNull, Shown, PairAddrs, VariableAddrs, FieldAddrs, FrameOps, SlotOps, FrameRefOps;
    match obj {
      case Type(_, _, _) => TypeIsPlain(h, o, root, obj);
      case User(_, _) => UserIsPlain(h, o, root, obj);
      case Coroutine(_, _, _) => CoroutineIsPlain(h, o, root, obj);
      case Gathering(_, _) => GatheringIsPlain(h, o, root, obj);
      case Frame(_, _, _, _, _, _, _) => FrameIsPlain(o, obj, ContextOf(o, root, obj));
      case _ =>
    }
  }

  lemma TypeIsPlain(h: Heap, o: Options, root: bool, obj: Obj)
    requires obj.Type?
    ensures Plain(ContextOf(o, root, obj), PlanBody(PlanOf(h, o, root, obj)))
  {
    assert Plain(ContextOf(o, root, obj), [Visit(obj.dict)]);
  }

  lemma UserIsPlain(h: Heap, o: Options, root: bool, obj: Obj)
    requires obj.User?
    ensures Plain(ContextOf(o, root, obj), PlanBody(PlanOf(h, o, root, obj)))
  {
    assert Plain(ContextOf(o, root, obj), [Visit(obj.attributes)]);
  }

  lemma CoroutineIsPlain(h: Heap, o: Options, root: bool, obj: Obj)
    requires obj.Coroutine?
    ensures Plain(ContextOf(o, root, obj), PlanBody(PlanOf(h, o, root, obj)))
  {
    hide NonNull;
    if obj.frame.FrameAt? && obj.frame.file.Some? {
      assert Plain(ContextOf(o, root, obj), [Visit(obj.frame.file.value)]);
    }
  }

  lemma GatheringIsPlain(h: Heap, o: Options, root: bool, obj: Obj)
    requires obj.Gathering?
    ensures Plain(ContextOf(o, root, obj), PlanBody(PlanOf(h, o, root, obj)))
  {
    hide FieldAddrs;
    if obj.children.Some? { assert Plain(ContextOf(o, root, obj), Visits(obj.children.value)); }
  }

  lemma FrameIsPlain(o: Options, f: Obj, c: Context)
    requires f.Frame? && c.throws == None
    ensures Plain(c, FrameOps(f, o))
  {
    hide VariableAddrs;
    assert c.(throws := None) == c;
    if f.where.Some? { assert Plain(c, [Visit(f.where.value)]); }
    assert Plain(c, WhereOps(f.where));
    if f.variables.Some? {
      assert Plain(c, Visits(VariableAddrs(f.variables.value)));
      assert Plain(c, [Indent(Visits(VariableAddrs(f.variables.value)))]);
    }
  }

  /** The body a call runs is plain. */
  lemma BodyIsPlain(h: Heap, o: Options, p: set<Addr>, d: int, m: int, a: Addr)
    requires Enter(h, o, p, d, m, a).Body?
    ensures a in h && Plain(ContextOf(o, p == {}, h[a]), Enter(h, o, p, d, m, a).ops)
  {
    hide PlanOf, Plain;
    PlanIsPlain(h, o, p == {}, h[a]);
  }

  // ----- Faults -----

  /** Some object has a check that throws `f`. */
  ghost predicate Thrower(h: Heap, o: Options, f: Fault) { exists x <- h :: CheckThrows(o, h[x], f) }

  /** No object has a throwing check. */
  predicate Calm(h: Heap, o: Options) { forall x <- h :: !HasThrowingCheck(o, h[x]) }

  lemma ContextFault(h: Heap, o: Options, root: bool, a: Addr)
    requires a in h
    ensures var f := ContextOf(o, root, h[a]).throws; f.Some? ==> f.value == OutOfRange || Thrower(h, o, f.value)
  {
    if h[a].Coroutine? && h[a].frame.FaultyFrame? && o.isShort && h[a].frame.fault != OutOfRange {
      assert CheckThrows(o, h[a], h[a].frame.fault);
    }
  }

  lemma CalmContext(o: Options, root: bool, obj: Obj)
    requires !HasThrowingCheck(o, obj)
    ensures ContextOf(o, root, obj).throws in {None, Some(OutOfRange)}
  {
  }

  lemma EntryFaults(h: Heap, o: Options, p: set<Addr>, d: int, m: int, a: Addr)
    ensures var entry := Enter(h, o, p, d, m, a);
      entry.Now? && entry.out.repr.Failure? ==> Thrower(h, o, entry.out.repr.fault)
  {
    PlanKinds(h, o, p == {}, a);
  }

  /** An exception leaves a repr call only if some object's own checks threw it, and `out_of_range` never does. */
  lemma {:induction false} FaultsComeFromObjects(h: Heap, o: Options, p: set<Addr>, d: int, m: int, a: Addr)
    requires Printable(h, o)
    ensures var r := Eval(h, o, p, d, m, a).repr; r.Failure? ==> Thrower(h, o, r.fault)
    decreases |h.Keys - p|, 2 * Rank(h, o, a) + 1
  {
    hide Enter, Plain, Bounded, EvalOps, Printable, Rank, Thrower, Throws;
    EntryFaults(h, o, p, d, m, a);
    if Enter(h, o, p, d, m, a).Body? {
      var Body(inner, depth, _, ops) := Enter(h, o, p, d, m, a);
      EntersLower(h, o, p, d, m, a);
      BodyIsPlain(h, o, p, d, m, a);
      ContextFault(h, o, p == {}, a);
      OpsFaults(h, o, inner, depth, m, BodyBound(h, o, p, a, inner), ContextOf(o, p == {}, h[a]), ops);
    }
  }

  lemma {:induction false} OpsFaults(
    h: Heap, o: Options, p: set<Addr>, d: int, m: int, bound: nat, c: Context, ops: seq<Op>)
    requires Printable(h, o) && Bounded(h, o, bound, ops) && Plain(c, ops)
    ensures var f := EvalOps(h, o, p, d, m, bound, ops).fault;
      f.Some? ==> c.throws == f || Thrower(h, o, f.value)
    decreases |h.Keys - p|, 2 * bound, ops
  {
    hide Eval, Printable, Rank, Thrower, Throws;
    if ops != [] {
      match ops[0] {
        case Visit(a) => FaultsComeFromObjects(h, o, p, d, m, a);
        case Indent(sub) => OpsFaults(h, o, p, d + 1, m, bound, c, sub);
        case Try(_, _) =>
        case LimitTo(limit, sub) => OpsFaults(h, o, p, d, limit, bound, c, sub);
        case Throw(_) =>
      }
      var first := EvalOp(h, o, p, d, m, bound, ops[0]);
      if first.fault.None? { OpsFaults(h, o, p, d, first.limit, bound, c, ops[1..]); }
    }
  }

  /** With no check throwing `logic_error`, none is ever thrown: a root type object is not already in progress. */
  lemma LogicErrorUnreachable(h: Heap, o: Options, p: set<Addr>, d: int, m: int, a: Addr)
    requires Printable(h, o) && forall x <- h :: !CheckThrows(o, h[x], LogicError)
    ensures Eval(h, o, p, d, m, a).repr != Failure(LogicError)
  {
    FaultsComeFromObjects(h, o, p, d, m, a);
  }

  // ----- The depth limit a call leaves behind -----

  /** With nothing in progress, the call prints a type object: `a` itself, or one it leads to without a guard. */
  ghost predicate TypeAsRoot(h: Heap, o: Options, p: set<Addr>, a: Addr) {
    p == {} && exists t :: Reaches(StepGraph(h, o), a, t) && t != NULL && t in h && h[t].Type?
  }

  /** A body that may run with nothing in progress: it gets to visit nothing that prints a type object. */
  ghost predicate RootOps(h: Heap, o: Options, ops: seq<Op>)
    decreases ops
  {
    ops == [] || (RootOp(h, o, ops[0]) && (Doomed(h, o, ops[0]) || RootOps(h, o, ops[1..])))
  }

  ghost predicate RootOp(h: Heap, o: Options, op: Op)
    decreases op
  {
    match op
    case Visit(a) => !TypeAsRoot(h, o, {}, a)
    case Indent(sub) => RootOps(h, o, sub)
    case Try(_, sub) => RootOps(h, o, sub)
    case LimitTo(_, sub) => RootOps(h, o, sub)
    case Throw(_) => true
  }

  lemma StepsAvoidTypes(h: Heap, o: Options, a: Addr, b: Addr)
    requires PrintsUnguarded(h, o, a) && !TypeAsRoot(h, o, {}, a) && b in Steps(h, o, a)
    ensures !TypeAsRoot(h, o, {}, b)
  {
    hide Steps, PlanOf;
    var g := StepGraph(h, o);
    if t :| Reaches(g, b, t) && t != NULL && t in h && h[t].Type? {
      if b == NULL {
        var p :| IsPath(g, p) && p[0] == b && p[|p| - 1] == t;
        NoPathFromNull(h, o, p);
      } else {
        assert Edge(g, a, b);
        StepReaches(g, a, b, t);
      }
    }
  }

  lemma OneVisitRoot(h: Heap, o: Options, a: Addr)
    requires !TypeAsRoot(h, o, {}, a)
    ensures RootOps(h, o, [Visit(a)])
  {
    hide TypeAsRoot;
    assert [Visit(a)][1..] == [];
  }

  lemma BareIsRootOps(h: Heap, o: Options, a: Addr)
    requires PrintsUnguarded(h, o, a) && !TypeAsRoot(h, o, {}, a)
    ensures RootOps(h, o, PlanOf(h, o, true, h[a]).ops)
  {
    hide TypeAsRoot, Doomed;
    forall b | b in Steps(h, o, a) ensures !TypeAsRoot(h, o, {}, b) { StepsAvoidTypes(h, o, a, b); }
    match h[a] {
      case User(_, attributes) =>
        assert Steps(h, o, a)[0] == attributes;
        OneVisitRoot(h, o, attributes);
      case Coroutine(_, qualname, frame) =>
        assert Steps(h, o, a)[0] == qualname;
        if frame.FaultyFrame? { assert [Throw(frame.fault)][1..] == [] && RootOps(h, o, [Throw(frame.fault)]); }
        if frame.FrameAt? { WhereIsRootOps(h, o, a); }
        assert PlanOf(h, o, true, h[a]).ops[1..] == FrameRefOps(frame);
    }
  }

  lemma WhereIsRootOps(h: Heap, o: Options, a: Addr)
    requires PrintsUnguarded(h, o, a) && h[a].Coroutine? && h[a].frame.FrameAt?
    requires forall b <- Steps(h, o, a) :: !TypeAsRoot(h, o, {}, b)
    ensures Doomed(h, o, Visit(h[a].qualname)) || RootOps(h, o, WhereOps(h[a].frame.file))
  {
    hide TypeAsRoot, Throws;
    var file := h[a].frame.file;
    if file.Some? && !Throws(h, o, h[a].qualname) {
      assert Steps(h, o, a)[1] == file.value;
      OneVisitRoot(h, o, file.value);
    }
    if file.None? { assert [Throw(InvalidObject)][1..] == []; }
    assert WhereOps(file)[1..] == [];
  }

  /** What a call that prints no type object as root hands to its body. */
  lemma BodyKeepsLimits(h: Heap, o: Options, p: set<Addr>, d: int, m: int, a: Addr)
    requires Enter(h, o, p, d, m, a).Body? && !TypeAsRoot(h, o, p, a)
    ensures var Body(inner, _, _, ops) := Enter(h, o, p, d, m, a);
      a in h && !ContextOf(o, p == {}, h[a]).limits && (inner == {} ==> RootOps(h, o, ops))
  {
    hide RootOps, PlanOf;
    ReachesSelf(StepGraph(h, o), a);
    if Enter(h, o, p, d, m, a).inProgress == {} { BareIsRootOps(h, o, a); }
  }

  lemma EntryLimit(h: Heap, o: Options, p: set<Addr>, d: int, m: int, a: Addr)
    ensures var entry := Enter(h, o, p, d, m, a); entry.Now? ==> entry.out.limit == m
  {
  }

  /** Only printing a type object with nothing in progress can leave a changed depth limit behind. */
  lemma {:induction false} LimitIsKept(h: Heap, o: Options, p: set<Addr>, d: int, m: int, a: Addr)
    requires Printable(h, o) && !TypeAsRoot(h, o, p, a)
    ensures Eval(h, o, p, d, m, a).limit == m
    decreases |h.Keys - p|, 2 * Rank(h, o, a) + 1
  {
    hide Enter, Plain, Bounded, EvalOps, Printable, Rank, RootOps, TypeAsRoot, Throws;
    EntryLimit(h, o, p, d, m, a);
    if Enter(h, o, p, d, m, a).Body? {
      var Body(inner, depth, _, ops) := Enter(h, o, p, d, m, a);
      EntersLower(h, o, p, d, m, a);
      BodyIsPlain(h, o, p, d, m, a);
      BodyKeepsLimits(h, o, p, d, m, a);
      OpsKeepLimit(h, o, inner, depth, m, BodyBound(h, o, p, a, inner), ContextOf(o, p == {}, h[a]), ops);
    }
  }

  lemma {:induction false} OpsKeepLimit(
    h: Heap, o: Options, p: set<Addr>, d: int, m: int, bound: nat, c: Context, ops: seq<Op>)
    requires Printable(h, o) && Bounded(h, o, bound, ops) && Plain(c, ops) && !c.limits
    requires p == {} ==> RootOps(h, o, ops)
    ensures EvalOps(h, o, p, d, m, bound, ops).limit == m
    decreases |h.Keys - p|, 2 * bound, ops
  {
    hide Eval, EvalOp, Printable, Rank, TypeAsRoot, Throws;
    if ops != [] {
      OpKeepsLimit(h, o, p, d, m, bound, c, ops[0]);
      if EvalOp(h, o, p, d, m, bound, ops[0]).fault.None? { OpsKeepLimit(h, o, p, d, m, bound, c, ops[1..]); }
    }
  }

  lemma {:induction false} OpKeepsLimit(
    h: Heap, o: Options, p: set<Addr>, d: int, m: int, bound: nat, c: Context, op: Op)
    requires Printable(h, o) && BoundedOp(h, o, bound, op) && PlainOp(c, op) && !c.limits
    requires p == {} ==> RootOp(h, o, op)
    ensures EvalOp(h, o, p, d, m, bound, op).limit == m
    decreases |h.Keys - p|, 2 * bound, op
  {
    hide Eval, Printable, Rank, Throws, EvalOps;
    match op
    case Visit(a) => LimitIsKept(h, o, p, d, m, a);
    case Indent(sub) => OpsKeepLimit(h, o, p, d + 1, m, bound, c, sub);
    case Try(_, sub) =>
      var caught := c.(throws := None);
      if Plain(caught, sub) {
        OpsKeepLimit(h, o, p, d, m, bound, caught, sub);
      } else {
        OneThrow(h, o, p, d, m, bound, sub);
      }
    case LimitTo(_, _) =>
    case Throw(_) =>
  }

  lemma OneThrow(h: Heap, o: Options, p: set<Addr>, d: int, m: int, bound: nat, sub: seq<Op>)
    requires Printable(h, o) && Bounded(h, o, bound, sub) && |sub| == 1 && sub[0].Throw?
    ensures EvalOps(h, o, p, d, m, bound, sub) == Run([], Some(sub[0].fault), m)
  {
    hide Eval;
    assert EvalOp(h, o, p, d, m, bound, sub[0]) == Run([], Some(sub[0].fault), m);
  }

  predicate RootType(h: Heap, a: Addr) { a != NULL && a in h && h[a].Type? }
}
