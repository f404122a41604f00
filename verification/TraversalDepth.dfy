/** How deep the output nests: what the depth limit bounds, and exactly when it bounds the nesting itself. */
module TraversalDepth {
  import opened Contents
  import opened Graphs
  import opened Heap
  import opened Traversal
  import opened TraversalProperties
  import opened Unguarded
  import opened Wrappers

  function Max(x: nat, y: nat): nat { if x < y then y else x }

  /** What a marker and an object that does not indent its contents add to a branch; one that indents adds 1. */
  datatype Weights = Weights(mark: nat, flat: nat)

  const INDENTS := Weights(0, 0)
  const OBJECTS := Weights(0, 1)
  const LEVELS := Weights(1, 1)

  /** The heaviest branch of a tree. */
  function Height(t: Tree, w: Weights): nat {
    match t
    case Mark(_, _) => w.mark
    case Node(_, indents, children) => (if indents then 1 else w.flat) + MaxHeight(children, w)
  }

  function MaxHeight(ts: seq<Tree>, w: Weights): nat {
    if ts == [] then 0 else Max(Height(ts[0], w), MaxHeight(ts[1..], w))
  }

  function RunHeight(run: Run, w: Weights): nat { MaxHeight(run.trees, w) }

  function OutcomeHeight(out: Outcome, w: Weights): nat {
    if out.repr.Success? then Height(out.repr.value, w) else 0
  }

  lemma {:induction false} MaxHeightConcat(xs: seq<Tree>, ys: seq<Tree>, w: Weights)
    ensures MaxHeight(xs + ys, w) == Max(MaxHeight(xs, w), MaxHeight(ys, w))
  {
    if xs == [] {
      assert xs + ys == ys;
    } else {
      MaxHeightConcat(xs[1..], ys, w);
      assert (xs + ys)[1..] == xs[1..] + ys;
    }
  }

  lemma {:induction false} TreeBelowMax(ts: seq<Tree>, i: nat, w: Weights)
    requires i < |ts|
    ensures Height(ts[i], w) <= MaxHeight(ts, w)
  {
    if i > 0 { TreeBelowMax(ts[1..], i - 1, w); }
  }

  lemma OneTree(t: Tree, w: Weights)
    ensures MaxHeight([t], w) == Height(t, w) && MaxHeight([], w) == 0
  {
    assert [t][1..] == [];
  }

  function LeafWeight(w: Weights): nat { Max(w.mark, w.flat) }

  lemma EntryHeight(h: Heap, o: Options, p: set<Addr>, d: int, m: int, a: Addr, w: Weights)
    ensures var entry := Enter(h, o, p, d, m, a); entry.Now? ==> OutcomeHeight(entry.out, w) <= LeafWeight(w)
  {
    assert MaxHeight([], w) == 0;
  }

  lemma FinishHeight(obj: Obj, a: Addr, indents: bool, run: Run, w: Weights)
    ensures OutcomeHeight(Finish(obj, a, indents, run), w)
         <= Max(LeafWeight(w), (if indents then 1 else w.flat) + RunHeight(run, w))
  {
    assert MaxHeight([], w) == 0;
  }

  lemma HandledHeight(keeps: bool, run: Run, w: Weights)
    ensures RunHeight(Handled(keeps, run), w) <= Max(w.mark, RunHeight(run, w))
  {
    if run.fault.Some? {
      OneTree(Mark(NULL, Caught(run.fault.value)), w);
      MaxHeightConcat(if keeps then run.trees else [], [Mark(NULL, Caught(run.fault.value))], w);
    }
  }

  lemma VisitHeight(
    h: Heap, o: Options, p: set<Addr>, d: int, m: int, bound: nat, a: Addr, w: Weights)
    requires Printable(h, o) && Rank(h, o, a) < bound
    ensures RunHeight(EvalOp(h, o, p, d, m, bound, Visit(a)), w) == OutcomeHeight(Eval(h, o, p, d, m, a), w)
  {
    hide Eval, Rank, Printable, Throws;
    var out := Eval(h, o, p, d, m, a);
    OneTree(if out.repr.Success? then out.repr.value else Mark(a, Null), w);
  }

  // ----- What the depth limit bounds -----

  /** Depths left below the limit; an object is only expanded while there is one. */
  function Room(d: int, m: int): nat { if d < m then m - d else 0 }

  lemma EntryDepth(h: Heap, o: Options, p: set<Addr>, d: int, m: nat, cap: nat, a: Addr)
    requires Enter(h, o, p, d, m, a).Body? && m <= cap
    ensures var Body(_, depth, indents, _) := Enter(h, o, p, d, m, a);
      if indents then depth == d + 1 && d < m && Room(depth, cap) + 1 == Room(d, cap) else depth == d
  {
  }

  /** Printing a type object as root overwrites the limit with 2; this stays below `cap`, or is not reached. */
  predicate TypesFit(d: int, cap: nat) { 0 <= d && (cap >= 2 || d >= cap) }

  /** Under a limit up to `cap`, no branch holds more indenting objects than there are depths below it. */
  lemma {:induction false} IndentsWithin(h: Heap, o: Options, p: set<Addr>, d: int, m: nat, cap: nat, a: Addr)
    requires Printable(h, o) && m <= cap && (TypeAsRoot(h, o, p, a) ==> TypesFit(d, cap))
    ensures var out := Eval(h, o, p, d, m, a); OutcomeHeight(out, INDENTS) <= Room(d, cap) && 0 <= out.limit <= cap
    decreases |h.Keys - p|, 2 * Rank(h, o, a) + 1
  {
    hide Enter, Plain, Bounded, Eval, EvalOps, Printable, Rank, RootOps, TypeAsRoot, Throws, Finish, MaxHeight, Room;
    EvalEntry(h, o, p, d, m, a);
    EntryHeight(h, o, p, d, m, a, INDENTS);
    EntryLimit(h, o, p, d, m, a);
    if Enter(h, o, p, d, m, a).Body? {
      var Body(inner, depth, indents, ops) := Enter(h, o, p, d, m, a);
      var bound := BodyBound(h, o, p, a, inner);
      EntersLower(h, o, p, d, m, a);
      EntryDepth(h, o, p, d, m, cap, a);
      BodyIsPlain(h, o, p, d, m, a);
      TypeBodyFits(h, o, p, d, m, cap, a);
      OpsIndents(h, o, inner, depth, m, cap, bound, ContextOf(o, p == {}, h[a]), ops);
      FinishHeight(h[a], a, indents, EvalOps(h, o, inner, depth, m, bound, ops), INDENTS);
      FinishLimit(h[a], a, indents, EvalOps(h, o, inner, depth, m, bound, ops));
    }
  }

  lemma FinishLimit(obj: Obj, a: Addr, indents: bool, run: Run)
    ensures Finish(obj, a, indents, run).limit == run.limit
  {
  }

  lemma TypeBodyFits(h: Heap, o: Options, p: set<Addr>, d: int, m: nat, cap: nat, a: Addr)
    requires Enter(h, o, p, d, m, a).Body? && m <= cap && (TypeAsRoot(h, o, p, a) ==> TypesFit(d, cap))
    ensures var Body(inner, depth, _, ops) := Enter(h, o, p, d, m, a);
      && a in h && (ContextOf(o, p == {}, h[a]).limits ==> cap >= 2)
      && (inner == {} ==> RootOps(h, o, ops) || TypesFit(depth, cap))
  {
    hide RootOps, Reaches;
    ReachesSelf(StepGraph(h, o), a);
    if !TypeAsRoot(h, o, p, a) { BodyKeepsLimits(h, o, p, d, m, a); }
  }

  lemma {:induction false} OpsIndents(
    h: Heap, o: Options, p: set<Addr>, d: int, m: nat, cap: nat, bound: nat, c: Context, ops: seq<Op>)
    requires Printable(h, o) && Bounded(h, o, bound, ops) && Plain(c, ops) && m <= cap && (c.limits ==> cap >= 2)
    requires p == {} ==> RootOps(h, o, ops) || TypesFit(d, cap)
    ensures var run := EvalOps(h, o, p, d, m, bound, ops);
      RunHeight(run, INDENTS) <= Room(d, cap) && 0 <= run.limit <= cap
    decreases |h.Keys - p|, 2 * bound, ops
  {
    hide Eval, EvalOp, Printable, Rank, TypeAsRoot, Throws;
    if ops != [] {
      OpIndents(h, o, p, d, m, cap, bound, c, ops[0]);
      var first := EvalOp(h, o, p, d, m, bound, ops[0]);
      if first.fault.None? {
        OpsIndents(h, o, p, d, first.limit, cap, bound, c, ops[1..]);
        MaxHeightConcat(first.trees, EvalOps(h, o, p, d, first.limit, bound, ops[1..]).trees, INDENTS);
      }
    }
  }

  lemma {:induction false} OpIndents(
    h: Heap, o: Options, p: set<Addr>, d: int, m: nat, cap: nat, bound: nat, c: Context, op: Op)
    requires Printable(h, o) && BoundedOp(h, o, bound, op) && PlainOp(c, op) && m <= cap && (c.limits ==> cap >= 2)
    requires p == {} ==> RootOp(h, o, op) || TypesFit(d, cap)
    ensures var run := EvalOp(h, o, p, d, m, bound, op);
      RunHeight(run, INDENTS) <= Room(d, cap) && 0 <= run.limit <= cap
    decreases |h.Keys - p|, 2 * bound, op
  {
    hide Eval, EvalOps, Printable, Rank, Throws, MaxHeight, Reaches;
    match op
    case Visit(a) =>
      IndentsWithin(h, o, p, d, m, cap, a);
      VisitHeight(h, o, p, d, m, bound, a, INDENTS);
    case Indent(sub) => OpsIndents(h, o, p, d + 1, m, cap, bound, c, sub);
    case Try(keeps, sub) =>
      var run := EvalOps(h, o, p, d, m, bound, sub);
      var caught := c.(throws := None);
      if Plain(caught, sub) {
        OpsIndents(h, o, p, d, m, cap, bound, caught, sub);
      } else {
        OneThrow(h, o, p, d, m, bound, sub);
      }
      HandledHeight(keeps, run, INDENTS);
      OneTree(Mark(NULL, Null), INDENTS);
    case LimitTo(limit, sub) => OpsIndents(h, o, p, d, limit, cap, bound, c, sub);
    case Throw(_) => OneTree(Mark(NULL, Null), INDENTS);
  }

  /**
   * Under a depth limit, no branch holds more objects that indent their contents than there were depths left; for a
   * type object printed with nothing in progress, unless that is at depth 0 under the limit 1.
   */
  lemma IndentsAreLimited(h: Heap, o: Options, p: set<Addr>, d: int, m: nat, a: Addr)
    requires Printable(h, o) && (TypeAsRoot(h, o, p, a) ==> d >= 0 && !(d == 0 && m == 1))
    ensures OutcomeHeight(Eval(h, o, p, d, m, a), INDENTS) <= Room(d, m)
  {
    hide Eval, Printable, TypeAsRoot;
    IndentsWithin(h, o, p, d, m, m, a);
  }

  // ----- When it bounds the nesting -----

  /** A body that prints something. */
  predicate Prints(ops: seq<Op>)
    decreases ops
  {
    exists i :: 0 <= i < |ops| && PrintsOp(ops[i])
  }

  predicate PrintsOp(op: Op)
    decreases op
  {
    match op
    case Visit(_) => true
    case Indent(sub) => Prints(sub)
    case Try(_, sub) => Prints(sub) || (|sub| == 1 && sub[0].Throw?)
    case LimitTo(_, sub) => Prints(sub)
    case Throw(_) => false
  }

  /** An object that is not the root shows something of itself when it is expanded. */
  predicate Expands(h: Heap, o: Options, a: Addr) {
    && a != NULL && a in h
    && match PlanOf(h, o, false, h[a])
       case Guarded(_, _, ops) => Prints(ops)
       case _ => false
  }

  /** A coroutine that short output prints with its name; one whose frame cannot be read is printed as a marker. */
  predicate ShowsName(h: Heap, o: Options, a: Addr) {
    o.isShort && a != NULL && a in h && h[a].Coroutine? && !h[a].frame.FaultyFrame?
  }

  /** The list `l` shows another object that shows something of itself. */
  predicate ListShowsMore(h: Heap, o: Options, l: Addr, x: Addr) {
    l != NULL && l in h && h[l].List? && x in Shown(h[l].items, o.maxEntries) && x != l && Expands(h, o, x)
  }

  /** Lists hold nothing that is expanded, and nothing ignores the depth limit. */
  ghost predicate Flat(h: Heap, o: Options) {
    (forall l, x :: !ListShowsMore(h, o, l, x)) && (forall c :: !ShowsName(h, o, c))
  }

  /** What neither prints nor throws. */
  predicate Silent(ops: seq<Op>) { !Prints(ops) && Plain(Context(false, None), ops) }

  lemma {:induction false} SilentRun(h: Heap, o: Options, p: set<Addr>, d: int, m: int, bound: nat, ops: seq<Op>)
    requires Printable(h, o) && Bounded(h, o, bound, ops) && Silent(ops)
    ensures EvalOps(h, o, p, d, m, bound, ops) == Run([], None, m)
    decreases ops
  {
    hide Eval, Printable, Rank, Throws;
    if ops != [] {
      assert !PrintsOp(ops[0]) && PlainOp(Context(false, None), ops[0]);
      match ops[0] {
        case Indent(sub) => SilentRun(h, o, p, d + 1, m, bound, sub);
        case Try(_, sub) => SilentRun(h, o, p, d, m, bound, sub);
        case _ =>
      }
      assert forall i | 0 <= i < |ops[1..]| :: ops[1..][i] == ops[i + 1];
      SilentRun(h, o, p, d, m, bound, ops[1..]);
    }
  }

  predicate IsLeaf(r: Result<Tree>) { r.Success? ==> Height(r.value, LEVELS) == 1 }

  /** What is neither expanded nor named is printed as one level. */
  lemma NotExpandedIsLeaf(h: Heap, o: Options, p: set<Addr>, d: int, m: int, a: Addr)
    requires Printable(h, o) && p != {} && !Expands(h, o, a) && !ShowsName(h, o, a)
    ensures IsLeaf(Eval(h, o, p, d, m, a).repr)
  {
    hide Bounded, EvalOps, Printable, Rank, Throws, Plain, Prints, PlanOf;
    EntryHeight(h, o, p, d, m, a, LEVELS);
    assert MaxHeight([], LEVELS) == 0;
    PlanKinds(h, o, false, a);
    if Enter(h, o, p, d, m, a).Body? {
      var Body(inner, depth, indents, ops) := Enter(h, o, p, d, m, a);
      EntersLower(h, o, p, d, m, a);
      if inner == p {
        UnguardedEntry(h, o, p, d, m, a);
        NamelessIsLeaf(h, o, p, d, m, a);
      } else {
        PlanIsPlain(h, o, false, h[a]);
        GuardedContext(h, o, a);
        SilentRun(h, o, inner, depth, m, BodyBound(h, o, p, a, inner), ops);
      }
    }
  }

  lemma GuardedContext(h: Heap, o: Options, a: Addr)
    requires a in h && PlanOf(h, o, false, h[a]).Guarded?
    ensures ContextOf(o, false, h[a]) == Context(false, None)
  {
  }

  /** A coroutine whose frame throws shows nothing of its name. */
  lemma NamelessIsLeaf(h: Heap, o: Options, p: set<Addr>, d: int, m: int, a: Addr)
    requires Printable(h, o) && !ShowsName(h, o, a) && a in h && !h[a].User?
    requires Enter(h, o, p, d, m, a).Body? && Enter(h, o, p, d, m, a).inProgress == p
    ensures IsLeaf(Eval(h, o, p, d, m, a).repr)
  {
    hide Rank, Throws, Bounded, Printable, EvalOps;
    EntersLower(h, o, p, d, m, a);
    var ops := Enter(h, o, p, d, m, a).ops;
    assert ops[1..] == [Throw(h[a].frame.fault)];
    LastThrows(h, o, p, d, m, Rank(h, o, a), ops);
    OneTree(Mark(a, InvalidAddr), LEVELS);
  }

  lemma LastThrows(h: Heap, o: Options, p: set<Addr>, d: int, m: int, bound: nat, ops: seq<Op>)
    requires Printable(h, o) && Bounded(h, o, bound, ops) && |ops| == 2 && ops[0].Visit? && ops[1].Throw?
    ensures EvalOps(h, o, p, d, m, bound, ops).fault.Some?
  {
    hide Eval, Rank, Throws, Printable;
    var first := EvalOp(h, o, p, d, m, bound, ops[0]);
    if first.fault.None? {
      assert ops[1..][0] == ops[1];
      assert EvalOps(h, o, p, d, first.limit, bound, ops[1..]).fault.Some?;
    }
  }

  lemma {:induction false} LeavesOnly(h: Heap, o: Options, p: set<Addr>, d: int, m: int, bound: nat, addrs: seq<Addr>)
    requires Printable(h, o) && p != {} && Bounded(h, o, bound, Visits(addrs))
    requires forall x <- addrs :: IsLeaf(Eval(h, o, p, d, m, x).repr)
    ensures RunHeight(EvalOps(h, o, p, d, m, bound, Visits(addrs)), LEVELS) <= 1
    decreases |addrs|
  {
    hide Eval, Printable, Rank, Throws, Plain;
    if addrs != [] {
      assert Visits(addrs)[1..] == Visits(addrs[1..]);
      VisitHeight(h, o, p, d, m, bound, addrs[0], LEVELS);
      LimitIsKept(h, o, p, d, m, addrs[0]);
      var first := EvalOp(h, o, p, d, m, bound, Visit(addrs[0]));
      if first.fault.None? {
        LeavesOnly(h, o, p, d, m, bound, addrs[1..]);
        MaxHeightConcat(first.trees, EvalOps(h, o, p, d, m, bound, Visits(addrs[1..])).trees, LEVELS);
      }
    }
  }

  /** What an expansion without an indent holds: a list, or an object that is only expanded as root. */
  lemma FlatEntry(h: Heap, o: Options, p: set<Addr>, d: int, m: nat, a: Addr)
    requires Enter(h, o, p, d, m, a).Body? && !ShowsName(h, o, a)
    ensures var Body(inner, depth, indents, ops) := Enter(h, o, p, d, m, a);
      && a in h && a != NULL
      && (inner != p ==> inner == p + {a})
      && (inner == p ==> (p == {} && h[a].User? && ops == [Visit(h[a].attributes)]) || h[a].Coroutine?)
      && (inner != p && !indents ==>
            (p == {} && h[a].User?) || (d < m && h[a].List? && ops == Visits(Shown(h[a].items, o.maxEntries))))
  {
  }

  lemma InProgressIsLeaf(h: Heap, o: Options, p: set<Addr>, d: int, m: int, a: Addr)
    requires Printable(h, o) && a in p && a in h && h[a].List?
    ensures IsLeaf(Eval(h, o, p, d, m, a).repr)
  {
    assert MaxHeight([], LEVELS) == 0;
  }

  lemma FlatListHeight(h: Heap, o: Options, p: set<Addr>, d: int, m: nat, bound: nat, a: Addr)
    requires Printable(h, o) && Flat(h, o) && a in p && a != NULL && a in h && h[a].List?
    requires Bounded(h, o, bound, Visits(Shown(h[a].items, o.maxEntries)))
    ensures RunHeight(EvalOps(h, o, p, d, m, bound, Visits(Shown(h[a].items, o.maxEntries))), LEVELS) <= 1
  {
    hide Expands, ShowsName, IsLeaf, Eval, EvalOps, Printable, Bounded;
    var shown := Shown(h[a].items, o.maxEntries);
    forall x | x in shown ensures IsLeaf(Eval(h, o, p, d, m, x).repr) {
      assert !ListShowsMore(h, o, a, x);
      if x == a { InProgressIsLeaf(h, o, p, d, m, x); } else { NotExpandedIsLeaf(h, o, p, d, m, x); }
    }
    LeavesOnly(h, o, p, d, m, bound, shown);
  }

  /** A user object printed as root checks no limit: one level more. */
  predicate UserAsRoot(h: Heap, p: set<Addr>, a: Addr) { p == {} && a != NULL && a in h && h[a].User? }

  /** On a flat heap, under a limit up to `cap`, no branch is longer than the depths below it plus one. */
  lemma {:induction false} FlatWithin(h: Heap, o: Options, p: set<Addr>, d: int, m: nat, cap: nat, a: Addr)
    requires Printable(h, o) && Flat(h, o) && m <= cap && (p == {} && RootType(h, a) ==> TypesFit(d, cap))
    ensures OutcomeHeight(Eval(h, o, p, d, m, a), LEVELS)
         <= Room(d, cap) + 1 + (if UserAsRoot(h, p, a) then 1 else 0)
    decreases |h.Keys - p|, 2 * Rank(h, o, a) + 1
  {
    hide Enter, Plain, Bounded, Eval, EvalOps, Printable, Rank, Throws, Finish, MaxHeight, ShowsName, Flat, Room;
    FlatNames(h, o, a);
    EvalEntry(h, o, p, d, m, a);
    EntryHeight(h, o, p, d, m, a, LEVELS);
    if Enter(h, o, p, d, m, a).Body? {
      var Body(inner, depth, indents, ops) := Enter(h, o, p, d, m, a);
      var bound := BodyBound(h, o, p, a, inner);
      EntersLower(h, o, p, d, m, a);
      EntryDepth(h, o, p, d, m, cap, a);
      FlatEntry(h, o, p, d, m, a);
      BodyIsPlain(h, o, p, d, m, a);
      if inner == p {
        FlatUnguarded(h, o, p, d, m, cap, a);
      } else if indents || UserAsRoot(h, p, a) {
        TypeContextFits(h, o, p, d, m, cap, a);
        OpsLevels(h, o, inner, depth, m, cap, bound, ContextOf(o, p == {}, h[a]), ops);
        FinishHeight(h[a], a, indents, EvalOps(h, o, inner, depth, m, bound, ops), LEVELS);
      } else {
        FlatListHeight(h, o, inner, d, m, bound, a);
        FinishHeight(h[a], a, indents, EvalOps(h, o, inner, depth, m, bound, ops), LEVELS);
        RoomBelow(d, m, cap);
      }
    }
  }

  lemma RoomBelow(d: int, m: nat, cap: nat)
    requires d < m <= cap
    ensures Room(d, cap) >= 1
  {
  }

  lemma TypeContextFits(h: Heap, o: Options, p: set<Addr>, d: int, m: nat, cap: nat, a: Addr)
    requires Enter(h, o, p, d, m, a).Body? && m <= cap && (p == {} && RootType(h, a) ==> TypesFit(d, cap))
    ensures a in h && (ContextOf(o, p == {}, h[a]).limits ==> cap >= 2)
  {
  }

  /** Without a guard: a user object as root around its dict, or a coroutine that shows nothing. */
  lemma {:induction false} FlatUnguarded(h: Heap, o: Options, p: set<Addr>, d: int, m: nat, cap: nat, a: Addr)
    requires Printable(h, o) && Flat(h, o) && m <= cap
    requires Enter(h, o, p, d, m, a).Body? && Enter(h, o, p, d, m, a).inProgress == p
    ensures OutcomeHeight(Eval(h, o, p, d, m, a), LEVELS)
         <= Room(d, cap) + 1 + (if UserAsRoot(h, p, a) then 1 else 0)
    decreases |h.Keys - p|, 2 * Rank(h, o, a) + 1, 0
  {
    hide Enter, Bounded, Eval, EvalOps, Printable, Rank, Throws, Finish, MaxHeight, ShowsName, Flat, PlanOf, Room;
    FlatNames(h, o, a);
    UnguardedEntry(h, o, p, d, m, a);
    if h[a].User? {
      var dict := h[a].attributes;
      EvalEntry(h, o, p, d, m, a);
      StepLowersRank(h, o, a, dict);
      DictIsNoRoot(h, o, a);
      FlatWithin(h, o, p, d, m, cap, dict);
      OneVisitHeight(h, o, p, d, m, Rank(h, o, a), dict, LEVELS);
      FinishHeight(h[a], a, false, EvalOps(h, o, p, d, m, Rank(h, o, a), [Visit(dict)]), LEVELS);
      UnguardedDoesNotIndent(h, o, p, d, m, a);
    } else {
      NamelessIsLeaf(h, o, p, d, m, a);
    }
  }

  lemma DictIsNoRoot(h: Heap, o: Options, a: Addr)
    requires PrintsUnguarded(h, o, a) && h[a].User?
    ensures var dict := h[a].attributes; !RootType(h, dict) && !UserAsRoot(h, {}, dict)
  {
  }

  lemma UnguardedDoesNotIndent(h: Heap, o: Options, p: set<Addr>, d: int, m: int, a: Addr)
    requires Enter(h, o, p, d, m, a).Body? && Enter(h, o, p, d, m, a).inProgress == p
    ensures !Enter(h, o, p, d, m, a).indents
  {
  }

  lemma FlatNames(h: Heap, o: Options, c: Addr)
    requires Flat(h, o)
    ensures !ShowsName(h, o, c)
  {
  }

  lemma {:induction false} OpsLevels(
    h: Heap, o: Options, p: set<Addr>, d: int, m: nat, cap: nat, bound: nat, c: Context, ops: seq<Op>)
    requires Printable(h, o) && Flat(h, o) && p != {} && Bounded(h, o, bound, ops)
    requires Plain(c, ops) && m <= cap && (c.limits ==> cap >= 2)
    ensures RunHeight(EvalOps(h, o, p, d, m, bound, ops), LEVELS) <= Room(d, cap) + 1
    decreases |h.Keys - p|, 2 * bound, ops
  {
    hide Eval, EvalOp, Printable, Rank, Throws, Flat;
    if ops != [] {
      OpLevels(h, o, p, d, m, cap, bound, c, ops[0]);
      OpIndents(h, o, p, d, m, cap, bound, c, ops[0]);
      var first := EvalOp(h, o, p, d, m, bound, ops[0]);
      if first.fault.None? {
        OpsLevels(h, o, p, d, first.limit, cap, bound, c, ops[1..]);
        MaxHeightConcat(first.trees, EvalOps(h, o, p, d, first.limit, bound, ops[1..]).trees, LEVELS);
      }
    }
  }

  lemma {:induction false} OpLevels(
    h: Heap, o: Options, p: set<Addr>, d: int, m: nat, cap: nat, bound: nat, c: Context, op: Op)
    requires Printable(h, o) && Flat(h, o) && p != {} && BoundedOp(h, o, bound, op)
    requires PlainOp(c, op) && m <= cap && (c.limits ==> cap >= 2)
    ensures RunHeight(EvalOp(h, o, p, d, m, bound, op), LEVELS) <= Room(d, cap) + 1
    decreases |h.Keys - p|, 2 * bound, op
  {
    hide Eval, EvalOps, Printable, Rank, Throws, MaxHeight, Flat;
    match op
    case Visit(a) =>
      FlatWithin(h, o, p, d, m, cap, a);
      VisitHeight(h, o, p, d, m, bound, a, LEVELS);
    case Indent(sub) => OpsLevels(h, o, p, d + 1, m, cap, bound, c, sub);
    case Try(keeps, sub) =>
      var run := EvalOps(h, o, p, d, m, bound, sub);
      OneTree(Mark(NULL, Null), LEVELS);
      var caught := c.(throws := None);
      if Plain(caught, sub) {
        OpsLevels(h, o, p, d, m, cap, bound, caught, sub);
      } else {
        OneThrow(h, o, p, d, m, bound, sub);
      }
      HandledHeight(keeps, run, LEVELS);
    case LimitTo(limit, sub) => OpsLevels(h, o, p, d, limit, cap, bound, c, sub);
    case Throw(_) => OneTree(Mark(NULL, Null), LEVELS);
  }

  /** The levels a branch may have: those left and one, and one more for some root user and type objects. */
  function Levels(h: Heap, p: set<Addr>, d: int, m: nat, a: Addr): nat {
    Room(d, m) + 1
    + (if UserAsRoot(h, p, a) || (p == {} && RootType(h, a) && d == 0 && m == 1) then 1 else 0)
  }

  /** On a flat heap the depth limit bounds the nesting itself, counting markers as a level. */
  lemma FlatIsLimited(h: Heap, o: Options, p: set<Addr>, d: int, m: nat, a: Addr)
    requires Printable(h, o) && Flat(h, o) && (p == {} && RootType(h, a) ==> d >= 0)
    ensures OutcomeHeight(Eval(h, o, p, d, m, a), LEVELS) <= Levels(h, p, d, m, a)
  {
    hide Eval, Printable, Flat;
    FlatWithin(h, o, p, d, m, if p == {} && RootType(h, a) && d == 0 && m == 1 then 2 else m, a);
  }

  // ----- And only then -----

  lemma CalmPrints(h: Heap, o: Options, p: set<Addr>, d: int, m: int, a: Addr)
    requires Printable(h, o) && Calm(h, o)
    ensures Eval(h, o, p, d, m, a).repr.Success?
  {
    FaultsComeFromObjects(h, o, p, d, m, a);
  }

  lemma CalmRun(h: Heap, o: Options, p: set<Addr>, d: int, m: int, bound: nat, c: Context, ops: seq<Op>)
    requires Printable(h, o) && Calm(h, o) && Bounded(h, o, bound, ops) && Plain(c, ops) && c.throws == None
    ensures EvalOps(h, o, p, d, m, bound, ops).fault.None?
  {
    OpsFaults(h, o, p, d, m, bound, c, ops);
  }

  lemma {:induction false} PrintedSomething(
    h: Heap, o: Options, p: set<Addr>, d: int, m: int, bound: nat, c: Context, ops: seq<Op>)
    requires Printable(h, o) && Calm(h, o) && Bounded(h, o, bound, ops)
    requires Plain(c, ops) && c.throws == None && Prints(ops)
    ensures EvalOps(h, o, p, d, m, bound, ops).trees != []
    decreases ops
  {
    hide Eval, EvalOp, Printable, Rank, Throws;
    CalmRun(h, o, p, d, m, bound, c, ops);
    var first := EvalOp(h, o, p, d, m, bound, ops[0]);
    if PrintsOp(ops[0]) {
      PrintedSomethingOp(h, o, p, d, m, bound, c, ops[0]);
    } else {
      var i :| 0 <= i < |ops| && PrintsOp(ops[i]);
      assert ops[1..][i - 1] == ops[i];
      PrintedSomething(h, o, p, d, first.limit, bound, c, ops[1..]);
    }
  }

  lemma {:induction false} PrintedSomethingOp(
    h: Heap, o: Options, p: set<Addr>, d: int, m: int, bound: nat, c: Context, op: Op)
    requires Printable(h, o) && Calm(h, o) && BoundedOp(h, o, bound, op)
    requires PlainOp(c, op) && c.throws == None && PrintsOp(op)
    ensures EvalOp(h, o, p, d, m, bound, op).trees != []
    decreases op
  {
    hide Eval, Printable, Rank, Throws, Prints;
    match op
    case Visit(a) => CalmPrints(h, o, p, d, m, a);
    case Indent(sub) => PrintedSomething(h, o, p, d + 1, m, bound, c, sub);
    case Try(_, sub) =>
      if Plain(c, sub) {
        if |sub| == 1 { assert PlainOp(c, sub[0]); }
        CalmRun(h, o, p, d, m, bound, c, sub);
        PrintedSomething(h, o, p, d, m, bound, c, sub);
      } else {
        OneThrow(h, o, p, d, m, bound, sub);
      }
    case LimitTo(limit, sub) => PrintedSomething(h, o, p, d, limit, bound, c, sub);
    case Throw(_) =>
  }

  lemma TreesWeigh(ts: seq<Tree>)
    requires ts != []
    ensures MaxHeight(ts, LEVELS) >= 1
  {
    TreeBelowMax(ts, 0, LEVELS);
  }

  /** An expanded object is two levels at least. */
  lemma ExpandedIsDeep(h: Heap, o: Options, p: set<Addr>, d: int, m: int, a: Addr)
    requires Printable(h, o) && Calm(h, o) && p != {} && a !in p && Allowed(d, m) && Expands(h, o, a)
    ensures OutcomeHeight(Eval(h, o, p, d, m, a), LEVELS) >= 2
  {
    hide Bounded, EvalOps, Printable, Rank, Throws, Plain, Prints, PlanOf, MaxHeight;
    PlanKinds(h, o, false, a);
    var Body(inner, depth, indents, ops) := Enter(h, o, p, d, m, a);
    var bound := BodyBound(h, o, p, a, inner);
    EntersLower(h, o, p, d, m, a);
    BodyIsPlain(h, o, p, d, m, a);
    GuardedContext(h, o, a);
    CalmRun(h, o, inner, depth, m, bound, Context(false, None), ops);
    PrintedSomething(h, o, inner, depth, m, bound, Context(false, None), ops);
    TreesWeigh(EvalOps(h, o, inner, depth, m, bound, ops).trees);
  }

  /** A list with an item that is expanded is three levels where the limit leaves room for one expansion. */
  lemma ListBreaksLimit(h: Heap, o: Options, l: Addr, x: Addr)
    requires Printable(h, o) && Calm(h, o) && ListShowsMore(h, o, l, x)
    ensures OutcomeHeight(Eval(h, o, {}, 0, 1, l), LEVELS) > Levels(h, {}, 0, 1, l)
  {
    hide Eval, Printable, Expands, Printed, MaxHeight;
    var shown := Shown(h[l].items, o.maxEntries);
    CalmPrints(h, o, {}, 0, 1, l);
    SequenceContents(h, o, {}, 0, 1, l);
    assert shown == h[l].items[..ShownCount(|h[l].items|, o.maxEntries)];
    var i :| 0 <= i < |shown| && shown[i] == x;
    ExpandsIsNotNull(h, o, x);
    ExpandedIsDeep(h, o, {} + {l}, 0, 1, x);
    var children := Eval(h, o, {}, 0, 1, l).repr.value.children;
    ItemPrinted(h, o, {} + {l}, 0, 1, shown, children, i);
    TreeBelowMax(children, i, LEVELS);
  }

  lemma ExpandsIsNotNull(h: Heap, o: Options, x: Addr)
    requires Expands(h, o, x)
    ensures x != NULL
  {
  }

  lemma ItemPrinted(h: Heap, o: Options, p: set<Addr>, d: int, m: int, addrs: seq<Addr>, trees: seq<Tree>, i: nat)
    requires Printable(h, o) && Printed(h, o, p, d, m, addrs, trees, None) && i < |addrs|
    ensures i < |trees| && Success(trees[i]) == Eval(h, o, p, d, m, addrs[i]).repr
  {
  }

  /** A coroutine in short output is two levels where the limit leaves room for none. */
  lemma NameBreaksLimit(h: Heap, o: Options, c: Addr)
    requires Printable(h, o) && Calm(h, o) && ShowsName(h, o, c)
    ensures OutcomeHeight(Eval(h, o, {}, 0, 0, c), LEVELS) > Levels(h, {}, 0, 0, c)
  {
    hide Bounded, Eval, EvalOps, Printable, Rank, Throws, Plain, MaxHeight, Enter, Prints, ShowsName;
    EvalEntry(h, o, {}, 0, 0, c);
    NameEntry(h, o, {}, 0, 0, c);
    var Body(inner, depth, indents, ops) := Enter(h, o, {}, 0, 0, c);
    var bound := BodyBound(h, o, {}, c, inner);
    BodyIsPlain(h, o, {}, 0, 0, c);
    CalmRun(h, o, inner, depth, 0, bound, Context(false, None), ops);
    PrintedSomething(h, o, inner, depth, 0, bound, Context(false, None), ops);
    TreesWeigh(EvalOps(h, o, inner, depth, 0, bound, ops).trees);
  }

  lemma NameEntry(h: Heap, o: Options, p: set<Addr>, d: int, m: int, c: Addr)
    requires ShowsName(h, o, c)
    ensures var entry := Enter(h, o, p, d, m, c);
      entry.Body? && Prints(entry.ops) && ContextOf(o, p == {}, h[c]) == Context(false, None)
  {
    assert PrintsOp(Enter(h, o, p, d, m, c).ops[0]);
  }

  ghost predicate Limited(h: Heap, o: Options, p: set<Addr>, d: int, m: nat, a: Addr)
    requires Printable(h, o)
  {
    OutcomeHeight(Eval(h, o, p, d, m, a), LEVELS) <= Levels(h, p, d, m, a)
  }

  /**
   * The depth limit bounds the nesting of what a command prints, which begins with nothing in progress, markers counted
   * as a level and up to the level by which a root user or type object may exceed it, if and only if no list shows
   * another object that shows something of itself and short output names no coroutine.
   */
  lemma LimitBoundsNestingIffFlat(h: Heap, o: Options)
    requires Printable(h, o) && Calm(h, o)
    ensures (forall d: nat, m: nat, a :: Limited(h, o, {}, d, m, a)) <==> Flat(h, o)
  {
    hide Eval, Printable, ListShowsMore, ShowsName, Room;
    if Flat(h, o) {
      forall d: nat, m: nat, a ensures Limited(h, o, {}, d, m, a) { FlatIsLimited(h, o, {}, d, m, a); }
    } else if l, x :| ListShowsMore(h, o, l, x) {
      ListBreaksLimit(h, o, l, x);
      assert !Limited(h, o, {}, 0, 1, l);
    } else {
      var c :| ShowsName(h, o, c);
      NameBreaksLimit(h, o, c);
      assert !Limited(h, o, {}, 0, 0, c);
    }
  }

  // ----- Lists under the smallest limit -----

  /** The objects 1 to n are lists, each holding only the next one; the last holds an object without contents. */
  predicate NestedLists(h: Heap, n: nat) {
    && (forall i: nat | 1 <= i <= n :: i in h && h[i] == List([i + 1]))
    && n + 1 in h && h[n + 1] == Leaf
  }

  /** Lists indent what they contain only after printing it: under the depth limit 1, any number of them nest. */
  lemma {:induction false} NestedListsIgnoreTheLimit(h: Heap, n: nat, i: nat, o: Options, p: set<Addr>)
    requires Printable(h, o) && NestedLists(h, n) && 1 <= i <= n + 1 && o.maxEntries < 0 && forall x <- p :: x < i
    ensures var r := Eval(h, o, p, 0, 1, i).repr; r.Success? && Height(r.value, OBJECTS) == n + 2 - i
    decreases n + 2 - i
  {
    hide Eval, Printable, MaxHeight, Printed;
    if i <= n {
      NestedListsIgnoreTheLimit(h, n, i + 1, o, p + {i});
      SequenceContents(h, o, p, 0, 1, i);
      assert h[i].items[..ShownCount(|h[i].items|, o.maxEntries)] == [i + 1];
      OneReturns(h, o, p + {i}, 0, 1, i + 1);
      var children := Eval(h, o, p, 0, 1, i).repr.value.children;
      ItemPrinted(h, o, p + {i}, 0, 1, [i + 1], children, 0);
      assert |children| == 1 by { OnePrinted(h, o, p + {i}, 0, 1, i + 1, children); }
      assert children == [children[0]];
      OneTree(children[0], OBJECTS);
    } else {
      LeafPrinted(h, o, p, i);
    }
  }

  lemma OneReturns(h: Heap, o: Options, p: set<Addr>, d: int, m: int, a: Addr)
    requires Printable(h, o) && Eval(h, o, p, d, m, a).repr.Success?
    ensures forall trees, f :: !Printed(h, o, p, d, m, [a], trees, Some(f))
  {
    hide Eval, Printable;
  }

  lemma OnePrinted(h: Heap, o: Options, p: set<Addr>, d: int, m: int, a: Addr, trees: seq<Tree>)
    requires Printable(h, o) && Printed(h, o, p, d, m, [a], trees, None)
    ensures |trees| == 1
  {
  }

  lemma LeafPrinted(h: Heap, o: Options, p: set<Addr>, a: Addr)
    requires Printable(h, o) && a != NULL && a in h && h[a] == Leaf
    ensures var r := Eval(h, o, p, 0, 1, a).repr; r.Success? && Height(r.value, OBJECTS) == 1
  {
    assert MaxHeight([], OBJECTS) == 0;
  }

  // ----- Nesting on every heap -----

  /** Names and file names are strings; an unreadable one is printed as such. */
  predicate IsText(h: Heap, a: Addr) { a !in h || h[a].Leaf? || h[a].Unreadable? }

  /** In short output, every coroutine has strings for its name and file name. */
  predicate TextNames(h: Heap, o: Options) {
    o.isShort ==>
      forall a <- h :: h[a].Coroutine? ==>
        IsText(h, h[a].qualname)
        && (h[a].frame.FrameAt? && h[a].frame.file.Some? ==> IsText(h, h[a].frame.file.value))
  }

  /** A branch holds at most the objects not in progress, an object printed without looking at others, and a marker's
      parent; one more when an object is printed without a guard and with nothing in progress. */
  lemma {:induction false} NestingIsBounded(h: Heap, o: Options, p: set<Addr>, d: int, m: int, a: Addr)
    requires Printable(h, o) && TextNames(h, o)
    ensures OutcomeHeight(Eval(h, o, p, d, m, a), OBJECTS)
         <= |h.Keys - p| + 2 + (if p == {} && PrintsUnguarded(h, o, a) then 1 else 0)
    decreases |h.Keys - p|, 2 * Rank(h, o, a) + 1
  {
    hide Enter, Bounded, EvalOps, Printable, Rank, Throws, Finish, MaxHeight, RunHeight, TextNames, PlanOf;
    EntryHeight(h, o, p, d, m, a, OBJECTS);
    if Enter(h, o, p, d, m, a).Body? {
      var Body(inner, depth, indents, ops) := Enter(h, o, p, d, m, a);
      var bound := BodyBound(h, o, p, a, inner);
      EntersLower(h, o, p, d, m, a);
      if inner != p {
        OpsNesting(h, o, inner, depth, m, bound, ops);
      } else {
        UnguardedEntry(h, o, p, d, m, a);
        if h[a].User? {
          StepLowersRank(h, o, a, h[a].attributes);
          NestingIsBounded(h, o, p, d, m, h[a].attributes);
          OneVisitHeight(h, o, p, d, m, bound, h[a].attributes, OBJECTS);
        } else {
          NameNestsText(h, o, p, d, m, bound, a);
        }
      }
      FinishHeight(h[a], a, indents, EvalOps(h, o, inner, depth, m, bound, ops), OBJECTS);
    }
  }

  /** Printing without a guard: a user object as root shows its dict, a coroutine its name. */
  lemma UnguardedEntry(h: Heap, o: Options, p: set<Addr>, d: int, m: int, a: Addr)
    requires Enter(h, o, p, d, m, a).Body? && Enter(h, o, p, d, m, a).inProgress == p
    ensures PrintsUnguarded(h, o, a) && Enter(h, o, p, d, m, a).depth == d
    ensures if h[a].User? then
        p == {} && Enter(h, o, p, d, m, a).ops == [Visit(h[a].attributes)]
        && h[a].attributes in Steps(h, o, a) && !PrintsUnguarded(h, o, h[a].attributes)
      else
        o.isShort && h[a].Coroutine?
        && Enter(h, o, p, d, m, a).ops == [Visit(h[a].qualname)] + FrameRefOps(h[a].frame)
  {
  }

  lemma {:induction false} OpsNesting(h: Heap, o: Options, p: set<Addr>, d: int, m: int, bound: nat, ops: seq<Op>)
    requires Printable(h, o) && TextNames(h, o) && Bounded(h, o, bound, ops) && p != {}
    ensures RunHeight(EvalOps(h, o, p, d, m, bound, ops), OBJECTS) <= |h.Keys - p| + 2
    decreases |h.Keys - p|, 2 * bound, ops
  {
    hide Eval, EvalOp, Printable, Rank, Throws, TextNames;
    if ops != [] {
      var first := EvalOp(h, o, p, d, m, bound, ops[0]);
      OpNesting(h, o, p, d, m, bound, ops[0]);
      if first.fault.None? {
        OpsNesting(h, o, p, d, first.limit, bound, ops[1..]);
        MaxHeightConcat(first.trees, EvalOps(h, o, p, d, first.limit, bound, ops[1..]).trees, OBJECTS);
      }
    }
  }

  lemma {:induction false} OpNesting(h: Heap, o: Options, p: set<Addr>, d: int, m: int, bound: nat, op: Op)
    requires Printable(h, o) && TextNames(h, o) && BoundedOp(h, o, bound, op) && p != {}
    ensures RunHeight(EvalOp(h, o, p, d, m, bound, op), OBJECTS) <= |h.Keys - p| + 2
    decreases |h.Keys - p|, 2 * bound, op
  {
    hide Eval, EvalOps, Printable, Rank, Throws, TextNames, MaxHeight, PrintsUnguarded;
    match op
    case Visit(a) =>
      NestingIsBounded(h, o, p, d, m, a);
      VisitHeight(h, o, p, d, m, bound, a, OBJECTS);
    case Indent(sub) => OpsNesting(h, o, p, d + 1, m, bound, sub);
    case Try(keeps, sub) =>
      OpsNesting(h, o, p, d, m, bound, sub);
      HandledHeight(keeps, EvalOps(h, o, p, d, m, bound, sub), OBJECTS);
    case LimitTo(limit, sub) => OpsNesting(h, o, p, d, limit, bound, sub);
    case Throw(_) => OneTree(Mark(NULL, Null), OBJECTS);
  }

  lemma OneVisitHeight(h: Heap, o: Options, p: set<Addr>, d: int, m: int, bound: nat, a: Addr, w: Weights)
    requires Printable(h, o) && Bounded(h, o, bound, [Visit(a)])
    ensures RunHeight(EvalOps(h, o, p, d, m, bound, [Visit(a)]), w) <= OutcomeHeight(Eval(h, o, p, d, m, a), w)
  {
    hide Eval, Printable, Rank, Throws;
    var first := EvalOp(h, o, p, d, m, bound, [Visit(a)][0]);
    VisitHeight(h, o, p, d, m, bound, a, w);
    assert [Visit(a)][1..] == [] && first.trees + [] == first.trees;
  }

  lemma TextPrints(h: Heap, o: Options, p: set<Addr>, d: int, m: int, text: Addr)
    requires Printable(h, o) && IsText(h, text)
    ensures var out := Eval(h, o, p, d, m, text);
      out.repr.Success? && OutcomeHeight(out, OBJECTS) <= 1 && !Throws(h, o, text)
  {
    hide Printable, Rank;
    EntryHeight(h, o, p, d, m, text, OBJECTS);
  }

  lemma VisitedTextHeight(
    h: Heap, o: Options, p: set<Addr>, d: int, m: int, bound: nat, text: Addr, rest: seq<Op>)
    requires Printable(h, o) && IsText(h, text) && Bounded(h, o, bound, [Visit(text)] + rest)
    ensures Bounded(h, o, bound, rest)
    ensures var limit := Eval(h, o, p, d, m, text).limit;
      RunHeight(EvalOps(h, o, p, d, m, bound, [Visit(text)] + rest), OBJECTS)
      <= Max(1, RunHeight(EvalOps(h, o, p, d, limit, bound, rest), OBJECTS))
  {
    hide Eval, Printable, Rank, Throws;
    var ops := [Visit(text)] + rest;
    assert ops[1..] == rest && ops[0] == Visit(text);
    TextPrints(h, o, p, d, m, text);
    VisitHeight(h, o, p, d, m, bound, text, OBJECTS);
    var first := EvalOp(h, o, p, d, m, bound, ops[0]);
    MaxHeightConcat(first.trees, EvalOps(h, o, p, d, first.limit, bound, rest).trees, OBJECTS);
  }

  /** With strings for names, a coroutine in short output shows only text. */
  lemma NameNestsText(h: Heap, o: Options, p: set<Addr>, d: int, m: int, bound: nat, a: Addr)
    requires Printable(h, o) && TextNames(h, o) && o.isShort && a in h && h[a].Coroutine?
    requires Bounded(h, o, bound, [Visit(h[a].qualname)] + FrameRefOps(h[a].frame))
    ensures RunHeight(EvalOps(h, o, p, d, m, bound, [Visit(h[a].qualname)] + FrameRefOps(h[a].frame)), OBJECTS) <= 1
  {
    hide Eval, Printable, Rank, Throws, MaxHeight, EvalOps, Bounded;
    var limit := Eval(h, o, p, d, m, h[a].qualname).limit;
    VisitedTextHeight(h, o, p, d, m, bound, h[a].qualname, FrameRefOps(h[a].frame));
    FrameNestsText(h, o, p, d, limit, bound, h[a].frame);
  }

  lemma FrameNestsText(h: Heap, o: Options, p: set<Addr>, d: int, m: int, bound: nat, frame: FrameRef)
    requires Printable(h, o) && Bounded(h, o, bound, FrameRefOps(frame))
    requires frame.FrameAt? && frame.file.Some? ==> IsText(h, frame.file.value)
    ensures RunHeight(EvalOps(h, o, p, d, m, bound, FrameRefOps(frame)), OBJECTS) <= 1
  {
    hide Eval, Printable, Rank, Throws;
    var ops := FrameRefOps(frame);
    assert MaxHeight([], OBJECTS) == 0;
    if frame.FrameAt? {
      var sub := ops[0].ops;
      assert ops[1..] == [] && sub[1..] == [];
      var inner := EvalOps(h, o, p, d, m, bound, sub);
      if frame.file.Some? {
        OneVisitHeight(h, o, p, d, m, bound, frame.file.value, OBJECTS);
        TextPrints(h, o, p, d, m, frame.file.value);
      } else {
        OneThrow(h, o, p, d, m, bound, sub);
      }
      HandledHeight(false, inner, OBJECTS);
      var first := EvalOp(h, o, p, d, m, bound, ops[0]);
      assert first.fault.None? && RunHeight(first, OBJECTS) <= 1;
      assert EvalOps(h, o, p, d, first.limit, bound, ops[1..]).trees == [] && first.trees + [] == first.trees;
    }
  }
}
