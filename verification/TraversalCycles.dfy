/** What the `recursive_repr` marker means: exactly when it appears. */
module TraversalCycles {
  import opened Graphs
  import opened Heap
  import opened Traversal
  import opened TraversalProperties
  import opened Unguarded
  import opened Wrappers

  // ----- Walks through the object graph -----

  /** The objects a body visits. */
  function Targets(ops: seq<Op>): seq<Addr>
    decreases ops
  {
    if ops == [] then [] else OpTargets(ops[0]) + Targets(ops[1..])
  }

  function OpTargets(op: Op): seq<Addr>
    decreases op
  {
    match op
    case Visit(a) => [a]
    case Indent(sub) => Targets(sub)
    case Try(_, sub) => Targets(sub)
    case LimitTo(_, sub) => Targets(sub)
    case Throw(_) => []
  }

  /** A body that throws nothing itself; one that does shows nothing of what it visited. */
  predicate Unbroken(ops: seq<Op>)
    decreases ops
  {
    ops == [] || (UnbrokenOp(ops[0]) && Unbroken(ops[1..]))
  }

  predicate UnbrokenOp(op: Op)
    decreases op
  {
    match op
    case Indent(sub) => Unbroken(sub)
    case LimitTo(_, sub) => Unbroken(sub)
    case Throw(_) => false
    case _ => true
  }

  function BodyOf(h: Heap, o: Options, root: bool, a: Addr): seq<Op> {
    if a != NULL && a in h then PlanBody(PlanOf(h, o, root, h[a])) else []
  }

  /** `x` visits `y` and, if asked for, shows it. */
  predicate Step(h: Heap, o: Options, root: bool, shown: bool, x: Addr, y: Addr) {
    y in Targets(BodyOf(h, o, root, x)) && (shown ==> Unbroken(BodyOf(h, o, root, x)))
  }

  /** A walk; only its first object may be the root of the output. */
  predicate IsWalk(h: Heap, o: Options, root: bool, shown: bool, w: seq<Addr>) {
    |w| > 0 && (|w| > 1 ==> Step(h, o, root, shown, w[0], w[1]) && IsWalk(h, o, false, shown, w[1..]))
  }

  predicate IsGuarded(h: Heap, o: Options, root: bool, a: Addr) {
    a != NULL && a in h && PlanOf(h, o, root, h[a]).Guarded?
  }

  /** A walk that ends at a guarded object in progress, or at one it has been to before. */
  predicate Revisits(h: Heap, o: Options, p: set<Addr>, w: seq<Addr>) {
    && IsWalk(h, o, p == {}, true, w)
    && var last := w[|w| - 1];
    && IsGuarded(h, o, p == {} && |w| == 1, last)
    && (last in p || last in w[..|w| - 1])
  }

  ghost predicate Closes(h: Heap, o: Options, p: set<Addr>, a: Addr) {
    exists w: seq<Addr> :: Revisits(h, o, p, w) && w[0] == a
  }

  ghost predicate SomeCloses(h: Heap, o: Options, p: set<Addr>, addrs: seq<Addr>) {
    exists y <- addrs :: Closes(h, o, p, y)
  }

  /** No walk from `a`, shown or not, leads to an object with a throwing check. */
  ghost predicate CalmFrom(h: Heap, o: Options, root: bool, a: Addr) {
    forall w: seq<Addr> | IsWalk(h, o, root, false, w) && w[0] == a ::
      w[|w| - 1] in h ==> !HasThrowingCheck(o, h[w[|w| - 1]])
  }

  lemma CalmStep(h: Heap, o: Options, root: bool, a: Addr, y: Addr)
    requires CalmFrom(h, o, root, a) && y in Targets(BodyOf(h, o, root, a))
    ensures CalmFrom(h, o, false, y)
  {
    hide BodyOf, Targets;
    forall w: seq<Addr> | IsWalk(h, o, false, false, w) && w[0] == y
      ensures w[|w| - 1] in h ==> !HasThrowingCheck(o, h[w[|w| - 1]])
    {
      var longer := [a] + w;
      assert longer[1..] == w && IsWalk(h, o, root, false, longer);
      assert longer[|longer| - 1] == w[|w| - 1];
    }
  }

  lemma CalmHere(h: Heap, o: Options, root: bool, a: Addr)
    requires CalmFrom(h, o, root, a)
    ensures a in h ==> !HasThrowingCheck(o, h[a])
  {
    assert IsWalk(h, o, root, false, [a]);
  }

  /** Running the body of `a` turns the closing walks from it into those from what it shows. */
  lemma CloseStep(h: Heap, o: Options, p: set<Addr>, a: Addr, inner: set<Addr>)
    requires !(IsGuarded(h, o, p == {}, a) && a in p)
    requires if IsGuarded(h, o, false, a) || p == {} then inner == p + {a} else p <= inner <= p + {a}
    ensures Closes(h, o, p, a)
      <==> Unbroken(BodyOf(h, o, p == {}, a)) && SomeCloses(h, o, inner, Targets(BodyOf(h, o, p == {}, a)))
  {
    hide BodyOf, Targets, PlanOf, Unbroken;
    var ys := Targets(BodyOf(h, o, p == {}, a));
    if Closes(h, o, p, a) {
      var w: seq<Addr> :| Revisits(h, o, p, w) && w[0] == a;
      var rest := w[1..];
      assert w == [a] + rest;
      assert w[..|w| - 1] == [a] + rest[..|rest| - 1];
      assert Revisits(h, o, inner, rest) && rest[0] in ys;
    }
    if Unbroken(BodyOf(h, o, p == {}, a)) && SomeCloses(h, o, inner, ys) {
      var y :| y in ys && Closes(h, o, inner, y);
      var rest: seq<Addr> :| Revisits(h, o, inner, rest) && rest[0] == y;
      var w := [a] + rest;
      assert w[1..] == rest && w[..|w| - 1] == [a] + rest[..|rest| - 1];
      assert Revisits(h, o, p, w);
    }
  }

  /** An object that shows nothing and is not guarded starts no closing walk. */
  lemma NoCloseFrom(h: Heap, o: Options, p: set<Addr>, a: Addr)
    requires !IsGuarded(h, o, p == {}, a) && BodyOf(h, o, p == {}, a) == []
    ensures !Closes(h, o, p, a)
  {
    hide PlanOf, BodyOf;
  }

  // ----- The marker -----

  predicate HasMark(t: Tree) {
    match t
    case Mark(_, reason) => reason == RecursiveRepr
    case Node(_, _, children) => AnyMark(children)
  }

  predicate AnyMark(ts: seq<Tree>) { ts != [] && (HasMark(ts[0]) || AnyMark(ts[1..])) }

  lemma {:induction false} AnyMarkConcat(xs: seq<Tree>, ys: seq<Tree>)
    ensures AnyMark(xs + ys) <==> AnyMark(xs) || AnyMark(ys)
  {
    if xs == [] {
      assert xs + ys == ys;
    } else {
      AnyMarkConcat(xs[1..], ys);
      assert (xs + ys)[1..] == xs[1..] + ys;
    }
  }

  lemma OneMark(t: Tree)
    ensures AnyMark([t]) <==> HasMark(t)
  {
    assert [t][1..] == [];
  }

  /** A body that ends shows its marks; one that is broken throws `out_of_range`. */
  ghost predicate MarksMatch(h: Heap, o: Options, p: set<Addr>, run: Run, unbroken: bool, targets: seq<Addr>) {
    if unbroken then run.fault.None? && (AnyMark(run.trees) <==> SomeCloses(h, o, p, targets))
    else run.fault == Some(OutOfRange)
  }

  /**
   * Without a depth limit, the output of an object from which no throwing check is visited holds `recursive_repr`
   * exactly when some walk of shown objects closes a cycle: it ends at an object in progress or already on the walk.
   */
  lemma {:induction false} MarkIffCycle(h: Heap, o: Options, p: set<Addr>, d: int, m: int, a: Addr)
    requires Printable(h, o) && m < 0 && CalmFrom(h, o, p == {}, a)
    requires p == {} ==> !RootType(h, a) && !PrintsUnguarded(h, o, a)
    ensures var r := Eval(h, o, p, d, m, a).repr; r.Success? && (HasMark(r.value) <==> Closes(h, o, p, a))
    decreases |h.Keys - p|, 2 * Rank(h, o, a) + 1
  {
    hide Enter, Bounded, EvalOps, Printable, Rank, Throws, CalmFrom, Closes, Plain, BodyOf, PlanOf, Unbroken;
    CalmHere(h, o, p == {}, a);
    if Enter(h, o, p, d, m, a).Now? {
      EntryMark(h, o, p, d, m, a);
    } else {
      var Body(inner, depth, indents, ops) := Enter(h, o, p, d, m, a);
      var bound := BodyBound(h, o, p, a, inner);
      EntersLower(h, o, p, d, m, a);
      MarkBody(h, o, p, d, m, a);
      BodyIsPlain(h, o, p, d, m, a);
      CalmContext(o, p == {}, h[a]);
      CloseStep(h, o, p, a, inner);
      forall y | y in Targets(ops) ensures CalmFrom(h, o, false, y) { CalmStep(h, o, p == {}, a, y); }
      OpsMark(h, o, inner, depth, m, bound, ContextOf(o, p == {}, h[a]), ops);
      FinishMark(h[a], a, indents, EvalOps(h, o, inner, depth, m, bound, ops));
    }
  }

  lemma FinishMark(obj: Obj, a: Addr, indents: bool, run: Run)
    ensures run.fault.None? ==>
      var r := Finish(obj, a, indents, run).repr; r.Success? && (HasMark(r.value) <==> AnyMark(run.trees))
    ensures run.fault == Some(OutOfRange) ==>
      var r := Finish(obj, a, indents, run).repr; r.Success? && !HasMark(r.value)
  {
    assert !AnyMark([]);
  }

  /** A call that runs no body prints the marker exactly for a guarded object in progress. */
  lemma EntryMark(h: Heap, o: Options, p: set<Addr>, d: int, m: int, a: Addr)
    requires m < 0 && Enter(h, o, p, d, m, a).Now? && (a in h ==> !HasThrowingCheck(o, h[a]))
    requires p == {} ==> !RootType(h, a)
    ensures var r := Enter(h, o, p, d, m, a).out.repr; r.Success? && (HasMark(r.value) <==> Closes(h, o, p, a))
  {
    assert !AnyMark([]);
    if IsGuarded(h, o, p == {}, a) {
      assert Revisits(h, o, p, [a]);
    } else {
      NoCloseFrom(h, o, p, a);
    }
  }

  /** What a call that runs a body has in progress for it. */
  lemma MarkBody(h: Heap, o: Options, p: set<Addr>, d: int, m: int, a: Addr)
    requires m < 0 && Enter(h, o, p, d, m, a).Body? && (p == {} ==> !RootType(h, a) && !PrintsUnguarded(h, o, a))
    ensures var Body(inner, _, _, ops) := Enter(h, o, p, d, m, a);
      && a in h && inner != {} && ops == BodyOf(h, o, p == {}, a) && !ContextOf(o, p == {}, h[a]).limits
      && !(IsGuarded(h, o, p == {}, a) && a in p)
      && (if IsGuarded(h, o, false, a) || p == {} then inner == p + {a} else p <= inner <= p + {a})
  {
  }

  lemma {:induction false} OpsMark(
    h: Heap, o: Options, p: set<Addr>, d: int, m: int, bound: nat, c: Context, ops: seq<Op>)
    requires Printable(h, o) && m < 0 && p != {} && Bounded(h, o, bound, ops) && Plain(c, ops) && !c.limits
    requires c.throws in {None, Some(OutOfRange)}
    requires forall y <- Targets(ops) :: CalmFrom(h, o, false, y)
    ensures MarksMatch(h, o, p, EvalOps(h, o, p, d, m, bound, ops), Unbroken(ops), Targets(ops))
    decreases |h.Keys - p|, 2 * bound, ops
  {
    hide Eval, EvalOp, Printable, Rank, Closes, CalmFrom, Throws;
    if ops != [] {
      OpMark(h, o, p, d, m, bound, c, ops[0]);
      OpKeepsLimit(h, o, p, d, m, bound, c, ops[0]);
      var first := EvalOp(h, o, p, d, m, bound, ops[0]);
      if first.fault.None? {
        OpsMark(h, o, p, d, m, bound, c, ops[1..]);
        AnyMarkConcat(first.trees, EvalOps(h, o, p, d, m, bound, ops[1..]).trees);
      }
    }
  }

  lemma {:induction false} OpMark(
    h: Heap, o: Options, p: set<Addr>, d: int, m: int, bound: nat, c: Context, op: Op)
    requires Printable(h, o) && m < 0 && p != {} && BoundedOp(h, o, bound, op) && PlainOp(c, op) && !c.limits
    requires c.throws in {None, Some(OutOfRange)}
    requires forall y <- OpTargets(op) :: CalmFrom(h, o, false, y)
    ensures MarksMatch(h, o, p, EvalOp(h, o, p, d, m, bound, op), UnbrokenOp(op), OpTargets(op))
    decreases |h.Keys - p|, 2 * bound, op
  {
    hide Eval, Printable, Rank, Closes, CalmFrom, Throws, EvalOps, Targets;
    match op
    case Visit(a) =>
      MarkIffCycle(h, o, p, d, m, a);
      OneMark(Eval(h, o, p, d, m, a).repr.value);
    case Indent(sub) => OpsMark(h, o, p, d + 1, m, bound, c, sub);
    case Try(keeps, sub) =>
      var caught := c.(throws := None);
      if Plain(caught, sub) {
        OpsMark(h, o, p, d, m, bound, caught, sub);
        PlainIsUnbroken(caught, sub);
      } else {
        OneThrow(h, o, p, d, m, bound, sub);
        var caughtMark := Mark(NULL, Caught(sub[0].fault));
        assert EvalOp(h, o, p, d, m, bound, op).trees == [caughtMark];
        OneMark(caughtMark);
        ThrowHasNoTargets(sub);
      }
    case LimitTo(_, _) =>
    case Throw(_) =>
  }

  lemma {:induction false} PlainIsUnbroken(c: Context, ops: seq<Op>)
    requires Plain(c, ops) && c.throws == None
    ensures Unbroken(ops)
    decreases ops
  {
    if ops != [] {
      PlainIsUnbroken(c, ops[1..]);
      match ops[0]
      case Indent(sub) => PlainIsUnbroken(c, sub);
      case LimitTo(_, sub) => PlainIsUnbroken(c, sub);
      case _ => assert PlainOp(c, ops[0]);
    }
  }

  lemma ThrowHasNoTargets(ops: seq<Op>)
    requires |ops| == 1 && ops[0].Throw?
    ensures Targets(ops) == []
  {
    assert ops[1..] == [] && Targets(ops[1..]) == [];
  }

  /** The output of a user object without slots, printed as root, is that of its dict. */
  lemma UserMarkIffCycle(h: Heap, o: Options, d: int, m: int, a: Addr)
    requires Printable(h, o) && m < 0 && PrintsUnguarded(h, o, a) && h[a].User? && CalmFrom(h, o, true, h[a].attributes)
    ensures var r := Eval(h, o, {}, d, m, a).repr;
      r.Success? && (HasMark(r.value) <==> Closes(h, o, {}, h[a].attributes))
  {
    hide Bounded, EvalOp, Printable, Rank, Throws, CalmFrom, Closes;
    var dict := h[a].attributes;
    EntersLower(h, o, {}, d, m, a);
    var bound := BodyBound(h, o, {}, a, {});
    assert Enter(h, o, {}, d, m, a) == Body({}, d, false, [Visit(dict)]);
    MarkIffCycle(h, o, {}, d, m, dict);
    OneVisitRun(h, o, {}, d, m, bound, dict);
    OneMark(Eval(h, o, {}, d, m, dict).repr.value);
  }

  lemma OneVisitRun(h: Heap, o: Options, p: set<Addr>, d: int, m: int, bound: nat, a: Addr)
    requires Printable(h, o) && Bounded(h, o, bound, [Visit(a)]) && Eval(h, o, p, d, m, a).repr.Success?
    ensures var out := Eval(h, o, p, d, m, a);
      EvalOps(h, o, p, d, m, bound, [Visit(a)]) == Run([out.repr.value], None, out.limit)
  {
    hide Eval, Printable, Rank, Throws;
    var first := EvalOp(h, o, p, d, m, bound, [Visit(a)][0]);
    assert [Visit(a)][1..] == [] && first.trees + [] == first.trees;
  }
}
