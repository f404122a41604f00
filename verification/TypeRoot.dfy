/** Type objects printed with nothing in progress: the depth limit they overwrite, and what that does. */
module TypeRoot {
  import opened Contents
  import opened Graphs
  import opened Heap
  import opened Traversal
  import opened TraversalDepth
  import opened TraversalProperties
  import opened Unguarded
  import opened Wrappers

  // ----- The limit left behind -----

  /** A type object printed as root leaves the limit 2 behind exactly when the repr of its `tp_dict` throws. */
  lemma TypeLimit(h: Heap, o: Options, d: int, m: int, a: Addr)
    requires Printable(h, o) && RootType(h, a) && Allowed(d, m)
    ensures var base, dict := Eval(h, o, {a}, d + 1, m, h[a].base).repr, Eval(h, o, {a}, d + 1, 2, h[a].dict).repr;
      Eval(h, o, {}, d, m, a).limit == if base.Success? && dict.Failure? then 2 else m
  {
    hide Bounded, EvalOps, Printable, Visits, Rank, PlanOf, Throws;
    var Type(base, dict, others) := h[a];
    TypeEntry(h, o, d, m, a);
    EntersLower(h, o, {}, d, m, a);
    TypeBodyLimit(h, o, {a}, d + 1, m, base, dict, others);
  }

  lemma TypeEntry(h: Heap, o: Options, d: int, m: int, a: Addr)
    requires RootType(h, a) && Allowed(d, m)
    ensures Enter(h, o, {}, d, m, a)
         == Body({a}, d + 1, true, [Visit(h[a].base), LimitTo(2, [Visit(h[a].dict)])] + Visits(h[a].others))
  {
    assert {} + {a} == {a};
  }

  lemma TypeBodyLimit(h: Heap, o: Options, p: set<Addr>, d: int, m: int, base: Addr, dict: Addr, others: seq<Addr>)
    requires Printable(h, o) && p != {}
    requires Bounded(h, o, Top(h), [Visit(base), LimitTo(2, [Visit(dict)])] + Visits(others))
    ensures EvalOps(h, o, p, d, m, Top(h), [Visit(base), LimitTo(2, [Visit(dict)])] + Visits(others)).limit
         == if Eval(h, o, p, d, m, base).repr.Success? && Eval(h, o, p, d, 2, dict).repr.Failure? then 2 else m
  {
    hide Eval, Printable, Rank, Throws, Doomed, Top;
    var rest := Visits(others);
    var inner := [Visit(dict)];
    var ops := [Visit(base), LimitTo(2, inner)] + rest;
    AnyRank(h, o, inner);
    AnyRank(h, o, rest);
    AnyRank(h, o, ops[1..]);
    assert ops[1..] == [LimitTo(2, inner)] + rest && ops[1..][1..] == rest && inner[1..] == [];
    LimitIsKept(h, o, p, d, m, base);
    LimitIsKept(h, o, p, d, 2, dict);
    OpsKeepLimit(h, o, p, d, m, Top(h), Context(false, None), rest);
    var tried := EvalOp(h, o, p, d, 2, Top(h), inner[0]);
    if tried.fault.None? { assert EvalOps(h, o, p, d, tried.limit, Top(h), inner[1..]) == Run([], None, 2); }
    var second := EvalOp(h, o, p, d, m, Top(h), LimitTo(2, inner));
    assert EvalOps(h, o, p, d, 2, Top(h), inner).fault.Some? == tried.fault.Some?;
    assert second.limit == if Eval(h, o, p, d, 2, dict).repr.Failure? then 2 else m;
    assert EvalOps(h, o, p, d, m, Top(h), ops[1..]).limit == second.limit;
  }

  const BROKEN_TYPE: Heap := map[1 := Type(0, 2, []), 2 := Dict([Some((3, 3))]), 3 := Faulty(RuntimeError)]

  const LONG: Options := Options(false, false, false, -1)

  lemma FirstVisitFails(h: Heap, o: Options, p: set<Addr>, d: int, m: int, bound: nat, ops: seq<Op>)
    requires Printable(h, o) && Bounded(h, o, bound, ops) && ops != [] && ops[0].Visit?
    requires Eval(h, o, p, d, m, ops[0].addr).repr.Failure?
    ensures var out := Eval(h, o, p, d, m, ops[0].addr);
      EvalOps(h, o, p, d, m, bound, ops) == Run([], Some(out.repr.fault), out.limit)
  {
    hide Eval;
  }

  lemma BrokenDictFails()
    requires Printable(BROKEN_TYPE, LONG)
    ensures Eval(BROKEN_TYPE, LONG, {1}, 1, 2, 2) == Outcome(Failure(RuntimeError), 2)
  {
    hide EvalOps, Printable, Rank, Bounded, Top, Throws, Visits;
    var h, o := BROKEN_TYPE, LONG;
    assert Enter(h, o, {1, 2}, 2, 2, 3) == Now(Outcome(Failure(RuntimeError), 2));
    assert Shown(h[2].pairs, -1) == [Some((3, 3))] && PairAddrs([Some((3, 3))]) == [3, 3];
    assert {1} + {2} == {1, 2};
    assert Enter(h, o, {1}, 1, 2, 2) == Body({1, 2}, 2, true, Visits([3, 3]));
    EntersLower(h, o, {1}, 1, 2, 2);
    FirstVisitFails(h, o, {1, 2}, 2, 2, BodyBound(h, o, {1}, 2, {1, 2}), Visits([3, 3]));
  }

  /** The failing input: a type whose dict holds an object with a throwing check, printed without a limit. */
  lemma BrokenTypeLeavesLimit()
    ensures Printable(BROKEN_TYPE, LONG) && Eval(BROKEN_TYPE, LONG, {}, 0, -1, 1) == Outcome(Failure(RuntimeError), 2)
  {
    hide EvalOps, Printable, Rank, Bounded, Throws, Visits, PlanOf, Top;
    var h, o := BROKEN_TYPE, LONG;
    LongOutputPrintable(h, o);
    BrokenDictFails();
    TypeLimit(h, o, 0, -1, 1);
    TypeEntry(h, o, 0, -1, 1);
    EntersLower(h, o, {}, 0, -1, 1);
    SecondFails(h, o, {1}, 1, -1, [Visit(0), LimitTo(2, [Visit(2)])] + Visits([]));
  }

  /** A fault inside an overwritten limit leaves it overwritten. */
  lemma SecondFails(h: Heap, o: Options, p: set<Addr>, d: int, m: int, ops: seq<Op>)
    requires Printable(h, o) && Bounded(h, o, Top(h), ops) && |ops| >= 2
    requires ops[0].Visit? && ops[0].addr == NULL && ops[1].LimitTo? && |ops[1].ops| == 1 && ops[1].ops[0].Visit?
    requires Eval(h, o, p, d, ops[1].depth, ops[1].ops[0].addr).repr.Failure?
    ensures var out := Eval(h, o, p, d, ops[1].depth, ops[1].ops[0].addr);
      var run := EvalOps(h, o, p, d, m, Top(h), ops);
      run.fault == Some(out.repr.fault) && run.limit == out.limit
  {
    hide Rank, Throws, Doomed, Top;
    assert EvalOp(h, o, p, d, m, Top(h), ops[0]) == Run([Mark(NULL, Null)], None, m);
    AnyRank(h, o, ops[1..]);
    AnyRank(h, o, ops[1].ops);
    FirstVisitFails(h, o, p, d, ops[1].depth, Top(h), ops[1].ops);
    var second := EvalOp(h, o, p, d, m, Top(h), ops[1..][0]);
    assert second.fault.Some? && EvalOps(h, o, p, d, m, Top(h), ops[1..]) == second;
    assert EvalOps(h, o, p, d, m, Top(h), ops) == Prefixed([Mark(NULL, Null)], second);
  }

  // ----- At the depth limit -----

  lemma CoroutineFault(h: Heap, o: Options, p: set<Addr>, d: int, m: int, bound: nat, qualname: Addr, frame: FrameRef)
    requires Printable(h, o) && Bounded(h, o, bound, [Visit(qualname)] + FrameRefOps(frame))
    ensures var f := EvalOps(h, o, p, d, m, bound, [Visit(qualname)] + FrameRefOps(frame)).fault;
      f.Some? ==> Eval(h, o, p, d, m, qualname).repr.Failure? || frame == FaultyFrame(f.value)
  {
    hide Eval, Printable, Rank, Throws;
    var ops := [Visit(qualname)] + FrameRefOps(frame);
    assert ops[0] == Visit(qualname) && ops[1..] == FrameRefOps(frame);
    var first := EvalOp(h, o, p, d, m, bound, ops[0]);
    if first.fault.None? && ops[1..] != [] {
      assert ops[1..][1..] == [];
      var second := EvalOp(h, o, p, d, first.limit, bound, ops[1..][0]);
      if second.fault.None? { assert EvalOps(h, o, p, d, second.limit, bound, ops[1..][1..]).fault.None?; }
    }
  }

  /** At the depth limit and inside another object, a repr throws exactly if it throws in every state. */
  lemma {:induction false} AtLimitThrows(h: Heap, o: Options, p: set<Addr>, d: int, m: nat, a: Addr)
    requires Printable(h, o) && p != {} && m <= d
    ensures Eval(h, o, p, d, m, a).repr.Failure? <==> Throws(h, o, a)
    decreases Rank(h, o, a)
  {
    hide Bounded, Eval, EvalOps, Printable, Rank, Throws, PlanOf;
    EvalEntry(h, o, p, d, m, a);
    ThrowsFails(h, o, p, d, m, a);
    OwnCheckThrows(h, o, a);
    PlanKinds(h, o, false, a);
    if Enter(h, o, p, d, m, a).Body? {
      UnguardedEntry(h, o, p, d, m, a);
      var qualname := h[a].qualname;
      NameOfUnguarded(h, o, a);
      StepLowersRank(h, o, a, qualname);
      AtLimitThrows(h, o, p, d, m, qualname);
      CoroutineFault(h, o, p, d, m, Rank(h, o, a), qualname, h[a].frame);
      if !Throws(h, o, a) { NameDoesNotThrow(h, o, a); }
    }
  }

  lemma ThrowsFails(h: Heap, o: Options, p: set<Addr>, d: int, m: int, a: Addr)
    requires Printable(h, o)
    ensures Throws(h, o, a) ==> Eval(h, o, p, d, m, a).repr.Failure?
    ensures Eval(h, o, p, d, m, a).repr.Failure? ==> Eval(h, o, p, d, m, a).repr.fault != OutOfRange
  {
  }

  lemma NameOfUnguarded(h: Heap, o: Options, a: Addr)
    requires PrintsUnguarded(h, o, a) && h[a].Coroutine?
    ensures h[a].qualname in Steps(h, o, a)
  {
    hide Throws, PlanOf;
    assert Steps(h, o, a)[0] == h[a].qualname;
  }

  ghost predicate SomeThrows(h: Heap, o: Options, addrs: seq<Addr>) { exists x <- addrs :: Throws(h, o, x) }

  lemma VisitsThrow(h: Heap, o: Options, p: set<Addr>, d: int, m: nat, addrs: seq<Addr>)
    requires Printable(h, o) && p != {} && m <= d && Bounded(h, o, Top(h), Visits(addrs))
    ensures var f := EvalOps(h, o, p, d, m, Top(h), Visits(addrs)).fault;
      (f.Some? <==> SomeThrows(h, o, addrs)) && (f.Some? ==> f.value != OutOfRange)
  {
    hide Eval, EvalOps, Printable, Rank, Throws, Top, Bounded;
    forall x | x in addrs ensures Eval(h, o, p, d, m, x).repr.Failure? <==> Throws(h, o, x) {
      AtLimitThrows(h, o, p, d, m, x);
    }
    VisitsPrintEach(h, o, p, d, m, addrs);
    var run := RunIn(h, o, p, d, m, Visits(addrs));
    PrintedFault(h, o, p, d, m, addrs, run.trees, run.fault);
    if |run.trees| < |addrs| { assert addrs[|run.trees|] in addrs; }
  }

  // ----- Type objects as the interpreter makes them -----

  /** `tp_base` is null, another type, or unreadable. */
  predicate IsBase(h: Heap, x: Addr) { x == NULL || x !in h || h[x].Type? || h[x].Unreadable? }

  /** `tp_dict` is null, a dict, or unreadable. */
  predicate IsDict(h: Heap, x: Addr) { x == NULL || x !in h || h[x].Dict? || h[x].BadDict? || h[x].Unreadable? }

  /** The keys and values a dict shows, up to the entry limit. */
  function Entries(h: Heap, o: Options, x: Addr): seq<Addr> {
    if x != NULL && x in h && h[x].Dict? then PairAddrs(Shown(h[x].pairs, o.maxEntries)) else []
  }

  lemma BaseReturns(h: Heap, o: Options, p: set<Addr>, d: int, m: int, x: Addr)
    requires Printable(h, o) && p != {} && IsBase(h, x)
    ensures Eval(h, o, p, d, m, x).repr.Success?
  {
    hide EvalOps;
  }

  /** Under the limit 2, the dict of a type at depth 0 is expanded at the limit, and that of a deeper one not at all. */
  lemma DictThrows(h: Heap, o: Options, d: nat, a: Addr, x: Addr)
    requires Printable(h, o) && RootType(h, a) && IsDict(h, x)
    ensures Eval(h, o, {a}, d + 1, 2, x).repr.Failure? <==> d == 0 && SomeThrows(h, o, Entries(h, o, x))
  {
    hide Bounded, Eval, EvalOps, Printable, Rank, Throws, Visits, Top, SomeThrows;
    EvalEntry(h, o, {a}, d + 1, 2, x);
    NothingThrows(h, o);
    if x != NULL && x in h && h[x].Dict? && d == 0 {
      var entries := Entries(h, o, x);
      assert Enter(h, o, {a}, 1, 2, x) == Body({a} + {x}, 2, true, Visits(entries));
      assert x !in {a} && {a} + {x} != {a};
      VisitsThrow(h, o, {a} + {x}, 2, 2, entries);
    }
  }

  lemma NothingThrows(h: Heap, o: Options)
    ensures !SomeThrows(h, o, [])
  {
  }

  /**
   * In terms of the heap: printing a type object as root leaves the limit 2 behind if and only if it is expanded at
   * depth 0 and its `tp_dict` shows a key or value that throws; otherwise the limit is put back.
   */
  lemma TypeLimitIff(h: Heap, o: Options, d: nat, m: int, a: Addr)
    requires Printable(h, o) && RootType(h, a) && IsBase(h, h[a].base) && IsDict(h, h[a].dict)
    ensures Eval(h, o, {}, d, m, a).limit
         == if d == 0 && Allowed(d, m) && SomeThrows(h, o, Entries(h, o, h[a].dict)) then 2 else m
  {
    hide Bounded, Eval, EvalOps, Printable, Rank, Throws, SomeThrows;
    if Allowed(d, m) {
      TypeLimit(h, o, d, m, a);
      BaseReturns(h, o, {a}, d + 1, m, h[a].base);
      DictThrows(h, o, d, a, h[a].dict);
    } else {
      EvalEntry(h, o, {}, d, m, a);
    }
  }

  // ----- The one case in which the limit does not bound the indenting objects -----

  /** The body of a type whose base prints: it throws if the dict does, and otherwise prints base, dict and the rest. */
  lemma TypeBodyRun(h: Heap, o: Options, p: set<Addr>, d: int, m: int, base: Addr, dict: Addr, others: seq<Addr>)
    requires Printable(h, o) && p != {} && Eval(h, o, p, d, m, base).repr.Success?
    requires Bounded(h, o, Top(h), [Visit(base), LimitTo(2, [Visit(dict)])] + Visits(others))
    requires Bounded(h, o, Top(h), Visits(others))
    ensures var b, t := Eval(h, o, p, d, m, base).repr.value, Eval(h, o, p, d, 2, dict).repr;
      var run := EvalOps(h, o, p, d, m, Top(h), [Visit(base), LimitTo(2, [Visit(dict)])] + Visits(others));
      if t.Failure? then run.fault == Some(t.fault)
      else run == Prefixed([b, t.value], EvalOps(h, o, p, d, m, Top(h), Visits(others)))
  {
    hide *;
    var tail := [LimitTo(2, [Visit(dict)])] + Visits(others);
    var ops := [Visit(base), LimitTo(2, [Visit(dict)])] + Visits(others);
    assert ops[0] == Visit(base) && ops[1..] == tail;
    OpsUnfold(h, o, p, d, m, Top(h), ops);
    VisitOp(h, o, p, d, m, Top(h), base);
    InsideKeepsLimit(h, o, p, d, m, base);
    TypeTailRun(h, o, p, d, m, dict, others);
    TwoPrefixes(Eval(h, o, p, d, m, base).repr.value, Eval(h, o, p, d, 2, dict).repr,
                EvalOps(h, o, p, d, m, Top(h), Visits(others)));
  }

  lemma TwoPrefixes(b: Tree, t: Result<Tree>, run: Run)
    ensures t.Success? ==> Prefixed([b], Prefixed([t.value], run)) == Prefixed([b, t.value], run)
    ensures forall r: Run :: Prefixed([b], r).fault == r.fault
  {
    if t.Success? { assert [b] + ([t.value] + run.trees) == [b, t.value] + run.trees; }
  }

  lemma InsideKeepsLimit(h: Heap, o: Options, p: set<Addr>, d: int, m: int, a: Addr)
    requires Printable(h, o) && p != {}
    ensures Eval(h, o, p, d, m, a).limit == m
  {
    hide Eval, Printable;
    LimitIsKept(h, o, p, d, m, a);
  }

  lemma TypeTailRun(h: Heap, o: Options, p: set<Addr>, d: int, m: int, dict: Addr, others: seq<Addr>)
    requires Printable(h, o) && p != {} && Bounded(h, o, Top(h), [LimitTo(2, [Visit(dict)])] + Visits(others))
    requires Bounded(h, o, Top(h), Visits(others))
    ensures var t := Eval(h, o, p, d, 2, dict).repr;
      var run := EvalOps(h, o, p, d, m, Top(h), [LimitTo(2, [Visit(dict)])] + Visits(others));
      if t.Failure? then run.fault == Some(t.fault)
      else run == Prefixed([t.value], EvalOps(h, o, p, d, m, Top(h), Visits(others)))
  {
    hide *;
    var ops := [LimitTo(2, [Visit(dict)])] + Visits(others);
    assert ops[0] == LimitTo(2, [Visit(dict)]) && ops[1..] == Visits(others);
    OpsUnfold(h, o, p, d, m, Top(h), ops);
    DictOp(h, o, p, d, m, dict);
  }

  lemma VisitOp(h: Heap, o: Options, p: set<Addr>, d: int, m: int, bound: nat, a: Addr)
    requires Printable(h, o) && BoundedOp(h, o, bound, Visit(a)) && Eval(h, o, p, d, m, a).repr.Success?
    ensures var out := Eval(h, o, p, d, m, a);
      EvalOp(h, o, p, d, m, bound, Visit(a)) == Run([out.repr.value], None, out.limit)
  {
    hide Eval, Printable, Rank, Throws;
  }

  lemma DictOp(h: Heap, o: Options, p: set<Addr>, d: int, m: int, dict: Addr)
    requires Printable(h, o) && BoundedOp(h, o, Top(h), LimitTo(2, [Visit(dict)]))
    ensures var out, run := Eval(h, o, p, d, 2, dict), EvalOp(h, o, p, d, m, Top(h), LimitTo(2, [Visit(dict)]));
      if out.repr.Failure? then run.fault == Some(out.repr.fault) else run == Run([out.repr.value], None, m)
  {
    hide Eval, EvalOps, Printable, Rank, Throws, Bounded;
    DictRun(h, o, p, d, dict);
  }

  lemma DictRun(h: Heap, o: Options, p: set<Addr>, d: int, dict: Addr)
    requires Printable(h, o) && Bounded(h, o, Top(h), [Visit(dict)])
    ensures var out, run := Eval(h, o, p, d, 2, dict), EvalOps(h, o, p, d, 2, Top(h), [Visit(dict)]);
      if out.repr.Failure? then run.fault == Some(out.repr.fault) else run == Run([out.repr.value], None, out.limit)
  {
    hide Eval, Printable, Rank, Throws;
    var first := EvalOp(h, o, p, d, 2, Top(h), [Visit(dict)][0]);
    assert [Visit(dict)][1..] == [] && first.trees + [] == first.trees;
  }

  /** The dict of a type is an indenting object of its output exactly if it is a readable dict. */
  lemma DictIndents(h: Heap, o: Options, a: Addr, x: Addr)
    requires Printable(h, o) && RootType(h, a) && IsDict(h, x) && Eval(h, o, {a}, 1, 2, x).repr.Success?
    ensures OutcomeHeight(Eval(h, o, {a}, 1, 2, x), INDENTS) > 0 <==> x != NULL && x in h && h[x].Dict?
  {
    hide Bounded, Eval, EvalOps, Printable, Rank, Throws, Visits, Top, SomeThrows;
    assert MaxHeight([], INDENTS) == 0;
    EvalEntry(h, o, {a}, 1, 2, x);
    if x != NULL && x in h && h[x].Dict? {
      var entries := Entries(h, o, x);
      assert Enter(h, o, {a}, 1, 2, x) == Body({a} + {x}, 2, true, Visits(entries));
      assert x !in {a} && {a} + {x} != {a};
      VisitsThrow(h, o, {a} + {x}, 2, 2, entries);
    }
  }

  /** A type whose `tp_dict` is a readable dict is printed with it, one object too many under the limit 1. */
  ghost predicate ShowsDict(h: Heap, o: Options, a: Addr)
    requires RootType(h, a)
  {
    var dict := h[a].dict;
    && dict != NULL && dict in h && h[dict].Dict?
    && !SomeThrows(h, o, Entries(h, o, dict)) && !SomeThrows(h, o, h[a].others)
  }

  /**
   * At depth 0 under the limit 1, a root type object exceeds the bound on indenting objects if and only if its
   * `tp_dict` is a readable dict and nothing the call shows throws.
   */
  lemma SmallestLimitTypeIff(h: Heap, o: Options, a: Addr)
    requires Printable(h, o) && RootType(h, a) && IsBase(h, h[a].base) && IsDict(h, h[a].dict)
    ensures OutcomeHeight(Eval(h, o, {}, 0, 1, a), INDENTS) > Room(0, 1) <==> ShowsDict(h, o, a)
  {
    hide Bounded, Eval, EvalOps, Printable, Rank, Throws, SomeThrows, Visits, Top, MaxHeight, PlanOf;
    var Type(base, dict, others) := h[a];
    TypeEntry(h, o, 0, 1, a);
    EvalEntry(h, o, {}, 0, 1, a);
    BaseReturns(h, o, {a}, 1, 1, base);
    AnyRank(h, o, Visits(others));
    TypeBodyRun(h, o, {a}, 1, 1, base, dict, others);
    DictThrows(h, o, 0, a, dict);
    VisitsThrow(h, o, {a}, 1, 1, others);
    ThrowsFails(h, o, {a}, 1, 2, dict);
    NothingThrows(h, o);
    var rest := EvalOps(h, o, {a}, 1, 1, Top(h), Visits(others));
    if Eval(h, o, {a}, 1, 2, dict).repr.Success? && rest.fault.None? {
      DictIndents(h, o, a, dict);
      var b, t := Eval(h, o, {a}, 1, 1, base).repr.value, Eval(h, o, {a}, 1, 2, dict).repr.value;
      IndentsWithin(h, o, {a}, 1, 1, 1, base);
      OpsIndents(h, o, {a}, 1, 1, 1, Top(h), Context(false, None), Visits(others));
      ThreeParts(b, t, rest.trees, INDENTS);
    }
  }

  lemma ThreeParts(b: Tree, t: Tree, rest: seq<Tree>, w: Weights)
    ensures MaxHeight([b, t] + rest, w) == Max(Max(Height(b, w), Height(t, w)), MaxHeight(rest, w))
  {
    assert [b, t] == [b] + [t];
    OneTree(b, w);
    OneTree(t, w);
    MaxHeightConcat([b], [t], w);
    MaxHeightConcat([b, t], rest, w);
  }

  const SMALL_TYPE: Heap := map[1 := Type(0, 2, []), 2 := Dict([])]

  /** The failing input: a type with an empty dict, under the limit 1. */
  lemma SmallTypeExceedsLimit()
    ensures Printable(SMALL_TYPE, LONG) && OutcomeHeight(Eval(SMALL_TYPE, LONG, {}, 0, 1, 1), INDENTS) > Room(0, 1)
  {
    hide Eval, Printable, Throws;
    LongOutputPrintable(SMALL_TYPE, LONG);
    assert Entries(SMALL_TYPE, LONG, 2) == [];
    SmallestLimitTypeIff(SMALL_TYPE, LONG, 1);
  }

  const SMALL_USER: Heap := map[1 := User([Some(2)], 0), 2 := Leaf]

  /** The extra level of a root user object is taken: its slots are printed under the limit 0. */
  lemma SmallUserTakesLevel()
    ensures Printable(SMALL_USER, LONG) && OutcomeHeight(Eval(SMALL_USER, LONG, {}, 0, 0, 1), LEVELS) == Room(0, 0) + 2
  {
    hide EvalOps, Printable, Rank, Throws, Bounded, Top, MaxHeight, SlotOps;
    var h, o := SMALL_USER, LONG;
    LongOutputPrintable(h, o);
    assert SlotOps([Some(2)]) == Visits([2]) && {} + {1} == {1} && Visits([2]) + [] == Visits([2]);
    assert Enter(h, o, {}, 0, 0, 1) == Body({1}, 0, false, Visits([2]));
    EvalEntry(h, o, {}, 0, 0, 1);
    NotExpandedIsLeaf(h, o, {1}, 0, 0, 2);
    AnyRank(h, o, Visits([2]));
    assert Eval(h, o, {1}, 0, 0, 2).repr.Success?;
    VisitsPrintEach(h, o, {1}, 0, 0, [2]);
    var trees := EvalOps(h, o, {1}, 0, 0, Top(h), Visits([2])).trees;
    assert trees == [trees[0]];
    OneTree(trees[0], LEVELS);
  }
}
