/**
 * The concurrent scan: workers claim blocks from one atomic counter over the concatenation of all regions, move
 * their own region cursor forward and call back for every stride position whose object fits. One transition is one
 * `fetch_add`, one cursor increment or one pass of the callback loop, so a schedule is any sequence of worker indices.
 */
module Scan {
  import opened Bytes

  const BLOCK: nat := 0x1000

  datatype Region = Region(start: nat, size: nat)

  /** `structSize` is the size of the structure handed to the callback, `objectSize` the room a position must leave. */
  datatype Config = Config(regions: seq<Region>, stride: nat, objectSize: nat, structSize: nat)

  function RegionSize(cfg: Config, k: nat): nat { if k < |cfg.regions| then cfg.regions[k].size else 0 }

  /** region_start_offsets[k], extended beyond the last region by its final value. */
  function Start(cfg: Config, k: nat): nat {
    if k == 0 then 0 else Start(cfg, k - 1) + RegionSize(cfg, k - 1)
  }

  function Total(cfg: Config): nat { Start(cfg, |cfg.regions|) }

  /** The last offset an object of region `k` may begin at, as the 64-bit subtraction computes it. */
  function Limit(cfg: Config, k: nat): nat { Wrap64(Start(cfg, k + 1) - cfg.objectSize) }

  /** Where the cursor stops for `offset` when it begins at region `r`. */
  function RegionFrom(cfg: Config, r: nat, offset: nat): nat
    decreases |cfg.regions| - r
  {
    if r < |cfg.regions| && offset >= Start(cfg, r + 1) then RegionFrom(cfg, r + 1, offset) else r
  }

  predicate CounterCannotWrap(cfg: Config, workers: nat) { Total(cfg) + BLOCK * (workers + 1) <= TWO_64 }

  /** What a scan needs to run at all: a stride that moves and a counter that cannot wrap. */
  predicate Runnable(cfg: Config, workers: nat) { cfg.stride > 0 && CounterCannotWrap(cfg, workers) }

  /** A callback position: a region index and a byte offset inside that region. */
  datatype Location = Location(region: nat, offset: int)

  /** The bounds check of the region reader: does the structure at this position end inside its region? */
  predicate Fits(cfg: Config, at: Location) { at.offset + cfg.structSize <= RegionSize(cfg, at.region) }

  datatype Event = Event(worker: nat, at: Location)

  datatype Worker =
    | Idle(region: nat)                            // about to claim a block
    | Seeking(region: nat, offset: nat)            // moving the cursor to the claimed block
    | Calling(region: nat, offset: nat, z: nat)    // at the head of the callback loop
    | Done

  /** `aborted` tells that a worker's exception has ended the process. */
  datatype State = State(counter: nat, workers: seq<Worker>, log: seq<Event>, aborted: bool)

  function Init(workers: nat): State {
    State(0, seq(workers, _ => Idle(0)), [], false)
  }

  /** One atomic step of worker `w`; a finished worker stutters, and so does every worker once the process has ended. */
  function Step(cfg: Config, s: State, w: nat): State {
    if s.aborted || w >= |s.workers| then s
    else match s.workers[w]
      case Idle(r) =>
        var next := if s.counter < Total(cfg) then Seeking(r, s.counter) else Done;
        s.(counter := Wrap64(s.counter + BLOCK), workers := s.workers[w := next])
      case Seeking(r, o) =>
        var next := if o >= Start(cfg, r + 1) then Seeking(r + 1, o)
                    else if o <= Limit(cfg, r) then Calling(r, o, 0) else Idle(r);
        s.(workers := s.workers[w := next])
      case Calling(r, o, z) =>
        if z >= BLOCK || o + z > Limit(cfg, r) then s.(workers := s.workers[w := Idle(r)])
        else
          var at := Location(r, o - Start(cfg, r) + z);
          if !Fits(cfg, at) then s.(aborted := true)
          else s.(workers := s.workers[w := Calling(r, o, z + cfg.stride)], log := s.log + [Event(w, at)])
      case Done => s
  }

  function Run(cfg: Config, s: State, schedule: seq<nat>): State
    decreases |schedule|
  {
    if schedule == [] then s else Run(cfg, Step(cfg, s, schedule[0]), schedule[1..])
  }

  /** Every worker has returned. */
  predicate Finished(s: State) { !s.aborted && forall w <- s.workers :: w.Done? }

  /** Nothing runs any more. */
  predicate Ended(s: State) { s.aborted || Finished(s) }

  // ---- What one block contributes, and what is still owed ----

  /** The callbacks of the block at `o`, in region `k`, from position `z` on. */
  ghost function BlockTail(cfg: Config, k: nat, o: nat, z: nat): multiset<Location>
    requires cfg.stride > 0
    decreases BLOCK - z
  {
    if z >= BLOCK || o + z > Limit(cfg, k) then multiset{}
    else multiset{Location(k, o - Start(cfg, k) + z)} + BlockTail(cfg, k, o, z + cfg.stride)
  }

  ghost function BlockCalls(cfg: Config, o: nat): multiset<Location>
    requires cfg.stride > 0
  {
    if o < Total(cfg) then BlockTail(cfg, RegionFrom(cfg, 0, o), o, 0) else multiset{}
  }

  /** The callbacks of the first `n` blocks, as a sequential scan would make them. */
  ghost function BlocksBelow(cfg: Config, n: nat): multiset<Location>
    requires cfg.stride > 0
  {
    if n == 0 then multiset{} else BlocksBelow(cfg, n - 1) + BlockCalls(cfg, (n - 1) * BLOCK)
  }

  ghost function Owed(cfg: Config, w: Worker): multiset<Location>
    requires cfg.stride > 0
  {
    match w
    case Seeking(r, o) => BlockCalls(cfg, o)
    case Calling(r, o, z) => BlockTail(cfg, r, o, z)
    case _ => multiset{}
  }

  ghost function AllOwed(cfg: Config, ws: seq<Worker>): multiset<Location>
    requires cfg.stride > 0
  {
    if ws == [] then multiset{} else Owed(cfg, ws[0]) + AllOwed(cfg, ws[1..])
  }

  ghost function Locations(log: seq<Event>): multiset<Location> {
    if log == [] then multiset{} else Locations(log[..|log| - 1]) + multiset{log[|log| - 1].at}
  }

  function DoneCount(ws: seq<Worker>): nat {
    if ws == [] then 0 else (if ws[0].Done? then 1 else 0) + DoneCount(ws[1..])
  }

  ghost predicate WorkerInv(cfg: Config, counter: nat, w: Worker) {
    match w
    case Idle(r) => Start(cfg, r) <= counter
    case Seeking(r, o) => Start(cfg, r) <= o < Total(cfg) && o < counter
    case Calling(r, o, z) => Start(cfg, r) <= o < counter
    case Done => Total(cfg) <= counter
  }

  /** Made plus owed callbacks are the callbacks of the claimed blocks. */
  ghost predicate Conserved(cfg: Config, s: State)
    requires cfg.stride > 0
  {
    Locations(s.log) + AllOwed(cfg, s.workers) == BlocksBelow(cfg, s.counter / BLOCK)
  }

  ghost predicate Inv(cfg: Config, s: State)
    requires cfg.stride > 0
  {
    && s.counter % BLOCK == 0
    && s.counter < Total(cfg) + BLOCK * (DoneCount(s.workers) + 1)
    && (forall i | 0 <= i < |s.workers| :: WorkerInv(cfg, s.counter, s.workers[i]))
    && (forall i | 0 <= i < |s.log| :: s.log[i].worker < |s.workers|)
    && Conserved(cfg, s)
  }

  // ---- Arithmetic of the cursor ----

  lemma {:induction false} StartMonotone(cfg: Config, j: nat, k: nat)
    requires j <= k
    ensures Start(cfg, j) <= Start(cfg, k)
  {
    if j < k { StartMonotone(cfg, j, k - 1); }
  }

  lemma {:induction false} PastTheEnd(cfg: Config, k: nat)
    requires k >= |cfg.regions|
    ensures Start(cfg, k) == Total(cfg)
  {
    if k > |cfg.regions| { PastTheEnd(cfg, k - 1); }
  }

  /** A cursor that is not yet past the block finds the same region as one that begins at region 0. */
  lemma {:induction false} CursorCatchesUp(cfg: Config, r: nat, o: nat)
    requires Start(cfg, r) <= o < Total(cfg)
    ensures r < |cfg.regions| && RegionFrom(cfg, r, o) == RegionFrom(cfg, 0, o)
  {
    if r >= |cfg.regions| { PastTheEnd(cfg, r); }
    if r > 0 {
      StartMonotone(cfg, r - 1, r);
      CursorCatchesUp(cfg, r - 1, o);
    }
  }

  lemma {:induction false} RegionFromFinds(cfg: Config, r: nat, o: nat)
    requires Start(cfg, r) <= o < Total(cfg)
    ensures var k := RegionFrom(cfg, r, o); k < |cfg.regions| && Start(cfg, k) <= o < Start(cfg, k + 1)
    decreases |cfg.regions| - r
  {
    if r >= |cfg.regions| {
      PastTheEnd(cfg, r);
    } else if o >= Start(cfg, r + 1) {
      RegionFromFinds(cfg, r + 1, o);
    }
  }

  lemma RegionIsUnique(cfg: Config, k: nat, o: nat)
    requires k < |cfg.regions| && Start(cfg, k) <= o < Start(cfg, k + 1)
    ensures o < Total(cfg) && RegionFrom(cfg, 0, o) == k
  {
    StartMonotone(cfg, k + 1, |cfg.regions|);
    CursorCatchesUp(cfg, k, o);
  }

  // ---- Every step conserves the callbacks ----

  /** What one worker has less to do, all of them together have less to do. */
  lemma {:induction false} OwedMoves(cfg: Config, ws: seq<Worker>, w: nat, next: Worker, made: multiset<Location>)
    requires cfg.stride > 0 && w < |ws| && Owed(cfg, ws[w]) == made + Owed(cfg, next)
    ensures AllOwed(cfg, ws) == made + AllOwed(cfg, ws[w := next])
  {
    hide Owed;
    if w == 0 {
      assert ws[0 := next][1..] == ws[1..];
    } else {
      assert ws[w := next][1..] == ws[1..][w - 1 := next];
      OwedMoves(cfg, ws[1..], w - 1, next, made);
    }
  }

  lemma {:induction false} DoneCountUpdate(ws: seq<Worker>, w: nat, next: Worker)
    requires w < |ws|
    ensures DoneCount(ws[w := next]) == DoneCount(ws) - (if ws[w].Done? then 1 else 0) + (if next.Done? then 1 else 0)
  {
    if w == 0 {
      assert ws[0 := next][1..] == ws[1..];
    } else {
      assert ws[w := next][1..] == ws[1..][w - 1 := next];
      DoneCountUpdate(ws[1..], w - 1, next);
    }
  }

  lemma {:induction false} DoneAtMostAll(ws: seq<Worker>, w: nat)
    requires w < |ws| && !ws[w].Done?
    ensures DoneCount(ws) < |ws|
  {
    if w == 0 { DoneAtMost(ws[1..]); } else { DoneAtMostAll(ws[1..], w - 1); }
  }

  lemma {:induction false} DoneAtMost(ws: seq<Worker>)
    ensures DoneCount(ws) <= |ws|
  {
    if ws != [] { DoneAtMost(ws[1..]); }
  }

  lemma LocationsAppend(log: seq<Event>, e: Event)
    ensures Locations(log + [e]) == Locations(log) + multiset{e.at}
  {
    assert (log + [e])[..|log|] == log;
  }

  lemma InitInv(cfg: Config, workers: nat)
    requires Runnable(cfg, workers)
    ensures Inv(cfg, Init(workers))
  {
    NothingOwedInitially(cfg, workers);
  }

  lemma {:induction false} NothingOwedInitially(cfg: Config, workers: nat)
    requires cfg.stride > 0
    ensures AllOwed(cfg, Init(workers).workers) == multiset{}
    ensures DoneCount(Init(workers).workers) == 0
  {
    if workers > 0 {
      assert Init(workers).workers[1..] == Init(workers - 1).workers;
      NothingOwedInitially(cfg, workers - 1);
    }
  }

  /** The counter does not wrap while some worker can still claim. */
  lemma CounterFits(cfg: Config, s: State, w: nat)
    requires Runnable(cfg, |s.workers|) && Inv(cfg, s) && w < |s.workers| && !s.workers[w].Done?
    ensures s.counter + BLOCK < TWO_64 && cfg.stride > 0
    ensures WorkerInv(cfg, s.counter, s.workers[w])
  {
    hide Conserved, Start, WorkerInv, DoneCount;
    DoneAtMostAll(s.workers, w);
  }

  lemma ClaimConserves(cfg: Config, s: State, w: nat)
    requires cfg.stride > 0 && s.counter + BLOCK < TWO_64 && s.counter % BLOCK == 0
    requires Conserved(cfg, s) && !s.aborted && w < |s.workers| && s.workers[w].Idle?
    ensures Conserved(cfg, Step(cfg, s, w))
  {
    hide AllOwed, Start, RegionFrom, BlockTail, Locations;
    var s', r := Step(cfg, s, w), s.workers[w].region;
    assert s'.counter == s.counter + BLOCK;
    assert Owed(cfg, s'.workers[w]) == BlockCalls(cfg, s.counter) + Owed(cfg, s.workers[w]);
    OwedMoves(cfg, s'.workers, w, s.workers[w], BlockCalls(cfg, s.counter));
    assert s'.workers[w := s.workers[w]] == s.workers;
    NextBlock(cfg, s.counter);
  }

  lemma NextBlock(cfg: Config, counter: nat)
    requires cfg.stride > 0 && counter % BLOCK == 0
    ensures BlocksBelow(cfg, (counter + BLOCK) / BLOCK) == BlocksBelow(cfg, counter / BLOCK) + BlockCalls(cfg, counter)
  {
    hide BlockCalls;
    assert (counter + BLOCK) / BLOCK == counter / BLOCK + 1 && counter / BLOCK * BLOCK == counter;
  }

  lemma SeekKeepsOwed(cfg: Config, counter: nat, r: nat, o: nat)
    requires cfg.stride > 0 && WorkerInv(cfg, counter, Seeking(r, o))
    ensures o >= Start(cfg, r + 1) ==> WorkerInv(cfg, counter, Seeking(r + 1, o))
    ensures o < Start(cfg, r + 1) ==> BlockCalls(cfg, o) == BlockTail(cfg, r, o, 0)
  {
    hide Start, BlockTail;
    CursorCatchesUp(cfg, r, o);
  }

  lemma SeekConserves(cfg: Config, s: State, w: nat)
    requires cfg.stride > 0 && Conserved(cfg, s) && !s.aborted && w < |s.workers| && s.workers[w].Seeking?
    requires WorkerInv(cfg, s.counter, s.workers[w])
    ensures Conserved(cfg, Step(cfg, s, w))
    ensures WorkerInv(cfg, s.counter, Step(cfg, s, w).workers[w])
  {
    hide AllOwed, Locations, BlocksBelow, Start, RegionFrom, BlockCalls, Limit;
    var r, o := s.workers[w].region, s.workers[w].offset;
    SeekKeepsOwed(cfg, s.counter, r, o);
    var next := Step(cfg, s, w).workers[w];
    assert Owed(cfg, next) == Owed(cfg, s.workers[w]);
    OwedMoves(cfg, s.workers, w, next, multiset{});
  }

  lemma CallConserves(cfg: Config, s: State, w: nat)
    requires cfg.stride > 0 && Conserved(cfg, s) && w < |s.workers| && s.workers[w].Calling?
    ensures Conserved(cfg, Step(cfg, s, w))
  {
    hide AllOwed, BlocksBelow, Start, Limit, Locations, RegionFrom, BlockCalls, Fits;
    var s' := Step(cfg, s, w);
    if s' == s.(aborted := true) {
      assert s'.workers == s.workers && s'.log == s.log && s'.counter == s.counter;
    } else if s'.log != s.log {
      var e := s'.log[|s.log|];
      LocationsAppend(s.log, e);
      assert Owed(cfg, s.workers[w]) == multiset{e.at} + Owed(cfg, s'.workers[w]);
      OwedMoves(cfg, s.workers, w, s'.workers[w], multiset{e.at});
    } else {
      OwedMoves(cfg, s.workers, w, s'.workers[w], multiset{});
    }
  }

  /** Every atomic step of every worker keeps the invariant. */
  lemma StepInv(cfg: Config, s: State, w: nat)
    requires Runnable(cfg, |s.workers|) && Inv(cfg, s)
    ensures Inv(cfg, Step(cfg, s, w)) && |Step(cfg, s, w).workers| == |s.workers|
  {
    hide Conserved, Start, DoneCount, Limit, Fits;
    if !s.aborted && w < |s.workers| && !s.workers[w].Done? {
      CounterFits(cfg, s, w);
      DoneCountUpdate(s.workers, w, Step(cfg, s, w).workers[w]);
      match s.workers[w]
      case Idle(_) => ClaimConserves(cfg, s, w);
      case Seeking(_, _) => SeekConserves(cfg, s, w);
      case Calling(_, _, _) => CallConserves(cfg, s, w);
      case Done =>
    }
  }

  lemma {:induction false} RunInv(cfg: Config, s: State, schedule: seq<nat>)
    requires Runnable(cfg, |s.workers|) && Inv(cfg, s)
    ensures Inv(cfg, Run(cfg, s, schedule)) && |Run(cfg, s, schedule).workers| == |s.workers|
    decreases |schedule|
  {
    hide Inv, Runnable, Step;
    if schedule != [] {
      StepInv(cfg, s, schedule[0]);
      RunInv(cfg, Step(cfg, s, schedule[0]), schedule[1..]);
    }
  }

  lemma {:induction false} NothingOwedWhenDone(cfg: Config, ws: seq<Worker>)
    requires cfg.stride > 0 && forall w <- ws :: w.Done?
    ensures AllOwed(cfg, ws) == multiset{}
  {
    if ws != [] {
      assert ws[0] in ws;
      NothingOwedWhenDone(cfg, ws[1..]);
    }
  }

  lemma {:induction false} NoBlocksAboveTotal(cfg: Config, n: nat, m: nat)
    requires cfg.stride > 0 && n <= m && Total(cfg) <= n * BLOCK
    ensures BlocksBelow(cfg, m) == BlocksBelow(cfg, n)
  {
    hide Start, RegionFrom, BlockTail;
    if n < m {
      NoBlocksAboveTotal(cfg, n, m - 1);
    }
  }

  /**
   * Schedule independence: whatever the interleaving and the number of workers, a finished scan has made the
   * callbacks of a sequential pass over all the blocks, as a multiset.
   */
  lemma FinishedScanIsSequential(cfg: Config, workers: nat, schedule: seq<nat>, blocks: nat)
    requires Runnable(cfg, workers) && workers > 0 && Total(cfg) <= blocks * BLOCK
    requires Finished(Run(cfg, Init(workers), schedule))
    ensures Locations(Run(cfg, Init(workers), schedule).log) == BlocksBelow(cfg, blocks)
    ensures var log := Run(cfg, Init(workers), schedule).log; forall i | 0 <= i < |log| :: log[i].worker < workers
  {
    InitInv(cfg, workers);
    RunInv(cfg, Init(workers), schedule);
    var s := Run(cfg, Init(workers), schedule);
    NothingOwedWhenDone(cfg, s.workers);
    assert WorkerInv(cfg, s.counter, s.workers[0]);
    var n := s.counter / BLOCK;
    assert n * BLOCK == s.counter;
    if n <= blocks { NoBlocksAboveTotal(cfg, n, blocks); } else { NoBlocksAboveTotal(cfg, blocks, n); }
  }

  // ---- Termination ----

  function WorkLeft(cfg: Config, w: Worker): nat {
    match w
    case Idle(_) => 1
    case Seeking(r, _) => (if r < |cfg.regions| then |cfg.regions| - r else 0) + BLOCK + 3
    case Calling(_, _, z) => (if z < BLOCK then BLOCK - z else 0) + 2
    case Done => 0
  }

  function AllWorkLeft(cfg: Config, ws: seq<Worker>): nat {
    if ws == [] then 0 else WorkLeft(cfg, ws[0]) + AllWorkLeft(cfg, ws[1..])
  }

  function BlocksLeft(cfg: Config, counter: nat): nat {
    if counter < Total(cfg) then (Total(cfg) - counter + BLOCK - 1) / BLOCK else 0
  }

  /** The most steps the unclaimed blocks can take. */
  function UnclaimedWork(cfg: Config, counter: nat): nat {
    BlocksLeft(cfg, counter) * (|cfg.regions| + BLOCK + 4)
  }

  function StepsLeft(cfg: Config, s: State): nat {
    UnclaimedWork(cfg, s.counter) + AllWorkLeft(cfg, s.workers) + (if s.aborted then 0 else 1)
  }

  lemma {:induction false} WorkLeftUpdate(cfg: Config, ws: seq<Worker>, w: nat, next: Worker)
    requires w < |ws|
    ensures AllWorkLeft(cfg, ws[w := next]) == AllWorkLeft(cfg, ws) - WorkLeft(cfg, ws[w]) + WorkLeft(cfg, next)
  {
    if w == 0 {
      assert ws[0 := next][1..] == ws[1..];
    } else {
      assert ws[w := next][1..] == ws[1..][w - 1 := next];
      WorkLeftUpdate(cfg, ws[1..], w - 1, next);
    }
  }

  lemma ClaimUsesBlock(cfg: Config, counter: nat)
    ensures counter < Total(cfg) ==>
      UnclaimedWork(cfg, counter + BLOCK) == UnclaimedWork(cfg, counter) - (|cfg.regions| + BLOCK + 4)
    ensures counter >= Total(cfg) ==> UnclaimedWork(cfg, counter + BLOCK) == UnclaimedWork(cfg, counter)
  {
    hide Start;
    var left, cost := BlocksLeft(cfg, counter), |cfg.regions| + BLOCK + 4;
    if counter < Total(cfg) {
      assert BlocksLeft(cfg, counter + BLOCK) == left - 1;
      assert (left - 1) * cost == left * cost - cost;
    }
  }

  /** No step of an unfinished worker is wasted. */
  lemma StepUsesWork(cfg: Config, s: State, w: nat)
    requires Runnable(cfg, |s.workers|) && Inv(cfg, s) && !s.aborted && w < |s.workers| && !s.workers[w].Done?
    ensures StepsLeft(cfg, Step(cfg, s, w)) < StepsLeft(cfg, s)
  {
    hide Inv, Runnable, AllWorkLeft, Start, Limit, UnclaimedWork, BlocksLeft, Fits;
    CounterFits(cfg, s, w);
    WorkLeftUpdate(cfg, s.workers, w, Step(cfg, s, w).workers[w]);
    match s.workers[w]
    case Idle(r) => ClaimUsesBlock(cfg, s.counter);
    case Seeking(r, o) => CursorCatchesUp(cfg, r, o);
    case Calling(_, _, _) =>
  }

  /** Every step of the schedule is one of an unfinished worker of a live process. */
  predicate Enabled(cfg: Config, s: State, schedule: seq<nat>)
    decreases |schedule|
  {
    schedule == []
    || (!s.aborted && schedule[0] < |s.workers| && !s.workers[schedule[0]].Done?
        && Enabled(cfg, Step(cfg, s, schedule[0]), schedule[1..]))
  }

  /** With a stride, a schedule that only picks unfinished workers has a bounded length. */
  lemma {:induction false} SchedulesAreBounded(cfg: Config, s: State, schedule: seq<nat>)
    requires Runnable(cfg, |s.workers|) && Inv(cfg, s) && Enabled(cfg, s, schedule)
    ensures |schedule| <= StepsLeft(cfg, s)
    decreases |schedule|
  {
    hide Inv, Runnable, Step, StepsLeft;
    if schedule != [] {
      StepInv(cfg, s, schedule[0]);
      StepUsesWork(cfg, s, schedule[0]);
      SchedulesAreBounded(cfg, Step(cfg, s, schedule[0]), schedule[1..]);
    }
  }

  ghost predicate BoundedBy(cfg: Config, workers: nat, n: nat) {
    forall schedule: seq<nat> :: Enabled(cfg, Init(workers), schedule) ==> |schedule| <= n
  }

  /** Without regions every worker returns at its first step. */
  lemma {:induction false} NoRegionsNoWork(cfg: Config, s: State, schedule: seq<nat>)
    requires cfg.regions == [] && Enabled(cfg, s, schedule)
    requires forall i | 0 <= i < |s.workers| :: s.workers[i].Idle? || s.workers[i].Done?
    ensures |schedule| + DoneCount(s.workers) <= |s.workers|
    decreases |schedule|
  {
    DoneAtMost(s.workers);
    if schedule != [] {
      var w := schedule[0];
      DoneCountUpdate(s.workers, w, Done);
      NoRegionsNoWork(cfg, Step(cfg, s, w), schedule[1..]);
    }
  }

  /** With stride 0, a worker at a position it can call back for stays there. */
  lemma {:induction false} ZeroStrideRepeats(cfg: Config, s: State, w: nat, n: nat)
    requires cfg.stride == 0 && !s.aborted && w < |s.workers| && s.workers[w].Calling? && s.workers[w].z == 0
    requires var r, o := s.workers[w].region, s.workers[w].offset;
      o <= Limit(cfg, r) && Fits(cfg, Location(r, o - Start(cfg, r)))
    ensures Enabled(cfg, s, seq(n, _ => w))
    ensures var s' := Run(cfg, s, seq(n, _ => w));
      |s'.workers| == |s.workers| && s'.workers[w] == s.workers[w] && |s'.log| == |s.log| + n
    decreases n
  {
    if n > 0 {
      assert seq(n, _ => w)[1..] == seq(n - 1, _ => w);
      ZeroStrideRepeats(cfg, Step(cfg, s, w), w, n - 1);
    }
  }

  /** From the start of a scan with stride 0, worker 0 can claim the first block and call back for ever. */
  lemma ZeroStrideNeverFinishes(cfg: Config, workers: nat, n: nat)
    requires cfg.stride == 0 && workers > 0 && CounterCannotWrap(cfg, workers)
    requires cfg.regions != [] && cfg.regions[0].size > 0 && cfg.structSize <= cfg.regions[0].size
    ensures var schedule := seq(n + 2, _ => 0);
      Enabled(cfg, Init(workers), schedule) && |Run(cfg, Init(workers), schedule).log| == n
  {
    var s0 := Init(workers);
    var s1 := Step(cfg, s0, 0);
    var s2 := Step(cfg, s1, 0);
    StartMonotone(cfg, 1, |cfg.regions|);
    assert Start(cfg, 1) == Start(cfg, 0) + cfg.regions[0].size;
    assert s1.workers[0] == Seeking(0, 0) && s2.workers[0] == Calling(0, 0, 0);
    ZeroStrideRepeats(cfg, s2, 0, n);
    var schedule := seq(n + 2, _ => 0);
    assert schedule[1..] == seq(n + 1, _ => 0) && schedule[1..][1..] == seq(n, _ => 0);
    assert Run(cfg, s0, schedule) == Run(cfg, s1, schedule[1..]) == Run(cfg, s2, schedule[1..][1..]);
  }

  /**
   * Every scan ends if and only if it has a stride or nothing to scan; stride 0 passes the source's power-of-two test.
   * The structure fits in the first region, as it does in the one scan whose stride is a choice, which reads bytes.
   */
  lemma ScanEndsIffStride(cfg: Config, workers: nat)
    requires workers > 0 && CounterCannotWrap(cfg, workers)
    requires forall i | 0 <= i < |cfg.regions| :: cfg.regions[i].size > 0
    requires cfg.regions != [] ==> cfg.structSize <= cfg.regions[0].size
    ensures (exists n: nat :: BoundedBy(cfg, workers, n)) <==> (cfg.stride > 0 || cfg.regions == [])
  {
    hide Enabled, Inv, StepsLeft, Step, Run, Total;
    var s := Init(workers);
    if cfg.stride > 0 {
      InitInv(cfg, workers);
      forall schedule: seq<nat> | Enabled(cfg, s, schedule) ensures |schedule| <= StepsLeft(cfg, s) {
        SchedulesAreBounded(cfg, s, schedule);
      }
      assert BoundedBy(cfg, workers, StepsLeft(cfg, s));
    } else if cfg.regions == [] {
      forall schedule: seq<nat> | Enabled(cfg, s, schedule) ensures |schedule| <= workers {
        NoRegionsNoWork(cfg, s, schedule);
      }
      assert BoundedBy(cfg, workers, workers);
    } else {
      forall n: nat ensures !BoundedBy(cfg, workers, n) {
        ZeroStrideNeverFinishes(cfg, workers, n);
        var schedule: seq<nat> := seq(n + 2, _ => 0);
        assert Enabled(cfg, s, schedule) && |schedule| == n + 2;
      }
    }
  }
}
