/** Which positions a scan calls back for, and the exact condition under which they are the ones it should. */
module ScanCoverage {
  import opened Bytes
  import opened Scan

  predicate ValidStride(stride: nat) {
    stride in {1, 2, 4, 8, 0x10, 0x20, 0x40, 0x80, 0x100, 0x200, 0x400, 0x800, 0x1000}
  }

  /** What the callers supply: non-empty regions, a power-of-two stride, a non-empty structure inside the object. */
  predicate WellFormed(cfg: Config, workers: nat) {
    && Runnable(cfg, workers) && ValidStride(cfg.stride) && 0 < cfg.structSize <= cfg.objectSize < TWO_64
    && forall i | 0 <= i < |cfg.regions| :: cfg.regions[i].size > 0
  }

  /** The positions a scan is for: multiples of the stride, inside one region, with room for the whole object. */
  predicate Wanted(cfg: Config, at: Location)
    requires cfg.stride > 0
  {
    && at.region < |cfg.regions| && 0 <= at.offset
    && at.offset % cfg.stride == 0
    && at.offset + cfg.objectSize <= cfg.regions[at.region].size
  }

  /** The first region holds an object, and every region that holds one begins at a multiple of the block size. */
  predicate Coverable(cfg: Config) {
    && (|cfg.regions| > 0 ==> cfg.objectSize <= cfg.regions[0].size)
    && (forall k | 0 <= k < |cfg.regions| :: cfg.regions[k].size >= cfg.objectSize ==> Start(cfg, k) % 0x1000 == 0)
  }

  /** Exactly once for every wanted position and never for anything else. */
  ghost predicate Exact(cfg: Config, calls: multiset<Location>)
    requires cfg.stride > 0
  {
    forall at: Location :: calls[at] == if Wanted(cfg, at) then 1 else 0
  }

  /** The position in the concatenation of all regions. */
  function Global(cfg: Config, at: Location): int { Start(cfg, at.region) + at.offset }

  /** Does the block at `o`, walked in region `k` from `z` on, call back for `at`? */
  predicate InTail(cfg: Config, k: nat, o: nat, z: nat, at: Location)
    requires cfg.stride > 0
  {
    var d := Global(cfg, at) - o;
    at.region == k && z <= d < BLOCK && (d - z) % cfg.stride == 0 && o + d <= Limit(cfg, k)
  }

  lemma ProductBounds(m: int, d: int)
    requires m >= 0
    ensures d >= 1 ==> m * d >= m
    ensures d <= -1 ==> m * d <= -m
  {
  }

  lemma Distribute(m: int, a: int, b: int)
    ensures m * (a + b) == m * a + m * b && m * (a - b) == m * a - m * b
  {
  }

  lemma ModOf(m: nat, q: int, r: nat)
    requires r < m
    ensures (m * q + r) % m == r
  {
    var x := m * q + r;
    var e := x / m;
    assert x == m * e + x % m;
    Distribute(m, q, e);
    ProductBounds(m, q - e);
  }

  lemma ModShift(d: int, z: int, stride: nat)
    requires stride > 0 && z < d
    ensures (d - z) % stride == 0 ==> z + stride <= d
    ensures (d - (z + stride)) % stride == (d - z) % stride
  {
    var q, r := (d - z) / stride, (d - z) % stride;
    assert d - z == stride * q + r;
    Distribute(stride, q, 1);
    ModOf(stride, q - 1, r);
    ProductBounds(stride, q);
  }

  lemma InTailStep(cfg: Config, k: nat, o: nat, z: nat, at: Location)
    requires cfg.stride > 0
    ensures z < BLOCK && o + z <= Limit(cfg, k) ==>
      var here := at == Location(k, o - Start(cfg, k) + z);
      && (InTail(cfg, k, o, z, at) <==> here || InTail(cfg, k, o, z + cfg.stride, at))
      && !(here && InTail(cfg, k, o, z + cfg.stride, at))
    ensures z >= BLOCK || o + z > Limit(cfg, k) ==> !InTail(cfg, k, o, z, at)
  {
    hide Start, Limit;
    var d := Global(cfg, at) - o;
    if d > z {
      ModShift(d, z, cfg.stride);
    } else if d == z {
      assert (d - z) % cfg.stride == 0;
    }
  }

  lemma TailUnfolds(cfg: Config, k: nat, o: nat, z: nat)
    requires cfg.stride > 0
    ensures z < BLOCK && o + z <= Limit(cfg, k) ==>
      BlockTail(cfg, k, o, z) == multiset{Location(k, o - Start(cfg, k) + z)} + BlockTail(cfg, k, o, z + cfg.stride)
    ensures z >= BLOCK || o + z > Limit(cfg, k) ==> BlockTail(cfg, k, o, z) == multiset{}
  {
    hide Start, Limit;
  }

  lemma {:induction false} TailCount(cfg: Config, k: nat, o: nat, z: nat, at: Location)
    requires cfg.stride > 0
    ensures BlockTail(cfg, k, o, z)[at] == if InTail(cfg, k, o, z, at) then 1 else 0
    decreases BLOCK - z
  {
    hide Start, Limit, InTail, BlockTail;
    InTailStep(cfg, k, o, z, at);
    TailUnfolds(cfg, k, o, z);
    if z < BLOCK && o + z <= Limit(cfg, k) {
      TailCount(cfg, k, o, z + cfg.stride, at);
    }
  }

  /** The one block that can call back for a position. */
  function BlockOf(cfg: Config, at: Location): int { Global(cfg, at) / BLOCK }

  predicate Called(cfg: Config, at: Location)
    requires cfg.stride > 0
  {
    var o := BlockOf(cfg, at) * BLOCK;
    Global(cfg, at) >= 0 && o < Total(cfg) && InTail(cfg, RegionFrom(cfg, 0, o), o, 0, at)
  }

  lemma BlockCount(cfg: Config, j: nat, at: Location)
    requires cfg.stride > 0
    ensures BlockCalls(cfg, j * BLOCK)[at] == if j == BlockOf(cfg, at) && Called(cfg, at) then 1 else 0
  {
    hide Start, RegionFrom, Limit, BlockTail;
    var o := j * BLOCK;
    if o < Total(cfg) {
      TailCount(cfg, RegionFrom(cfg, 0, o), o, 0, at);
      if 0 <= Global(cfg, at) - o < BLOCK {
        assert j == BlockOf(cfg, at);
      }
    }
  }

  /** The sequential scan calls back for every position at most once, and exactly for the `Called` ones. */
  lemma {:induction false} SequentialCount(cfg: Config, n: nat, at: Location)
    requires cfg.stride > 0
    ensures BlocksBelow(cfg, n)[at] == if BlockOf(cfg, at) < n && Called(cfg, at) then 1 else 0
  {
    hide BlockOf, Called, BlockCalls;
    if n > 0 {
      SequentialCount(cfg, n - 1, at);
      BlockCount(cfg, n - 1, at);
    }
    if Called(cfg, at) { CalledBlock(cfg, at); }
  }

  lemma CalledBlock(cfg: Config, at: Location)
    requires cfg.stride > 0 && Called(cfg, at)
    ensures 0 <= BlockOf(cfg, at) && BlockOf(cfg, at) * BLOCK < Total(cfg)
  {
  }

  lemma StrideDividesBlock(stride: nat, a: int)
    requires ValidStride(stride)
    ensures stride > 0 && (a * BLOCK) % stride == 0
  {
    var q := BLOCK / stride;
    assert q * stride == BLOCK;
    assert a * BLOCK == stride * (a * q) by { Regroup(a, q, stride); }
    ModOf(stride, a * q, 0);
  }

  lemma Regroup(a: int, q: int, s: int)
    ensures a * (q * s) == s * (a * q)
  {
  }

  /** Positions in a region that begins at a block boundary have the same residue as their distance to a block. */
  lemma ResidueInBlock(stride: nat, start: int, o: int, offset: int)
    requires ValidStride(stride) && start % BLOCK == 0 && o % BLOCK == 0
    ensures (start + offset - o) % stride == offset % stride
  {
    hide ValidStride;
    var a := (start - o) / BLOCK;
    assert start - o == a * BLOCK;
    StrideDividesBlock(stride, a);
    var b := (a * BLOCK) / stride;
    assert a * BLOCK == stride * b;
    var q, r := offset / stride, offset % stride;
    assert offset == stride * q + r;
    assert start + offset - o == stride * (b + q) + r by { Distribute(stride, b, q); }
    ModOf(stride, b + q, r);
  }

  /** Where the subtraction in the limit does not wrap, the limit leaves room for exactly one object. */
  lemma LimitFits(cfg: Config, workers: nat, k: nat)
    requires WellFormed(cfg, workers) && k < |cfg.regions| && cfg.objectSize <= cfg.regions[0].size
    ensures Limit(cfg, k) == Start(cfg, k + 1) - cfg.objectSize
    ensures Start(cfg, k + 1) == Start(cfg, k) + cfg.regions[k].size
  {
    hide ValidStride;
    StartMonotone(cfg, 1, k + 1);
    StartMonotone(cfg, k + 1, |cfg.regions|);
    assert Start(cfg, 1) == Start(cfg, 0) + cfg.regions[0].size;
  }

  lemma CalledIsWanted(cfg: Config, workers: nat, at: Location)
    requires WellFormed(cfg, workers) && Coverable(cfg) && Called(cfg, at)
    ensures Wanted(cfg, at)
  {
    hide Start, RegionFrom, Limit, ValidStride;
    var o := BlockOf(cfg, at) * BLOCK;
    RegionStarts(cfg);
    RegionFromFinds(cfg, 0, o);
    LimitFits(cfg, workers, at.region);
    ResidueInBlock(cfg.stride, Start(cfg, at.region), o, at.offset);
  }

  lemma RegionStarts(cfg: Config)
    ensures Start(cfg, 0) == 0
  {
  }

  lemma WantedIsCalled(cfg: Config, workers: nat, at: Location)
    requires WellFormed(cfg, workers) && Coverable(cfg) && Wanted(cfg, at)
    ensures Called(cfg, at)
  {
    hide Start, RegionFrom, Limit, ValidStride;
    var o := BlockOf(cfg, at) * BLOCK;
    LimitFits(cfg, workers, at.region);
    assert Start(cfg, at.region) % BLOCK == 0;
    RegionIsUnique(cfg, at.region, o);
    ResidueInBlock(cfg.stride, Start(cfg, at.region), o, at.offset);
  }

  /** An object larger than the first region wraps the limit: the very first position is reached regardless. */
  lemma OversizedObjectReached(cfg: Config, workers: nat)
    requires WellFormed(cfg, workers) && |cfg.regions| > 0 && cfg.objectSize > cfg.regions[0].size
    ensures Called(cfg, Location(0, 0)) && !Wanted(cfg, Location(0, 0))
  {
    hide ValidStride;
    StartMonotone(cfg, 1, |cfg.regions|);
    assert Start(cfg, 1) == Start(cfg, 0) + cfg.regions[0].size;
    RegionIsUnique(cfg, 0, 0);
    ModOf(cfg.stride, 0, 0);
  }

  /** A region that begins inside a block loses its first position: that block belongs to the region before it. */
  lemma UnalignedRegionMissed(cfg: Config, workers: nat, k: nat)
    requires WellFormed(cfg, workers) && k < |cfg.regions| && cfg.regions[k].size >= cfg.objectSize
    requires Start(cfg, k) % BLOCK != 0
    ensures !Called(cfg, Location(k, 0)) && Wanted(cfg, Location(k, 0))
  {
    hide Start, RegionFrom, Limit, ValidStride;
    var o := BlockOf(cfg, Location(k, 0)) * BLOCK;
    ModOf(cfg.stride, 0, 0);
    if o < Total(cfg) {
      RegionStarts(cfg);
      RegionFromFinds(cfg, 0, o);
    }
  }

  // ---- Runs ----

  /** The callbacks of a finished run are the reached positions, each once. */
  lemma FinishedCalls(cfg: Config, workers: nat, schedule: seq<nat>, at: Location)
    requires WellFormed(cfg, workers) && workers > 0 && Finished(Run(cfg, Init(workers), schedule))
    ensures Locations(Run(cfg, Init(workers), schedule).log)[at] == if Called(cfg, at) then 1 else 0
  {
    hide Start, Run, Init, Locations, BlocksBelow, Called, Finished, ValidStride;
    FinishedScanIsSequential(cfg, workers, schedule, Total(cfg));
    SequentialCount(cfg, Total(cfg), at);
    if Called(cfg, at) { CalledBlock(cfg, at); }
  }

  /** Every position called back for holds the structure; the others end the process. */
  lemma {:induction false} LoggedPositionsFit(cfg: Config, s: State, schedule: seq<nat>)
    requires forall e <- s.log :: Fits(cfg, e.at)
    ensures forall e <- Run(cfg, s, schedule).log :: Fits(cfg, e.at)
    decreases |schedule|
  {
    hide Fits, Limit, Start;
    if schedule != [] {
      LoggedPositionsFit(cfg, Step(cfg, s, schedule[0]), schedule[1..]);
    }
  }

  lemma {:induction false} CalledIsLogged(log: seq<Event>, at: Location)
    requires Locations(log)[at] > 0
    ensures exists e <- log :: e.at == at
  {
    var last := log[|log| - 1];
    if last.at != at {
      CalledIsLogged(log[..|log| - 1], at);
    }
  }

  /** With an object larger than the first region, a run that finishes has called back for a position without room. */
  lemma OversizedObjectCalledAnyway(cfg: Config, workers: nat, schedule: seq<nat>)
    requires WellFormed(cfg, workers) && workers > 0 && Finished(Run(cfg, Init(workers), schedule))
    requires |cfg.regions| > 0 && cfg.structSize <= cfg.regions[0].size < cfg.objectSize
    ensures Locations(Run(cfg, Init(workers), schedule).log)[Location(0, 0)] == 1 && !Wanted(cfg, Location(0, 0))
  {
    hide Start, Run, Init, Locations, Called, Finished, ValidStride;
    OversizedObjectReached(cfg, workers);
    FinishedCalls(cfg, workers, schedule, Location(0, 0));
  }

  /** With a structure larger than the first region, no run finishes: reading the first position throws. */
  lemma OversizedStructureAborts(cfg: Config, workers: nat, schedule: seq<nat>)
    requires WellFormed(cfg, workers) && workers > 0 && Ended(Run(cfg, Init(workers), schedule))
    requires |cfg.regions| > 0 && cfg.structSize > cfg.regions[0].size
    ensures Run(cfg, Init(workers), schedule).aborted
  {
    hide Start, Run, Locations, Called, ValidStride;
    var s := Run(cfg, Init(workers), schedule);
    if Finished(s) {
      OversizedObjectReached(cfg, workers);
      FinishedCalls(cfg, workers, schedule, Location(0, 0));
      CalledIsLogged(s.log, Location(0, 0));
      LoggedPositionsFit(cfg, Init(workers), schedule);
      assert false;
    }
  }

  /** The position at which a step ends the process is one a sequential pass reaches. */
  lemma AbortIsCalled(cfg: Config, s: State, w: nat) returns (at: Location)
    requires Runnable(cfg, |s.workers|) && Inv(cfg, s) && !s.aborted && Step(cfg, s, w).aborted
    ensures Called(cfg, at) && !Fits(cfg, at)
  {
    hide Start, Limit, Fits, Called, BlocksBelow, Locations, AllOwed;
    var Calling(r, o, z) := s.workers[w];
    at := Location(r, o - Start(cfg, r) + z);
    assert Owed(cfg, s.workers[w])[at] > 0;
    OwedIsOwedByAll(cfg, s.workers, w, at);
    SequentialCount(cfg, s.counter / BLOCK, at);
  }

  lemma {:induction false} OwedIsOwedByAll(cfg: Config, ws: seq<Worker>, w: nat, at: Location)
    requires cfg.stride > 0 && w < |ws| && Owed(cfg, ws[w])[at] > 0
    ensures AllOwed(cfg, ws)[at] > 0
  {
    hide Owed;
    if w > 0 { OwedIsOwedByAll(cfg, ws[1..], w - 1, at); }
  }

  lemma {:induction false} CoverableRunsNeverAbort(cfg: Config, workers: nat, s: State, schedule: seq<nat>)
    requires WellFormed(cfg, workers) && Coverable(cfg) && |s.workers| == workers && Inv(cfg, s) && !s.aborted
    ensures !Run(cfg, s, schedule).aborted
    decreases |schedule|
  {
    hide Inv, Step, Called, Coverable, Start, ValidStride, Runnable;
    if schedule != [] {
      if Step(cfg, s, schedule[0]).aborted {
        var at := AbortIsCalled(cfg, s, schedule[0]);
        CalledIsWanted(cfg, workers, at);
        assert false;
      }
      StepInv(cfg, s, schedule[0]);
      CoverableRunsNeverAbort(cfg, workers, Step(cfg, s, schedule[0]), schedule[1..]);
    }
  }

  /**
   * The main result. For every worker count and every interleaving, a scan that has come to its end has finished, with
   * exactly one callback for each stride position at which a whole object fits and none for anything else, if and only
   * if the first region holds an object and every region that holds one begins at a block boundary.
   */
  lemma ScanExactIffCoverable(cfg: Config, workers: nat, schedule: seq<nat>)
    requires WellFormed(cfg, workers) && workers > 0
    requires Ended(Run(cfg, Init(workers), schedule))
    ensures var s := Run(cfg, Init(workers), schedule); Finished(s) && Exact(cfg, Locations(s.log)) <==> Coverable(cfg)
  {
    hide Start, Run, Locations, Called, Wanted, Inv, ValidStride;
    var s := Run(cfg, Init(workers), schedule);
    if Coverable(cfg) {
      InitInv(cfg, workers);
      CoverableRunsNeverAbort(cfg, workers, Init(workers), schedule);
      forall at: Location ensures Locations(s.log)[at] == if Wanted(cfg, at) then 1 else 0 {
        FinishedCalls(cfg, workers, schedule, at);
        if Called(cfg, at) { CalledIsWanted(cfg, workers, at); }
        if Wanted(cfg, at) { WantedIsCalled(cfg, workers, at); }
      }
    } else if Finished(s) {
      var at := UncoverablePosition(cfg, workers);
      FinishedCalls(cfg, workers, schedule, at);
    }
  }

  /** Where the condition fails, some position is reached without being wanted, or wanted without being reached. */
  lemma UncoverablePosition(cfg: Config, workers: nat) returns (at: Location)
    requires WellFormed(cfg, workers) && !Coverable(cfg)
    ensures Called(cfg, at) != Wanted(cfg, at)
  {
    hide Start, Called, Wanted, ValidStride;
    if |cfg.regions| > 0 && cfg.objectSize > cfg.regions[0].size {
      OversizedObjectReached(cfg, workers);
      at := Location(0, 0);
    } else {
      var k :| 0 <= k < |cfg.regions| && cfg.regions[k].size >= cfg.objectSize && Start(cfg, k) % BLOCK != 0;
      UnalignedRegionMissed(cfg, workers, k);
      at := Location(k, 0);
    }
  }

  lemma {:induction false} PagedStarts(cfg: Config, k: nat)
    requires forall i | 0 <= i < |cfg.regions| :: cfg.regions[i].size % BLOCK == 0
    ensures Start(cfg, k) % BLOCK == 0
  {
    if k > 0 { PagedStarts(cfg, k - 1); }
  }

  /** The usual case: every region is a whole number of pages and the first one holds an object. */
  lemma PagedRegionsCoverable(cfg: Config)
    requires forall i | 0 <= i < |cfg.regions| :: cfg.regions[i].size % 0x1000 == 0
    requires |cfg.regions| > 0 ==> cfg.objectSize <= cfg.regions[0].size
    ensures Coverable(cfg)
  {
    forall k | 0 <= k < |cfg.regions| ensures Start(cfg, k) % BLOCK == 0 {
      PagedStarts(cfg, k);
    }
  }
}
