/** count-by-type: per-thread counters filled by the scan callbacks and merged afterwards. */
module TypeCount {
  import opened Wrappers
  import opened Scan
  import opened ScanCoverage

  /** A type address. */
  type TypeAddr = nat

  /** The accepted type of the object at a position: known and valid, or nothing. */
  type Classifier = Location -> Option<TypeAddr>

  type Counts = map<TypeAddr, nat>

  function Get(m: Counts, ty: TypeAddr): nat { if ty in m then m[ty] else 0 }

  function SumOver(counts: seq<Counts>, ty: TypeAddr): nat {
    if counts == [] then 0 else SumOver(counts[..|counts| - 1], ty) + Get(counts[|counts| - 1], ty)
  }

  /** The accepted callbacks of one type that one worker made. */
  function CountFor(log: seq<Event>, classify: Classifier, worker: nat, ty: TypeAddr): nat {
    if log == [] then 0
    else
      var e := log[|log| - 1];
      CountFor(log[..|log| - 1], classify, worker, ty)
      + (if e.worker == worker && classify(e.at) == Some(ty) then 1 else 0)
  }

  function CountAll(log: seq<Event>, classify: Classifier, ty: TypeAddr): nat {
    if log == [] then 0
    else CountAll(log[..|log| - 1], classify, ty) + (if classify(log[|log| - 1].at) == Some(ty) then 1 else 0)
  }

  class TypeCounter {
    const classify: Classifier
    var countForType: seq<Counts>
    ghost var log: seq<Event>

    ghost predicate Valid()
      reads this
    {
      && (forall i | 0 <= i < |log| :: log[i].worker < |countForType|)
      && forall w, ty | 0 <= w < |countForType| :: Get(countForType[w], ty) == CountFor(log, classify, w, ty)
    }

    constructor (classify: Classifier, threads: nat)
      ensures Valid() && log == [] && |countForType| == threads && this.classify == classify
    {
      this.classify := classify;
      countForType := seq(threads, _ => map[]);
      log := [];
    }

    /** The scan callback, called by thread `worker`. */
    method OnObject(worker: nat, at: Location)
      requires Valid() && worker < |countForType|
      modifies this
      ensures Valid() && log == old(log) + [Event(worker, at)] && |countForType| == old(|countForType|)
    {
      var ty := classify(at);
      if ty.Some? {
        var mine := countForType[worker];
        countForType := countForType[worker := mine[ty.value := Get(mine, ty.value) + 1]];
      }
      log := log + [Event(worker, at)];
      assert log[..|log| - 1] == old(log);
    }

    /** Adds the per-thread counters together. */
    method Merge() returns (overall: Counts)
      requires Valid()
      ensures forall ty :: Get(overall, ty) == CountAll(log, classify, ty)
    {
      overall := map[];
      for z := 0 to |countForType|
        invariant forall ty :: Get(overall, ty) == SumOver(countForType[..z], ty)
      {
        overall := AddInto(overall, countForType[z]);
        assert countForType[..z + 1][..z] == countForType[..z];
      }
      assert countForType[..|countForType|] == countForType;
      forall ty ensures SumOver(countForType, ty) == CountAll(log, classify, ty) {
        MergedCounts(countForType, log, classify, ty);
      }
    }
  }

  /** The inner loop of the merge, over one thread's map in any order. */
  method AddInto(overall: Counts, counts: Counts) returns (r: Counts)
    ensures forall ty :: Get(r, ty) == Get(overall, ty) + Get(counts, ty)
  {
    r := overall;
    var keys := counts.Keys;
    while keys != {}
      invariant keys <= counts.Keys
      invariant forall ty :: Get(r, ty) == Get(overall, ty) + (if ty in keys then 0 else Get(counts, ty))
      decreases |keys|
    {
      var ty :| ty in keys;
      r := r[ty := Get(r, ty) + counts[ty]];
      keys := keys - {ty};
    }
  }

  /** Summing per-worker counts over the workers counts every event once. */
  lemma {:induction false} MergedCounts(counts: seq<Counts>, log: seq<Event>, classify: Classifier, ty: TypeAddr)
    requires forall i | 0 <= i < |log| :: log[i].worker < |counts|
    requires forall w | 0 <= w < |counts| :: Get(counts[w], ty) == CountFor(log, classify, w, ty)
    ensures SumOver(counts, ty) == CountAll(log, classify, ty)
  {
    SumIsSumOfCountFor(counts, log, classify, ty);
    SumOfCountForIsCountAll(log, |counts|, classify, ty);
  }

  function SumCountFor(log: seq<Event>, workers: nat, classify: Classifier, ty: TypeAddr): nat {
    if workers == 0 then 0 else SumCountFor(log, workers - 1, classify, ty) + CountFor(log, classify, workers - 1, ty)
  }

  lemma {:induction false} SumIsSumOfCountFor(counts: seq<Counts>, log: seq<Event>, classify: Classifier, ty: TypeAddr)
    requires forall w | 0 <= w < |counts| :: Get(counts[w], ty) == CountFor(log, classify, w, ty)
    ensures SumOver(counts, ty) == SumCountFor(log, |counts|, classify, ty)
  {
    if counts != [] {
      SumIsSumOfCountFor(counts[..|counts| - 1], log, classify, ty);
    }
  }

  lemma {:induction false} SumOfCountForIsCountAll(log: seq<Event>, workers: nat, classify: Classifier, ty: TypeAddr)
    requires forall i | 0 <= i < |log| :: log[i].worker < workers
    ensures SumCountFor(log, workers, classify, ty) == CountAll(log, classify, ty)
  {
    if log == [] {
      EmptyLogSum(workers, classify, ty);
    } else {
      SumOfCountForIsCountAll(log[..|log| - 1], workers, classify, ty);
      OneEventSum(log, workers, classify, ty);
    }
  }

  lemma {:induction false} EmptyLogSum(workers: nat, classify: Classifier, ty: TypeAddr)
    ensures SumCountFor([], workers, classify, ty) == 0
  {
    if workers > 0 { EmptyLogSum(workers - 1, classify, ty); }
  }

  lemma {:induction false} OneEventSum(log: seq<Event>, workers: nat, classify: Classifier, ty: TypeAddr)
    requires log != []
    ensures SumCountFor(log, workers, classify, ty) == SumCountFor(log[..|log| - 1], workers, classify, ty)
      + (if log[|log| - 1].worker < workers && classify(log[|log| - 1].at) == Some(ty) then 1 else 0)
  {
    if workers > 0 { OneEventSum(log, workers - 1, classify, ty); }
  }

  /** The accepted objects of a type that the scan is for. */
  ghost function WantedOfType(cfg: Config, classify: Classifier, ty: TypeAddr): set<Location>
    requires cfg.stride > 0
  {
    set k, d | 0 <= k < |cfg.regions| && 0 <= d < cfg.regions[k].size
      && Wanted(cfg, Location(k, d)) && classify(Location(k, d)) == Some(ty) :: Location(k, d)
  }

  ghost function LoggedOfType(log: seq<Event>, classify: Classifier, ty: TypeAddr): set<Location> {
    set i | 0 <= i < |log| && classify(log[i].at) == Some(ty) :: log[i].at
  }

  lemma {:induction false} LoggedLocation(log: seq<Event>, i: nat)
    requires i < |log|
    ensures Locations(log)[log[i].at] > 0
  {
    if i < |log| - 1 { LoggedLocation(log[..|log| - 1], i); }
  }

  lemma {:induction false} LocationLogged(log: seq<Event>, at: Location) returns (i: nat)
    requires Locations(log)[at] > 0
    ensures i < |log| && log[i].at == at
  {
    i := |log| - 1;
    if log[i].at != at {
      i := LocationLogged(log[..|log| - 1], at);
    }
  }

  /** When no position is called back twice, counting events counts positions. */
  lemma {:induction false} CountIsCardinality(log: seq<Event>, classify: Classifier, ty: TypeAddr)
    requires forall at: Location :: Locations(log)[at] <= 1
    ensures CountAll(log, classify, ty) == |LoggedOfType(log, classify, ty)|
  {
    if log != [] {
      var init, last := log[..|log| - 1], log[|log| - 1].at;
      forall at: Location ensures Locations(init)[at] <= 1 { assert Locations(log)[at] <= 1; }
      CountIsCardinality(init, classify, ty);
      var before := LoggedOfType(init, classify, ty);
      if last in before {
        var i :| 0 <= i < |init| && init[i].at == last;
        LoggedLocation(init, i);
        assert false;
      }
      assert log == init + [log[|log| - 1]];
      assert LoggedOfType(log, classify, ty) == if classify(last) == Some(ty) then before + {last} else before;
    }
  }

  /** A scan that covers its positions exactly logs the wanted objects of each type. */
  lemma LoggedIsWanted(cfg: Config, log: seq<Event>, classify: Classifier, ty: TypeAddr)
    requires cfg.stride > 0 && cfg.objectSize > 0 && Exact(cfg, Locations(log))
    ensures LoggedOfType(log, classify, ty) == WantedOfType(cfg, classify, ty)
  {
    forall at | at in LoggedOfType(log, classify, ty) ensures at in WantedOfType(cfg, classify, ty) {
      var i :| 0 <= i < |log| && log[i].at == at;
      LoggedLocation(log, i);
      assert Wanted(cfg, at) && at == Location(at.region, at.offset);
    }
    forall at | at in WantedOfType(cfg, classify, ty) ensures at in LoggedOfType(log, classify, ty) {
      assert Locations(log)[at] == 1;
      var i := LocationLogged(log, at);
    }
  }

  /** For every schedule, the merged count of a type is the number of accepted objects of that type in the snapshot. */
  lemma MergedCountsAreObjectCounts(cfg: Config, workers: nat, schedule: seq<nat>, classify: Classifier, ty: TypeAddr)
    requires WellFormed(cfg, workers) && workers > 0 && Coverable(cfg)
    requires Ended(Run(cfg, Init(workers), schedule))
    ensures CountAll(Run(cfg, Init(workers), schedule).log, classify, ty) == |WantedOfType(cfg, classify, ty)|
  {
    hide Run, Init, Ended, Coverable, ValidStride, Wanted, CountAll, WantedOfType, LoggedOfType, Start, Locations;
    ScanExactIffCoverable(cfg, workers, schedule);
    var log := Run(cfg, Init(workers), schedule).log;
    forall at: Location ensures Locations(log)[at] <= 1 { }
    CountIsCardinality(log, classify, ty);
    LoggedIsWanted(cfg, log, classify, ty);
  }

  /** The command: the callbacks of one scan, under any schedule, then the merge. */
  method CountByType(cfg: Config, workers: nat, schedule: seq<nat>, classify: Classifier) returns (overall: Counts)
    requires WellFormed(cfg, workers) && workers > 0 && Coverable(cfg)
    requires Ended(Run(cfg, Init(workers), schedule))
    ensures forall ty :: Get(overall, ty) == |WantedOfType(cfg, classify, ty)|
  {
    hide Run, Init, Ended, Coverable, ValidStride, Wanted, CountAll, WantedOfType, Start, Locations;
    var log := Run(cfg, Init(workers), schedule).log;
    LoggedByWorkers(cfg, workers, schedule);
    var counter := new TypeCounter(classify, workers);
    for i := 0 to |log|
      invariant counter.Valid() && counter.log == log[..i]
      invariant |counter.countForType| == workers && counter.classify == classify
    {
      counter.OnObject(log[i].worker, log[i].at);
      assert log[..i + 1] == log[..i] + [log[i]];
    }
    assert log[..|log|] == log;
    overall := counter.Merge();
    forall ty ensures Get(overall, ty) == |WantedOfType(cfg, classify, ty)| {
      MergedCountsAreObjectCounts(cfg, workers, schedule, classify, ty);
    }
  }

  lemma LoggedByWorkers(cfg: Config, workers: nat, schedule: seq<nat>)
    requires WellFormed(cfg, workers)
    ensures var log := Run(cfg, Init(workers), schedule).log; forall i | 0 <= i < |log| :: log[i].worker < workers
  {
    hide Run, Conserved, ValidStride;
    InitInv(cfg, workers);
    RunInv(cfg, Init(workers), schedule);
  }
}
