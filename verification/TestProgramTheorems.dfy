/** The test program's promises, for every number of CPUs and every interleaving. */
module TestProgramTheorems {
  import opened Sums
  import opened TestProgram
  import opened TestProgramProofs
  import Barrier

  // ---------------------------------------------------------------------------------------------
  // Ids
  // ---------------------------------------------------------------------------------------------

  ghost function IdSet(workers: seq<Worker>): set<nat> {
    set c | 0 <= c < |workers| :: workers[c].id
  }

  function Below(n: nat): (r: set<nat>)
    ensures |r| == n && forall k: nat :: k in r <==> k < n
  {
    if n == 0 then {} else Below(n - 1) + {n - 1}
  }

  lemma LastId(workers: seq<Worker>)
    requires workers != []
    requires forall c, d :: 0 <= c < d < |workers| ==> workers[c].id != workers[d].id
    ensures var n := |workers| - 1;
            IdSet(workers) == IdSet(workers[..n]) + {workers[n].id} && workers[n].id !in IdSet(workers[..n])
  {
    var n := |workers| - 1;
    forall id | id in IdSet(workers[..n])
      ensures id in IdSet(workers) && id != workers[n].id
    {
      var c :| 0 <= c < n && workers[..n][c].id == id;
      assert workers[c].id == id;
    }
    forall id | id in IdSet(workers) && id != workers[n].id ensures id in IdSet(workers[..n]) {
      var c :| 0 <= c < |workers| && workers[c].id == id;
      assert workers[..n][c].id == id;
    }
  }

  lemma {:induction false} DistinctIds(workers: seq<Worker>)
    requires forall c, d :: 0 <= c < d < |workers| ==> workers[c].id != workers[d].id
    ensures |IdSet(workers)| == |workers|
  {
    if workers == [] {
    } else {
      DistinctIds(workers[..|workers| - 1]);
      LastId(workers);
    }
  }

  lemma SubsetOfFullSize(some: set<nat>, n: nat)
    requires |some| == n && forall k :: k in some ==> k < n
    ensures some == Below(n)
  {
    var rest := Below(n) - some;
    assert Below(n) == some + rest;
    assert |rest| == 0;
  }

  lemma IdsBelow(workers: seq<Worker>, n: nat)
    requires forall c :: 0 <= c < |workers| ==> workers[c].id < n
    ensures forall id :: id in IdSet(workers) ==> id < n
  {
  }

  lemma AllIdsAreDrawn(cfg: Config, s: State)
    requires Inv(cfg, s) && forall c :: 0 <= c < cfg.n ==> HasId(s.workers[c])
    ensures IdSet(s.workers) == Below(cfg.n)
  {
    hide Barrier.Inv, CountersOk, SumsOk, Placed, IdSet, Below;
    DistinctIds(s.workers);
    DrawnAll(s.workers);
    assert forall id :: id in IdSet(s.workers) ==> id < cfg.n by { IdsBelow(s.workers, cfg.n); }
    SubsetOfFullSize(IdSet(s.workers), cfg.n);
  }

  /** Drawn ids are distinct and below the number of CPUs; once everybody has drawn, they are exactly 0..n-1. */
  lemma IdsAreUnique(cfg: Config, schedule: seq<nat>, c: nat, d: nat)
    requires cfg.Valid() && Schedule(cfg, schedule) && c < cfg.n && d < cfg.n
    ensures var s := Exec(cfg, schedule);
            && s.workers[0].id == 0
            && (HasId(s.workers[c]) ==> s.workers[c].id < cfg.n)
            && (c != d && HasId(s.workers[c]) && HasId(s.workers[d]) ==> s.workers[c].id != s.workers[d].id)
            && ((forall e :: 0 <= e < cfg.n ==> HasId(s.workers[e])) ==> IdSet(s.workers) == Below(cfg.n))
  {
    var s := Exec(cfg, schedule);
    ExecInv(cfg, schedule);
    DrawnBelow(cfg, s, c);
    hide Barrier.Inv, CountersOk, SumsOk, Placed, IdSet, Below, Exec;
    if forall e :: 0 <= e < cfg.n ==> HasId(s.workers[e]) {
      AllIdsAreDrawn(cfg, s);
    }
  }

  // ---------------------------------------------------------------------------------------------
  // The sum
  // ---------------------------------------------------------------------------------------------

  /** After its g-th barrier a CPU finds every CPU at least at the g-th barrier. */
  lemma EverybodyArrived(cfg: Config, s: State, c: nat, d: nat)
    requires Inv(cfg, s) && c < cfg.n && d < cfg.n
    ensures var (g, h) := (s.bar.cpus[c].passed, s.bar.cpus[d].passed);
            h >= g || (h + 1 == g && s.workers[d].work.AtBarrier?)
  {
    hide Barrier.Inv, CountersOk, SumsOk, IdsOk;
    Barrier.InvSeparates(s.bar, c, d);
    assert Placed(cfg, s.workers[d], s.bar.cpus[d]);
  }

  lemma EverybodyAdded(cfg: Config, s: State, c: nat)
    requires Inv(cfg, s) && c < cfg.n && s.bar.cpus[c].passed >= 2
    ensures forall d :: 0 <= d < cfg.n ==> HasAdded(s.workers[d], s.bar.cpus[d].passed) && HasId(s.workers[d])
    ensures IdSet(s.workers) == Below(cfg.n)
  {
    hide Barrier.Inv, Drawn, CountersOk, IdsOk, SumsOk, Below, IdSet;
    forall d | 0 <= d < cfg.n
      ensures HasAdded(s.workers[d], s.bar.cpus[d].passed) && HasId(s.workers[d])
    {
      EverybodyArrived(cfg, s, c, d);
      assert Placed(cfg, s.workers[d], s.bar.cpus[d]);
    }
    AllIdsAreDrawn(cfg, s);
  }

  lemma OwnerOf(cfg: Config, s: State, id: nat) returns (d: nat)
    requires Shaped(cfg, s) && IdSet(s.workers) == Below(cfg.n) && id < cfg.n
    ensures d < cfg.n && s.workers[d].id == id
  {
    assert id in Below(cfg.n);
    assert id in IdSet(s.workers);
    var c :| 0 <= c < |s.workers| && s.workers[c].id == id;
    d := c;
  }

  lemma EverybodyContributes(cfg: Config, s: State)
    requires Shaped(cfg, s) && IdSet(s.workers) == Below(cfg.n)
    requires forall d :: 0 <= d < cfg.n ==> HasAdded(s.workers[d], s.bar.cpus[d].passed)
    ensures forall id: nat :: id < cfg.n ==> id in Contributors(cfg, s)
  {
    forall id: nat | id < cfg.n ensures id in Contributors(cfg, s) {
      var d := OwnerOf(cfg, s, id);
      assert HasAdded(s.workers[d], s.bar.cpus[d].passed);
    }
  }

  lemma SumIsCompleteIn(cfg: Config, s: State, c: nat)
    requires Inv(cfg, s) && c < cfg.n && s.bar.cpus[c].passed >= 2
    ensures s.total == cfg.target * (cfg.target + 1) / 2
  {
    hide Barrier.Inv, CountersOk, IdsOk, Placed, SumOf, Below, IdSet, Contributors;
    EverybodyAdded(cfg, s, c);
    EverybodyContributes(cfg, s);
    TotalIsGauss(cfg.target, cfg.n, Contributors(cfg, s));
  }

  lemma PartialsAreComplete(cfg: Config, s: State, c: nat)
    requires Inv(cfg, s) && c < cfg.n && s.bar.cpus[c].passed >= 2
    ensures forall k :: 0 <= k < cfg.n ==> s.partial[k] == LocalSum(cfg.target, cfg.n, k)
  {
    hide Barrier.Inv, LocalSum, CountersOk, IdsOk, Placed, SumOf, Below, IdSet, Contributors;
    EverybodyAdded(cfg, s, c);
    forall k | 0 <= k < cfg.n ensures s.partial[k] == LocalSum(cfg.target, cfg.n, k) {
      var d := OwnerOf(cfg, s, k);
      assert HasPublished(s.workers[d], s.bar.cpus[d].passed);
    }
  }

  /** Past the second barrier the total is target * (target + 1) / 2, and every partial sum is in place. */
  lemma SumIsComplete(cfg: Config, schedule: seq<nat>, c: nat)
    requires cfg.Valid() && Schedule(cfg, schedule) && c < cfg.n
    requires Exec(cfg, schedule).bar.cpus[c].passed >= 2
    ensures Exec(cfg, schedule).total == cfg.target * (cfg.target + 1) / 2
    ensures forall k :: 0 <= k < cfg.n ==> Exec(cfg, schedule).partial[k] == LocalSum(cfg.target, cfg.n, k)
  {
    ExecInv(cfg, schedule);
    hide Exec, Inv, LocalSum;
    SumIsCompleteIn(cfg, Exec(cfg, schedule), c);
    PartialsAreComplete(cfg, Exec(cfg, schedule), c);
  }

  lemma EverybodyIn(ids: set<nat>, n: nat)
    requires Below(n) <= ids
    ensures forall id: nat :: id < n ==> id in ids
  {
    forall id: nat | id < n ensures id in ids {
      assert id in Below(n);
    }
  }

  lemma TotalIsBoundedIn(cfg: Config, s: State)
    requires Inv(cfg, s)
    ensures s.total <= cfg.target * (cfg.target + 1) / 2
  {
    hide Barrier.Inv, LocalSum, Drawn, CountersOk, IdsOk, SumOf, Placed, Contributors;
    var everybody := Contributors(cfg, s) + Below(cfg.n);
    SumOfMonotone(cfg.target, cfg.n, Contributors(cfg, s), everybody, cfg.n);
    EverybodyIn(everybody, cfg.n);
    hide Below;
    TotalIsGauss(cfg.target, cfg.n, everybody);
  }

  /** At no point does the running total exceed the final one. */
  lemma TotalIsBounded(cfg: Config, schedule: seq<nat>)
    requires cfg.Valid() && Schedule(cfg, schedule)
    ensures Exec(cfg, schedule).total <= cfg.target * (cfg.target + 1) / 2
  {
    ExecInv(cfg, schedule);
    hide Exec, Inv;
    TotalIsBoundedIn(cfg, Exec(cfg, schedule));
  }

  /** With the kernel's constants no 64-bit sum wraps, and the BSP finds the expected sum once it has passed its barriers. */
  lemma KernelSumIsExpected(n: nat, schedule: seq<nat>)
    requires n > 0 && Schedule(Kernel(n), schedule)
    ensures Exec(Kernel(n), schedule).total < 0x1_0000_0000_0000_0000
    ensures Exec(Kernel(n), schedule).bar.cpus[0].passed >= 2 ==> Exec(Kernel(n), schedule).total == 50_000_005_000_000
  {
    hide Exec;
    TotalIsBounded(Kernel(n), schedule);
    if Exec(Kernel(n), schedule).bar.cpus[0].passed >= 2 {
      SumIsComplete(Kernel(n), schedule, 0);
    }
  }

  // ---------------------------------------------------------------------------------------------
  // The counters
  // ---------------------------------------------------------------------------------------------

  lemma StepKeepsId(cfg: Config, s: State, c: nat, d: nat)
    requires cfg.Valid() && Shaped(cfg, s) && c < cfg.n && d < cfg.n
    ensures var (w, w') := (s.workers[d], Step(cfg, s, c).workers[d]);
            (HasId(w) ==> HasId(w') && w'.id == w.id) && (w.work.Done? ==> w'.work.Done?)
  {
    hide Barrier.Step, LocalSum;
  }

  /** Ids and being done are for good. */
  lemma {:induction false} IdsStay(cfg: Config, schedule: seq<nat>, more: seq<nat>, c: nat)
    requires cfg.Valid() && Schedule(cfg, schedule) && Schedule(cfg, more) && c < cfg.n
    ensures Schedule(cfg, schedule + more)
    ensures var (w, w') := (Exec(cfg, schedule).workers[c], Exec(cfg, schedule + more).workers[c]);
            (HasId(w) ==> HasId(w') && w'.id == w.id) && (w.work.Done? ==> w'.work.Done?)
  {
    hide Step;
    if more == [] {
      assert schedule + more == schedule;
    } else {
      var k := |more| - 1;
      IdsStay(cfg, schedule, more[..k], c);
      assert (schedule + more)[..|schedule + more| - 1] == schedule + more[..k];
      StepKeepsId(cfg, Exec(cfg, schedule + more[..k]), more[k], c);
    }
  }

  /** The next step of the schedule changes counter k. */
  ghost predicate Writes(cfg: Config, schedule: seq<nat>, c: nat, k: nat)
    requires cfg.Valid() && Schedule(cfg, schedule) && c < cfg.n && k < cfg.n
  {
    Step(cfg, Exec(cfg, schedule), c).counters[k] != Exec(cfg, schedule).counters[k]
  }

  lemma WriterHasId(cfg: Config, schedule: seq<nat>, c: nat, k: nat)
    requires cfg.Valid() && Schedule(cfg, schedule) && c < cfg.n && k < cfg.n && Writes(cfg, schedule, c, k)
    ensures HasId(Exec(cfg, schedule).workers[c]) && Exec(cfg, schedule).workers[c].id == k
  {
    hide Exec, LocalSum, Barrier.Step;
  }

  /** In a run a counter has one writer: the CPU that drew its number as id. */
  lemma CounterHasOneWriter(cfg: Config, schedule: seq<nat>, more: seq<nat>, c: nat, d: nat, k: nat)
    requires cfg.Valid() && Schedule(cfg, schedule) && Schedule(cfg, more) && c < cfg.n && d < cfg.n && k < cfg.n
    requires Writes(cfg, schedule, c, k)
    ensures HasId(Exec(cfg, schedule).workers[c]) && Exec(cfg, schedule).workers[c].id == k
    ensures Schedule(cfg, schedule + more) && (Writes(cfg, schedule + more, d, k) ==> c == d)
  {
    IdsStay(cfg, schedule, more, c);
    WriterHasId(cfg, schedule, c, k);
    if Writes(cfg, schedule + more, d, k) {
      WriterHasId(cfg, schedule + more, d, k);
    }
    hide Exec, Writes, Step, IdSet, Below;
    IdsAreUnique(cfg, schedule + more, c, d);
  }

  /** Once any CPU is past the last barrier every counter has reached half way; a CPU that is done has its counter full. */
  lemma CountersAfterLastBarrier(cfg: Config, schedule: seq<nat>, c: nat, d: nat)
    requires cfg.Valid() && Schedule(cfg, schedule) && c < cfg.n && d < cfg.n
    requires Exec(cfg, schedule).bar.cpus[c].passed == 4
    ensures var s := Exec(cfg, schedule);
            && HasId(s.workers[d])
            && cfg.half <= Get(s.counters, s.workers[d].id) <= cfg.full
            && (s.workers[d].work.Done? ==> Get(s.counters, s.workers[d].id) == cfg.full)
  {
    ExecInv(cfg, schedule);
    var s := Exec(cfg, schedule);
    hide Exec, Barrier.Inv, SumsOk, IdsOk;
    EverybodyArrived(cfg, s, c, d);
    assert Placed(cfg, s.workers[d], s.bar.cpus[d]);
  }

  /** The CPU has made its last store. */
  predicate CountedUp(cfg: Config, w: Worker) {
    w.work.Done? || w.work == Load(cfg.full)
  }

  /** The CPU whose counter this is has made its last store. */
  ghost predicate LastStoreMade(cfg: Config, s: State, k: nat)
    requires Shaped(cfg, s)
  {
    exists d :: 0 <= d < cfg.n && s.workers[d].id == k && CountedUp(cfg, s.workers[d])
  }

  /** When each counter is read: after so many steps of the run, one counter after the other, all of them after the BSP is done. */
  ghost predicate ReadTimes(cfg: Config, schedule: seq<nat>, times: seq<nat>)
    requires cfg.Valid() && Schedule(cfg, schedule)
  {
    && |times| == cfg.n && (forall k :: 0 <= k < |times| ==> times[k] <= |schedule|)
    && (forall j, k :: 0 <= j < k < |times| ==> times[j] <= times[k])
    && Exec(cfg, schedule[..times[0]]).workers[0].work.Done?
  }

  lemma CounterShowsEnd(cfg: Config, s: State, d: nat)
    requires Inv(cfg, s) && cfg.half < cfg.full && s.workers[0].work.Done? && d < cfg.n
    ensures HasId(s.workers[d]) && s.workers[d].id < cfg.n
    ensures s.counters[s.workers[d].id] == cfg.full <==> CountedUp(cfg, s.workers[d])
  {
    hide Barrier.Inv, SumsOk, Drawn;
    assert Placed(cfg, s.workers[0], s.bar.cpus[0]);
    EverybodyArrived(cfg, s, 0, d);
    assert Placed(cfg, s.workers[d], s.bar.cpus[d]);
    DrawnBelow(cfg, s, d);
  }

  /** One read of the display. */
  lemma CounterReadIff(cfg: Config, s: State, k: nat)
    requires Inv(cfg, s) && cfg.half < cfg.full && s.workers[0].work.Done? && k < cfg.n
    ensures s.counters[k] == cfg.full <==> LastStoreMade(cfg, s, k)
  {
    forall d | 0 <= d < cfg.n
      ensures HasId(s.workers[d]) && s.workers[d].id < cfg.n
      ensures s.counters[s.workers[d].id] == cfg.full <==> CountedUp(cfg, s.workers[d])
    {
      CounterShowsEnd(cfg, s, d);
    }
    hide Barrier.Inv, SumsOk, IdsOk, CountersOk, Placed, CountedUp, IdSet, Below;
    AllIdsAreDrawn(cfg, s);
    var d := OwnerOf(cfg, s, k);
  }

  /**
   * The BSP's display, read one counter after the other while the other CPUs go on: it is all OK if and only if
   * each counter's CPU had made its last store by the time that counter was read.
   */
  lemma DisplayIsOkIff(cfg: Config, schedule: seq<nat>, times: seq<nat>)
    requires cfg.Valid() && cfg.half < cfg.full && Schedule(cfg, schedule) && ReadTimes(cfg, schedule, times)
    ensures (forall k :: 0 <= k < cfg.n ==> Exec(cfg, schedule[..times[k]]).counters[k] == cfg.full) <==>
            (forall k :: 0 <= k < cfg.n ==> LastStoreMade(cfg, Exec(cfg, schedule[..times[k]]), k))
  {
    hide Exec, Inv, LastStoreMade;
    forall k | 0 <= k < cfg.n
      ensures Exec(cfg, schedule[..times[k]]).counters[k] == cfg.full <==> LastStoreMade(cfg, Exec(cfg, schedule[..times[k]]), k)
    {
      assert times[0] <= times[k];
      assert schedule[..times[k]] == schedule[..times[0]] + schedule[times[0]..times[k]];
      IdsStay(cfg, schedule[..times[0]], schedule[times[0]..times[k]], 0);
      ExecInv(cfg, schedule[..times[k]]);
      CounterReadIff(cfg, Exec(cfg, schedule[..times[k]]), k);
    }
  }

  /** Past its first barrier a CPU finds all ids drawn. */
  lemma OwnerAfterFirst(cfg: Config, s: State, c: nat, k: nat) returns (d: nat)
    requires Inv(cfg, s) && c < cfg.n && s.bar.cpus[c].passed >= 1 && k < cfg.n
    ensures d < cfg.n && s.workers[d].id == k && HasId(s.workers[d])
  {
    hide Barrier.Inv, IdsOk, CountersOk, SumsOk, IdSet, Below;
    forall e | 0 <= e < cfg.n ensures HasId(s.workers[e]) {
      EverybodyArrived(cfg, s, c, e);
      assert Placed(cfg, s.workers[e], s.bar.cpus[e]);
    }
    AllIdsAreDrawn(cfg, s);
    d := OwnerOf(cfg, s, k);
  }

  lemma CounterInPhase(cfg: Config, s: State, c: nat, d: nat)
    requires Inv(cfg, s) && c < cfg.n && d < cfg.n && HasId(s.workers[d]) && !s.workers[c].work.AtBarrier?
    requires s.workers[d].id < cfg.n
    ensures s.bar.cpus[c].passed == 1 ==> s.counters[s.workers[d].id] == cfg.full
    ensures s.bar.cpus[c].passed == 3 ==> s.counters[s.workers[d].id] <= cfg.half
  {
    hide Barrier.Inv, IdsOk, SumsOk;
    EverybodyArrived(cfg, s, c, d);
    EverybodyArrived(cfg, s, d, c);
    assert Placed(cfg, s.workers[d], s.bar.cpus[d]);
  }

  /**
   * The phases of the counters. Past the first barrier, and until it comes to the second, a CPU finds every counter full; past the
   * third, and until it comes to the fourth, it finds every counter reset and not beyond half.
   */
  lemma CountersBetweenBarriers(cfg: Config, schedule: seq<nat>, c: nat, k: nat)
    requires cfg.Valid() && Schedule(cfg, schedule) && c < cfg.n && k < cfg.n && !Exec(cfg, schedule).workers[c].work.AtBarrier?
    ensures var s := Exec(cfg, schedule);
            && (s.bar.cpus[c].passed == 1 ==> s.counters[k] == cfg.full)
            && (s.bar.cpus[c].passed == 3 ==> s.counters[k] <= cfg.half)
  {
    ExecInv(cfg, schedule);
    hide Exec, Inv;
    if Exec(cfg, schedule).bar.cpus[c].passed == 1 || Exec(cfg, schedule).bar.cpus[c].passed == 3 {
      var d := OwnerAfterFirst(cfg, Exec(cfg, schedule), c, k);
      CounterInPhase(cfg, Exec(cfg, schedule), c, d);
    }
  }

  lemma ConstantsOf(n: nat)
    ensures Kernel(n).n == n && Kernel(n).target == 10_000_000 && Kernel(n).half == 500_000 && Kernel(n).full == 1_000_000
  {
  }

  lemma DonePassedAll(cfg: Config, s: State, c: nat)
    requires Inv(cfg, s) && c < cfg.n
    ensures s.workers[c].work.Done? ==> s.bar.cpus[c].passed == 4
  {
    assert Placed(cfg, s.workers[c], s.bar.cpus[c]);
  }

  /** With the kernel's constants: a million after the first barrier, at most half a million between the last two, then up to a million again. */
  lemma KernelCounters(n: nat, schedule: seq<nat>, c: nat, k: nat)
    requires n > 0 && Schedule(Kernel(n), schedule) && c < n && k < n
    ensures var s := Exec(Kernel(n), schedule);
            && (s.bar.cpus[c].passed == 1 && !s.workers[c].work.AtBarrier? ==> s.counters[k] == 1_000_000)
            && (s.bar.cpus[c].passed == 3 && !s.workers[c].work.AtBarrier? ==> s.counters[k] <= 500_000)
            && (s.bar.cpus[c].passed == 4 ==> 500_000 <= s.counters[k] <= 1_000_000)
            && (s.workers[c].work.Done? && s.workers[c].id == k ==> s.counters[k] == 1_000_000)
  {
    var cfg := Kernel(n);
    hide Kernel, LocalSum;
    ConstantsOf(n);
    ExecInv(cfg, schedule);
    var s := Exec(cfg, schedule);
    DonePassedAll(cfg, s, c);
    hide Exec, Inv;
    if !s.workers[c].work.AtBarrier? {
      CountersBetweenBarriers(cfg, schedule, c, k);
    }
    if s.bar.cpus[c].passed == 4 {
      var d := OwnerAfterFirst(cfg, s, c, k);
      CountersAfterLastBarrier(cfg, schedule, c, d);
      CountersAfterLastBarrier(cfg, schedule, c, c);
    }
  }
}
