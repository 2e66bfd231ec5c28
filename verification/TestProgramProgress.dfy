/** The test program never deadlocks, always finishes, and what its unfinished last phase allows. */
module TestProgramProgress {
  import opened TestProgram
  import opened TestProgramProofs
  import opened TestProgramTheorems
  import opened Sums
  import Barrier

  // ---------------------------------------------------------------------------------------------
  // A measure of the remaining work
  // ---------------------------------------------------------------------------------------------

  /** More than any CPU does between two barriers. */
  function Stage(cfg: Config): nat {
    2 * cfg.full + 16
  }

  function StagesLeft(cfg: Config, g: nat): nat
    decreases 4 - g
  {
    if g >= 4 then 0 else StagesLeft(cfg, g + 1) + Stage(cfg)
  }

  /** Steps left in the current stage. */
  function StepsLeft(cfg: Config, w: Worker, cpu: Barrier.Cpu): nat {
    match w.work
    case Draw => 2 * cfg.full + 9
    case Load(i) => if i <= Limit(cfg, cpu.passed) then 2 * (Limit(cfg, cpu.passed) - i) + 8 else 0
    case Store(i, _) => if i <= Limit(cfg, cpu.passed) then 2 * (Limit(cfg, cpu.passed) - i) + 7 else 0
    case Publish => 8
    case AddTotal => 7
    case Reset => 7
    case AtBarrier => (match cpu.pc
                       case Outside => 6
                       case Sensed(_) => 5
                       case Last(_) => 4
                       case Cleared(_) => 3
                       case Waiting(_) => 2)
    case Done => 0
  }

  function Rank(cfg: Config, w: Worker, cpu: Barrier.Cpu): nat {
    StagesLeft(cfg, cpu.passed) + StepsLeft(cfg, w, cpu)
  }

  ghost function Measure(cfg: Config, s: State, k: nat): nat
    requires Shaped(cfg, s) && k <= cfg.n
  {
    if k == 0 then 0 else Measure(cfg, s, k - 1) + Rank(cfg, s.workers[k - 1], s.bar.cpus[k - 1])
  }

  lemma CountingStepLowersRank(cfg: Config, s: State, c: nat)
    requires Inv(cfg, s) && c < cfg.n && (s.workers[c].work.Load? || s.workers[c].work.Store?)
    ensures var s' := Step(cfg, s, c);
            Rank(cfg, s'.workers[c], s'.bar.cpus[c]) < Rank(cfg, s.workers[c], s.bar.cpus[c])
  {
    hide Barrier.Inv, CountersOk, SumsOk, IdsOk, StagesLeft, Limit;
    assert Placed(cfg, s.workers[c], s.bar.cpus[c]);
  }

  lemma StuckStepIsVoid(cfg: Config, s: State, c: nat)
    requires cfg.Valid() && Shaped(cfg, s) && c < cfg.n && s.workers[c].work.AtBarrier? && Barrier.Stuck(s.bar, s.bar.cpus[c])
    ensures Step(cfg, s, c) == s
  {
    assert s.workers[c := s.workers[c]] == s.workers;
  }

  lemma BarrierStepLowersRank(cfg: Config, s: State, c: nat)
    requires Inv(cfg, s) && c < cfg.n && Step(cfg, s, c) != s && s.workers[c].work.AtBarrier?
    ensures var s' := Step(cfg, s, c);
            Rank(cfg, s'.workers[c], s'.bar.cpus[c]) < Rank(cfg, s.workers[c], s.bar.cpus[c])
  {
    hide Barrier.Inv, CountersOk, SumsOk, IdsOk;
    assert Placed(cfg, s.workers[c], s.bar.cpus[c]);
    if s.bar.cpus[c].pc.Waiting? && s.bar.cpus[c].pc.sense == s.bar.sense {
      StuckStepIsVoid(cfg, s, c);
    }
  }

  /** A step that has an effect lowers the rank of the CPU that takes it. */
  lemma StepLowersRank(cfg: Config, s: State, c: nat)
    requires Inv(cfg, s) && c < cfg.n && Step(cfg, s, c) != s
    ensures var s' := Step(cfg, s, c);
            Rank(cfg, s'.workers[c], s'.bar.cpus[c]) < Rank(cfg, s.workers[c], s.bar.cpus[c])
  {
    hide Barrier.Inv, CountersOk, SumsOk, IdsOk;
    if s.workers[c].work.AtBarrier? {
      BarrierStepLowersRank(cfg, s, c);
    } else if s.workers[c].work.Load? || s.workers[c].work.Store? {
      CountingStepLowersRank(cfg, s, c);
    } else {
      hide StagesLeft, Limit, LocalSum;
      assert Placed(cfg, s.workers[c], s.bar.cpus[c]);
    }
  }

  lemma StepOthersStay(cfg: Config, s: State, c: nat, d: nat)
    requires cfg.Valid() && Shaped(cfg, s) && c < cfg.n && d < cfg.n && d != c
    ensures Step(cfg, s, c).workers[d] == s.workers[d] && Step(cfg, s, c).bar.cpus[d] == s.bar.cpus[d]
  {
  }

  lemma {:induction false} MeasureDrops(cfg: Config, s: State, c: nat, k: nat)
    requires Inv(cfg, s) && c < cfg.n && k <= cfg.n && Step(cfg, s, c) != s
    ensures Measure(cfg, Step(cfg, s, c), k) <= Measure(cfg, s, k)
    ensures c < k ==> Measure(cfg, Step(cfg, s, c), k) < Measure(cfg, s, k)
  {
    hide Barrier.Inv, CountersOk, SumsOk, IdsOk, Placed, Step, Rank;
    if k == 0 {
    } else {
      MeasureDrops(cfg, s, c, k - 1);
      if c == k - 1 {
        StepLowersRank(cfg, s, c);
      } else {
        StepOthersStay(cfg, s, c, k - 1);
      }
    }
  }

  /** How many steps of a schedule had an effect: everything but spinning and halting. */
  ghost function Effective(cfg: Config, schedule: seq<nat>): nat
    requires cfg.Valid() && Schedule(cfg, schedule)
  {
    if schedule == [] then 0 else
    var before := Exec(cfg, schedule[..|schedule| - 1]);
    Effective(cfg, schedule[..|schedule| - 1]) + (if Step(cfg, before, schedule[|schedule| - 1]) == before then 0 else 1)
  }

  /** However the CPUs are interleaved, the steps with an effect are bounded by the work at the start. */
  lemma {:induction false} EffectiveStepsAreBounded(cfg: Config, schedule: seq<nat>)
    requires cfg.Valid() && Schedule(cfg, schedule)
    ensures Effective(cfg, schedule) + Measure(cfg, Exec(cfg, schedule), cfg.n) <= Measure(cfg, Start(cfg), cfg.n)
  {
    hide Inv, Step, Measure;
    if schedule == [] {
    } else {
      var before := schedule[..|schedule| - 1];
      EffectiveStepsAreBounded(cfg, before);
      ExecInv(cfg, before);
      var c := schedule[|schedule| - 1];
      if Step(cfg, Exec(cfg, before), c) != Exec(cfg, before) {
        MeasureDrops(cfg, Exec(cfg, before), c, cfg.n);
      }
    }
  }

  // ---------------------------------------------------------------------------------------------
  // No deadlock
  // ---------------------------------------------------------------------------------------------

  /** A CPU that is neither stuck at the barrier nor done has an effective step. */
  lemma UnfinishedMoves(cfg: Config, s: State, d: nat)
    requires Inv(cfg, s) && d < cfg.n && !s.workers[d].work.Done? && !Barrier.Stuck(s.bar, s.bar.cpus[d])
    ensures Step(cfg, s, d) != s
  {
    hide Barrier.Inv, CountersOk, SumsOk, IdsOk;
    var s' := Step(cfg, s, d);
    if s.workers[d].work.AtBarrier? {
      assert s'.bar.cpus[d] != s.bar.cpus[d];
    } else {
      assert s'.workers[d] != s.workers[d];
    }
  }

  lemma StuckIsThisGeneration(cfg: Config, s: State, c: nat, e: nat)
    requires Inv(cfg, s) && c < cfg.n && e < cfg.n && Barrier.Stuck(s.bar, s.bar.cpus[c])
    ensures !s.workers[e].work.Done?
  {
    hide CountersOk, SumsOk, IdsOk, Barrier.Step, Barrier.CountOk, Barrier.OneClosing;
    assert Placed(cfg, s.workers[c], s.bar.cpus[c]) && Placed(cfg, s.workers[e], s.bar.cpus[e]);
    assert Barrier.CpuOk(s.bar, s.bar.cpus[c]) && Barrier.CpuOk(s.bar, s.bar.cpus[e]);
  }

  /** In every reachable state where some CPU is not done, some CPU can take a step that has an effect. */
  lemma SomebodyCanMove(cfg: Config, s: State, c: nat) returns (d: nat)
    requires Inv(cfg, s) && c < cfg.n && !s.workers[c].work.Done?
    ensures d < cfg.n && Step(cfg, s, d) != s
  {
    hide CountersOk, SumsOk, IdsOk, Barrier.Step, Barrier.CountOk, Barrier.OneClosing;
    Barrier.NotAllStuck(s.bar);
    var e: nat :| e < cfg.n && !Barrier.Stuck(s.bar, s.bar.cpus[e]);
    assert Placed(cfg, s.workers[c], s.bar.cpus[c]) && Placed(cfg, s.workers[e], s.bar.cpus[e]);
    if Barrier.Stuck(s.bar, s.bar.cpus[c]) {
      StuckIsThisGeneration(cfg, s, c, e);
      d := e;
    } else {
      d := c;
    }
    UnfinishedMoves(cfg, s, d);
  }

  lemma ExecAppend(cfg: Config, schedule: seq<nat>, c: nat)
    requires cfg.Valid() && Schedule(cfg, schedule) && c < cfg.n
    ensures Schedule(cfg, schedule + [c])
    ensures Exec(cfg, schedule + [c]) == Step(cfg, Exec(cfg, schedule), c)
  {
    hide Step;
    assert (schedule + [c])[..|schedule + [c]| - 1] == schedule;
  }

  /** Every run can be continued until every CPU is done. */
  lemma {:induction false} EveryRunCanFinish(cfg: Config, schedule: seq<nat>) returns (rest: seq<nat>)
    requires cfg.Valid() && Schedule(cfg, schedule)
    ensures Schedule(cfg, schedule + rest)
    ensures forall c :: 0 <= c < cfg.n ==> Exec(cfg, schedule + rest).workers[c].work.Done?
    decreases Measure(cfg, Exec(cfg, schedule), cfg.n)
  {
    hide Inv, Step, Measure;
    var s := Exec(cfg, schedule);
    ExecInv(cfg, schedule);
    if c :| 0 <= c < cfg.n && !s.workers[c].work.Done? {
      var d := SomebodyCanMove(cfg, s, c);
      MeasureDrops(cfg, s, d, cfg.n);
      ExecAppend(cfg, schedule, d);
      rest := EveryRunCanFinish(cfg, schedule + [d]);
      rest := [d] + rest;
      assert schedule + rest == schedule + [d] + rest[1..];
    } else {
      rest := [];
      assert schedule + rest == schedule;
    }
  }

  // ---------------------------------------------------------------------------------------------
  // Fair runs finish
  // ---------------------------------------------------------------------------------------------

  /** In every block of the schedule every CPU takes a step, in any order and any number of times. */
  ghost predicate Fair(cfg: Config, blocks: seq<seq<nat>>) {
    forall b :: 0 <= b < |blocks| ==> Schedule(cfg, blocks[b]) && forall c: nat :: c < cfg.n ==> c in blocks[b]
  }

  ghost function Flatten(blocks: seq<seq<nat>>): seq<nat> {
    if blocks == [] then [] else Flatten(blocks[..|blocks| - 1]) + blocks[|blocks| - 1]
  }

  ghost predicate AllDone(cfg: Config, s: State)
    requires Shaped(cfg, s)
  {
    forall c :: 0 <= c < cfg.n ==> s.workers[c].work.Done?
  }

  lemma {:induction false} FlattenIsSchedule(cfg: Config, blocks: seq<seq<nat>>)
    requires Fair(cfg, blocks)
    ensures Schedule(cfg, Flatten(blocks))
  {
    if blocks == [] {
    } else {
      FlattenIsSchedule(cfg, blocks[..|blocks| - 1]);
    }
  }

  lemma DoneSteps(cfg: Config, s: State, c: nat)
    requires cfg.Valid() && Shaped(cfg, s) && c < cfg.n
    ensures AllDone(cfg, s) ==> AllDone(cfg, Step(cfg, s, c))
  {
  }

  /** A block in which everybody steps has an effective step, unless all are done already; done stays done. */
  lemma {:induction false} BlockIsEffective(cfg: Config, schedule: seq<nat>, block: seq<nat>)
    requires cfg.Valid() && Schedule(cfg, schedule) && Schedule(cfg, block)
    ensures Schedule(cfg, schedule + block)
    ensures Effective(cfg, schedule + block) >= Effective(cfg, schedule)
    ensures AllDone(cfg, Exec(cfg, schedule)) ==> AllDone(cfg, Exec(cfg, schedule + block))
    ensures Effective(cfg, schedule + block) == Effective(cfg, schedule) ==>
              Exec(cfg, schedule + block) == Exec(cfg, schedule)
              && forall c :: c in block ==> Step(cfg, Exec(cfg, schedule), c) == Exec(cfg, schedule)
  {
    hide Step, Inv;
    if block == [] {
      assert schedule + block == schedule;
    } else {
      var n := |block| - 1;
      BlockIsEffective(cfg, schedule, block[..n]);
      var sofar := schedule + block[..n];
      assert (schedule + block)[..|schedule + block| - 1] == sofar;
      assert block == block[..n] + [block[n]];
      DoneSteps(cfg, Exec(cfg, sofar), block[n]);
    }
  }

  /** Somebody in a full block can move. */
  lemma SomebodySteps(cfg: Config, s: State, block: seq<nat>)
    requires Inv(cfg, s) && forall c: nat :: c < cfg.n ==> c in block
    ensures AllDone(cfg, s) || exists d: nat :: d < cfg.n && d in block && Step(cfg, s, d) != s
  {
    assert Shaped(cfg, s);
    hide Inv, Step;
    if !AllDone(cfg, s) {
      var c: nat :| c < cfg.n && !s.workers[c].work.Done?;
      var d := SomebodyCanMove(cfg, s, c);
      assert d in block;
    }
  }

  lemma {:induction false} FairBlocksCount(cfg: Config, blocks: seq<seq<nat>>)
    requires cfg.Valid() && Fair(cfg, blocks)
    ensures Schedule(cfg, Flatten(blocks))
    ensures AllDone(cfg, Exec(cfg, Flatten(blocks))) || Effective(cfg, Flatten(blocks)) >= |blocks|
  {
    hide Step, Inv, Exec, Effective, AllDone;
    FlattenIsSchedule(cfg, blocks);
    if blocks == [] {
    } else {
      var before, block := blocks[..|blocks| - 1], blocks[|blocks| - 1];
      FairBlocksCount(cfg, before);
      BlockIsEffective(cfg, Flatten(before), block);
      ExecInv(cfg, Flatten(before));
      SomebodySteps(cfg, Exec(cfg, Flatten(before)), block);
    }
  }

  /**
   * Every fair run finishes, and within a bound: once each CPU has had more turns than there is work at the start,
   * however the turns interleave, every CPU is done.
   */
  lemma FairRunsFinish(cfg: Config, blocks: seq<seq<nat>>)
    requires cfg.Valid() && Fair(cfg, blocks) && |blocks| > Measure(cfg, Start(cfg), cfg.n)
    ensures Schedule(cfg, Flatten(blocks)) && AllDone(cfg, Exec(cfg, Flatten(blocks)))
  {
    hide Exec, Effective, Measure, AllDone;
    FairBlocksCount(cfg, blocks);
    EffectiveStepsAreBounded(cfg, Flatten(blocks));
  }

  // ---------------------------------------------------------------------------------------------
  // The BSP's display is not ordered after the other CPUs' last phase
  // ---------------------------------------------------------------------------------------------

  /** CPU 1 has not counted past half way in its last phase. */
  predicate HeldBack(cfg: Config, s: State)
    requires Shaped(cfg, s) && cfg.n > 1
  {
    s.bar.cpus[1].passed < 4 || s.workers[1].work == Load(cfg.half)
  }

  lemma StepKeepsOneBack(cfg: Config, s: State, d: nat)
    requires Inv(cfg, s) && cfg.n > 1 && d < cfg.n && s.bar.cpus[1].passed < 4
    ensures HeldBack(cfg, Step(cfg, s, d))
  {
    hide Barrier.Inv, CountersOk, SumsOk, IdsOk;
    if d != 1 {
      StepOthersStay(cfg, s, d, 1);
    } else {
      BarrierStep(s.bar, 1);
    }
  }

  /** While the BSP is not done some CPU can move without CPU 1 counting on. */
  lemma MoveWithoutOne(cfg: Config, s: State) returns (d: nat)
    requires Inv(cfg, s) && cfg.n > 1 && HeldBack(cfg, s) && !s.workers[0].work.Done?
    ensures d < cfg.n && Step(cfg, s, d) != s && HeldBack(cfg, Step(cfg, s, d))
  {
    if s.bar.cpus[1].passed < 4 {
      d := SomebodyCanMove(cfg, s, 0);
      StepKeepsOneBack(cfg, s, d);
    } else {
      hide CountersOk, SumsOk, IdsOk, Barrier.Step, Barrier.CountOk, Barrier.OneClosing;
      assert Placed(cfg, s.workers[0], s.bar.cpus[0]) && Placed(cfg, s.workers[1], s.bar.cpus[1]);
      assert Barrier.CpuOk(s.bar, s.bar.cpus[0]) && Barrier.CpuOk(s.bar, s.bar.cpus[1]);
      d := 0;
      UnfinishedMoves(cfg, s, 0);
      StepOthersStay(cfg, s, 0, 1);
    }
  }

  lemma {:induction false} BspFinishesFirst(cfg: Config, schedule: seq<nat>) returns (full: seq<nat>)
    requires cfg.Valid() && cfg.n > 1 && Schedule(cfg, schedule) && HeldBack(cfg, Exec(cfg, schedule))
    ensures Schedule(cfg, full) && HeldBack(cfg, Exec(cfg, full)) && Exec(cfg, full).workers[0].work.Done?
    decreases Measure(cfg, Exec(cfg, schedule), cfg.n)
  {
    hide Inv, Step, Measure;
    var s := Exec(cfg, schedule);
    ExecInv(cfg, schedule);
    if s.workers[0].work.Done? {
      full := schedule;
    } else {
      var d := MoveWithoutOne(cfg, s);
      MeasureDrops(cfg, s, d, cfg.n);
      ExecAppend(cfg, schedule, d);
      full := BspFinishesFirst(cfg, schedule + [d]);
    }
  }

  /** With two CPUs or more there is an interleaving in which the BSP is done and displays a counter that is only half way. */
  lemma DisplayMayShowHalf(cfg: Config) returns (schedule: seq<nat>, k: nat)
    requires cfg.Valid() && cfg.n > 1
    ensures Schedule(cfg, schedule) && Exec(cfg, schedule).workers[0].work.Done?
    ensures k < cfg.n && Exec(cfg, schedule).counters[k] == cfg.half
  {
    schedule := BspFinishesFirst(cfg, []);
    var s := Exec(cfg, schedule);
    ExecInv(cfg, schedule);
    hide Exec, Barrier.Inv, SumsOk, Step;
    assert Placed(cfg, s.workers[0], s.bar.cpus[0]) && Placed(cfg, s.workers[1], s.bar.cpus[1]);
    EverybodyArrived(cfg, s, 0, 1);
    DrawnBelow(cfg, s, 1);
    k := s.workers[1].id;
  }
}
