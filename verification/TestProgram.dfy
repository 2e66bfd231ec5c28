/**
 * The parallel test program of the BSP and the APs: draw an id, count, meet at the barrier, sum, meet, reset,
 * meet, count half way, meet, count the rest. One step is one access to shared memory.
 */
module TestProgram {
  import opened Sums
  import Barrier

  /** CPUs, SUM_TARGET, and how far the counters go before and after the last barrier. */
  datatype Config = Config(n: nat, target: nat, half: nat, full: nat) {
    predicate Valid() {
      n > 0 && half <= full
    }
  }

  /** The constants of the program. */
  function Kernel(n: nat): Config {
    Config(n, 10_000_000, 500_000, 1_000_000)
  }

  datatype Work =
    | Draw
    | Load(i: nat)
    | Store(i: nat, seen: nat)
    | Publish
    | AddTotal
    | Reset
    | AtBarrier
    | Done

  /** `id` is meaningful once it has been drawn. */
  datatype Worker = Worker(work: Work, id: nat)

  datatype State = State(
    bar: Barrier.State,
    workers: seq<Worker>,
    online: nat,
    counters: seq<nat>,
    partial: seq<nat>,
    total: nat)

  /** CPU 0 is the BSP, with id 0; the others still have to draw theirs from cpus_online, which is 1. */
  function Start(cfg: Config): State {
    State(Barrier.Start(cfg.n), seq(cfg.n, c => Worker(if c == 0 then Load(0) else Draw, 0)), 1,
          seq(cfg.n, _ => 0), seq(cfg.n, _ => 0), 0)
  }

  /** Where a CPU goes on after its g-th barrier. */
  function WorkAfter(cfg: Config, g: nat): Work {
    match g
    case 1 => Publish
    case 2 => Reset
    case 3 => Load(0)
    case _ => Load(cfg.half)
  }

  /** Where the counting loop of the stage after g barriers ends. */
  function Limit(cfg: Config, g: nat): nat {
    if g == 3 then cfg.half else cfg.full
  }

  function Put(a: seq<nat>, i: nat, v: nat): (a': seq<nat>)
    ensures |a'| == |a|
  {
    if i < |a| then a[i := v] else a
  }

  function Get(a: seq<nat>, i: nat): nat {
    if i < |a| then a[i] else 0
  }

  predicate Shaped(cfg: Config, s: State) {
    |s.bar.cpus| == cfg.n && |s.workers| == cfg.n && |s.counters| == cfg.n && |s.partial| == cfg.n
  }

  ghost function Step(cfg: Config, s: State, c: nat): (s': State)
    requires cfg.Valid() && Shaped(cfg, s) && c < cfg.n
    ensures Shaped(cfg, s')
  {
    var w := s.workers[c];
    var g := s.bar.cpus[c].passed;
    match w.work
    case Draw => s.(online := s.online + 1, workers := s.workers[c := Worker(Load(0), s.online)])
    case Load(i) =>
      var next := if i < Limit(cfg, g) then Store(i, Get(s.counters, w.id)) else if g == 4 then Done else AtBarrier;
      s.(workers := s.workers[c := w.(work := next)])
    case Store(i, seen) =>
      s.(counters := Put(s.counters, w.id, seen + 1), workers := s.workers[c := w.(work := Load(i + 1))])
    case Publish =>
      s.(partial := Put(s.partial, w.id, LocalSum(cfg.target, cfg.n, w.id)), workers := s.workers[c := w.(work := AddTotal)])
    case AddTotal =>
      s.(total := s.total + LocalSum(cfg.target, cfg.n, w.id), workers := s.workers[c := w.(work := AtBarrier)])
    case Reset => s.(counters := Put(s.counters, w.id, 0), workers := s.workers[c := w.(work := AtBarrier)])
    case AtBarrier =>
      var bar := Barrier.Step(s.bar, c);
      s.(bar := bar, workers := s.workers[c := w.(work := if bar.cpus[c].passed > g then WorkAfter(cfg, g + 1) else AtBarrier)])
    case Done => s
  }

  predicate Schedule(cfg: Config, schedule: seq<nat>) {
    forall k :: 0 <= k < |schedule| ==> schedule[k] < cfg.n
  }

  /** The state a schedule reaches: any interleaving of the CPUs. */
  ghost function Exec(cfg: Config, schedule: seq<nat>): (s: State)
    requires cfg.Valid() && Schedule(cfg, schedule)
    ensures Shaped(cfg, s)
  {
    if schedule == [] then Start(cfg)
    else Step(cfg, Exec(cfg, schedule[..|schedule| - 1]), schedule[|schedule| - 1])
  }
}
