/**
 * The sense-reversing barrier as a machine of atomic, sequentially consistent steps. Each CPU is deterministic,
 * so a run is a schedule: which CPU takes the next step.
 */
module Barrier {

  /** Where a CPU is in barrier_wait; `sense` is its my_sense. */
  datatype Pc =
    | Outside
    | Sensed(sense: nat)
    | Last(sense: nat)
    | Cleared(sense: nat)
    | Waiting(sense: nat)

  /** A CPU, with the number of barriers it has left. */
  datatype Cpu = Cpu(pc: Pc, passed: nat)

  /** barrier_count, barrier_sense and the CPUs; `flips` counts the stores that flip the sense. */
  datatype State = State(count: nat, sense: nat, flips: nat, cpus: seq<Cpu>)

  /** !my_sense */
  function Not(sense: nat): nat {
    if sense == 0 then 1 else 0
  }

  function Start(n: nat): State {
    State(0, 0, 0, seq(n, _ => Cpu(Outside, 0)))
  }

  /**
   * The next step of CPU c: load the sense; add one to the count and compare with the number of CPUs; the last
   * arrival stores 0 to the count, then the flipped sense; the others load the sense until it differs.
   */
  function Step(s: State, c: nat): (s': State)
    requires c < |s.cpus|
    ensures |s'.cpus| == |s.cpus|
  {
    var cpu := s.cpus[c];
    match cpu.pc
    case Outside => s.(cpus := s.cpus[c := cpu.(pc := Sensed(s.sense))])
    case Sensed(mine) =>
      var arrived := s.count + 1;
      s.(count := arrived, cpus := s.cpus[c := cpu.(pc := if arrived == |s.cpus| then Last(mine) else Waiting(mine))])
    case Last(mine) => s.(count := 0, cpus := s.cpus[c := cpu.(pc := Cleared(mine))])
    case Cleared(mine) =>
      s.(sense := Not(mine), flips := s.flips + 1, cpus := s.cpus[c := Cpu(Outside, cpu.passed + 1)])
    case Waiting(mine) => if s.sense == mine then s else s.(cpus := s.cpus[c := Cpu(Outside, cpu.passed + 1)])
  }

  /** CPUs that have added themselves to the count. */
  predicate Arrived(cpu: Cpu) {
    cpu.pc.Last? || cpu.pc.Cleared? || cpu.pc.Waiting?
  }

  /** Barriers a CPU has arrived at. */
  function Arrivals(cpu: Cpu): nat {
    cpu.passed + (if Arrived(cpu) then 1 else 0)
  }

  /** CPUs counted in the current generation: arrived, and not yet released. */
  predicate Counted(cpu: Cpu, flips: nat) {
    Arrived(cpu) && cpu.passed == flips
  }

  ghost function CountOf(cpus: seq<Cpu>, flips: nat): (k: nat)
    ensures k <= |cpus|
  {
    if cpus == [] then 0 else CountOf(cpus[..|cpus| - 1], flips) + (if Counted(cpus[|cpus| - 1], flips) then 1 else 0)
  }

  /** What each CPU's place says about its generation and the sense it read. */
  ghost predicate CpuOk(s: State, cpu: Cpu) {
    match cpu.pc
    case Outside => cpu.passed == s.flips
    case Sensed(mine) => cpu.passed == s.flips && mine == s.sense
    case Last(mine) => cpu.passed == s.flips && mine == s.sense
    case Cleared(mine) => cpu.passed == s.flips && mine == s.sense
    case Waiting(mine) => (cpu.passed == s.flips && mine == s.sense) || (cpu.passed + 1 == s.flips && mine == Not(s.sense))
  }

  /** The last arrival of a generation; it is alone. */
  predicate Closing(cpu: Cpu) {
    cpu.pc.Last? || cpu.pc.Cleared?
  }

  ghost predicate SomeClosing(cpus: seq<Cpu>) {
    exists c :: 0 <= c < |cpus| && Closing(cpus[c])
  }

  ghost predicate SomeCleared(cpus: seq<Cpu>) {
    exists c :: 0 <= c < |cpus| && cpus[c].pc.Cleared?
  }

  ghost predicate OneClosing(cpus: seq<Cpu>) {
    forall c, d :: 0 <= c < |cpus| && 0 <= d < |cpus| && Closing(cpus[c]) && Closing(cpus[d]) ==> c == d
  }

  /** The count is the number of CPUs arrived in this generation, until the last one of them clears it. */
  ghost predicate CountOk(s: State) {
    if SomeClosing(s.cpus)
    then CountOf(s.cpus, s.flips) == |s.cpus| && s.count == (if SomeCleared(s.cpus) then 0 else |s.cpus|)
    else s.count == CountOf(s.cpus, s.flips) < |s.cpus|
  }

  ghost predicate Inv(s: State) {
    && s.sense == s.flips % 2
    && (forall c :: 0 <= c < |s.cpus| ==> CpuOk(s, s.cpus[c]))
    && OneClosing(s.cpus)
    && CountOk(s)
  }

  lemma {:induction false} CountUpdate(cpus: seq<Cpu>, flips: nat, c: nat, cpu: Cpu)
    requires c < |cpus|
    ensures CountOf(cpus[c := cpu], flips) ==
            CountOf(cpus, flips) - (if Counted(cpus[c], flips) then 1 else 0) + (if Counted(cpu, flips) then 1 else 0)
  {
    var n := |cpus| - 1;
    if c == n {
      assert cpus[c := cpu][..n] == cpus[..n];
    } else {
      assert cpus[c := cpu][..n] == cpus[..n][c := cpu];
      CountUpdate(cpus[..n], flips, c, cpu);
    }
  }

  lemma {:induction false} FullCount(cpus: seq<Cpu>, flips: nat)
    ensures CountOf(cpus, flips) == |cpus| <==> forall c :: 0 <= c < |cpus| ==> Counted(cpus[c], flips)
  {
    if cpus == [] {
    } else {
      FullCount(cpus[..|cpus| - 1], flips);
    }
  }

  lemma {:induction false} EmptyCount(cpus: seq<Cpu>, flips: nat)
    requires forall c :: 0 <= c < |cpus| ==> !Counted(cpus[c], flips)
    ensures CountOf(cpus, flips) == 0
  {
    if cpus == [] {
    } else {
      EmptyCount(cpus[..|cpus| - 1], flips);
    }
  }

  lemma StartInv(n: nat)
    requires n > 0
    ensures Inv(Start(n))
  {
    EmptyCount(Start(n).cpus, 0);
  }

  /** A step between places that are not closing leaves who is closing alone. */
  lemma SameClosing(s: State, c: nat)
    requires c < |s.cpus| && !Closing(s.cpus[c]) && !Closing(Step(s, c).cpus[c])
    ensures SomeClosing(Step(s, c).cpus) == SomeClosing(s.cpus)
    ensures SomeCleared(Step(s, c).cpus) == SomeCleared(s.cpus)
    ensures OneClosing(s.cpus) ==> OneClosing(Step(s, c).cpus)
  {
    var s' := Step(s, c);
    assert forall d :: 0 <= d < |s.cpus| && d != c ==> s'.cpus[d] == s.cpus[d];
    if SomeClosing(s.cpus) {
      var d :| 0 <= d < |s.cpus| && Closing(s.cpus[d]);
      assert Closing(s'.cpus[d]);
    }
    if SomeCleared(s.cpus) {
      var d :| 0 <= d < |s.cpus| && s.cpus[d].pc.Cleared?;
      assert s'.cpus[d].pc.Cleared?;
    }
  }

  lemma EnterKeepsInv(s: State, c: nat)
    requires Inv(s) && c < |s.cpus| && s.cpus[c].pc.Outside?
    ensures Inv(Step(s, c))
  {
    CountUpdate(s.cpus, s.flips, c, Step(s, c).cpus[c]);
    SameClosing(s, c);
  }

  lemma ArriveKeepsInv(s: State, c: nat)
    requires Inv(s) && c < |s.cpus| && s.cpus[c].pc.Sensed?
    ensures Inv(Step(s, c))
  {
    var s' := Step(s, c);
    CountUpdate(s.cpus, s.flips, c, s'.cpus[c]);
    FullCount(s.cpus, s.flips);
    assert !Counted(s.cpus[c], s.flips);
    if s.count + 1 == |s.cpus| {
      assert Closing(s'.cpus[c]);
      assert !SomeCleared(s'.cpus);
    } else {
      SameClosing(s, c);
    }
  }

  lemma ClearKeepsInv(s: State, c: nat)
    requires Inv(s) && c < |s.cpus| && s.cpus[c].pc.Last?
    ensures Inv(Step(s, c))
  {
    var s' := Step(s, c);
    CountUpdate(s.cpus, s.flips, c, s'.cpus[c]);
    assert Closing(s.cpus[c]);
    assert Closing(s'.cpus[c]) && s'.cpus[c].pc.Cleared?;
  }

  lemma FlipKeepsInv(s: State, c: nat)
    requires Inv(s) && c < |s.cpus| && s.cpus[c].pc.Cleared?
    ensures Inv(Step(s, c))
  {
    var s' := Step(s, c);
    assert Closing(s.cpus[c]);
    FullCount(s.cpus, s.flips);
    forall d | 0 <= d < |s.cpus|
      ensures CpuOk(s', s'.cpus[d]) && !Counted(s'.cpus[d], s'.flips) && !Closing(s'.cpus[d])
    {
      assert Counted(s.cpus[d], s.flips) && CpuOk(s, s.cpus[d]);
    }
    EmptyCount(s'.cpus, s'.flips);
  }

  lemma LeaveKeepsInv(s: State, c: nat)
    requires Inv(s) && c < |s.cpus| && s.cpus[c].pc.Waiting?
    ensures Inv(Step(s, c))
  {
    assert CpuOk(s, s.cpus[c]);
    CountUpdate(s.cpus, s.flips, c, Step(s, c).cpus[c]);
    SameClosing(s, c);
  }

  /** Every step of every CPU keeps the invariant. */
  lemma StepKeepsInv(s: State, c: nat)
    requires Inv(s) && c < |s.cpus|
    ensures Inv(Step(s, c))
  {
    match s.cpus[c].pc
    case Outside => EnterKeepsInv(s, c);
    case Sensed(_) => ArriveKeepsInv(s, c);
    case Last(_) => ClearKeepsInv(s, c);
    case Cleared(_) => FlipKeepsInv(s, c);
    case Waiting(_) => LeaveKeepsInv(s, c);
  }

  /** The state a schedule reaches. */
  ghost function Exec(n: nat, schedule: seq<nat>): (s: State)
    requires forall k :: 0 <= k < |schedule| ==> schedule[k] < n
    ensures |s.cpus| == n
  {
    if schedule == [] then Start(n) else Step(Exec(n, schedule[..|schedule| - 1]), schedule[|schedule| - 1])
  }

  lemma {:induction false} ExecInv(n: nat, schedule: seq<nat>)
    requires n > 0 && forall k :: 0 <= k < |schedule| ==> schedule[k] < n
    ensures Inv(Exec(n, schedule))
  {
    if schedule == [] {
      StartInv(n);
    } else {
      ExecInv(n, schedule[..|schedule| - 1]);
      StepKeepsInv(Exec(n, schedule[..|schedule| - 1]), schedule[|schedule| - 1]);
    }
  }

  lemma InvSeparates(s: State, c: nat, d: nat)
    requires Inv(s) && c < |s.cpus| && d < |s.cpus|
    ensures s.cpus[c].passed <= Arrivals(s.cpus[d]) && s.cpus[c].passed <= s.cpus[d].passed + 1
  {
    assert CpuOk(s, s.cpus[c]) && CpuOk(s, s.cpus[d]);
  }

  /**
   * Barrier safety, for any number of CPUs, generations and any schedule: whoever has left a barrier, everybody
   * has arrived at it, and no two CPUs are more than one barrier apart.
   */
  lemma BarrierSafety(n: nat, schedule: seq<nat>, c: nat, d: nat)
    requires c < n && d < n && forall k :: 0 <= k < |schedule| ==> schedule[k] < n
    ensures var s := Exec(n, schedule);
            && s.cpus[c].passed <= Arrivals(s.cpus[d])
            && s.cpus[c].passed <= s.cpus[d].passed + 1
  {
    ExecInv(n, schedule);
    InvSeparates(Exec(n, schedule), c, d);
  }

  /** A CPU outside sees the parity of its generation; when the sense flips the count is 0; the count fits its range. */
  lemma BarrierVariables(n: nat, schedule: seq<nat>, c: nat)
    requires c < n && forall k :: 0 <= k < |schedule| ==> schedule[k] < n
    ensures var s := Exec(n, schedule);
            && (s.cpus[c].pc.Outside? ==> s.sense == s.cpus[c].passed % 2)
            && (s.cpus[c].pc.Cleared? ==> s.count == 0 && s.sense == s.cpus[c].passed % 2)
            && s.count <= n
  {
    ExecInv(n, schedule);
    var s := Exec(n, schedule);
    assert CpuOk(s, s.cpus[c]);
    assert s.cpus[c].pc.Cleared? ==> Closing(s.cpus[c]);
  }

  /** A CPU that spins without effect. */
  predicate Stuck(s: State, cpu: Cpu) {
    cpu.pc.Waiting? && cpu.pc.sense == s.sense
  }

  /** Somebody in the barrier or outside it can always move: not everybody waits. */
  lemma NotAllStuck(s: State)
    requires Inv(s)
    ensures exists c :: 0 <= c < |s.cpus| && !Stuck(s, s.cpus[c])
  {
    if forall c :: 0 <= c < |s.cpus| ==> Stuck(s, s.cpus[c]) {
      forall c | 0 <= c < |s.cpus| ensures Counted(s.cpus[c], s.flips) {
        assert CpuOk(s, s.cpus[c]) && Stuck(s, s.cpus[c]);
      }
      FullCount(s.cpus, s.flips);
    }
  }
}
