/**
 * The older test-and-set spinlock guarding a shared sum that is read, added to and written back in separate
 * steps. A run is a schedule of the tasks' atomic steps.
 */
module Spinlock {

  /** Where a task is: before the test-and-set, spinning on the plain read, inside (its read value in hand), past the lock. */
  datatype Task =
    | TryLock
    | SpinRead
    | Inside
    | HasRead(seen: nat)
    | HasAdded(sum: nat)
    | HasStored
    | Unlocked
    | Finished

  datatype State = State(lock: nat, shared: nat, done: nat, tasks: seq<Task>)

  function Start(n: nat): State {
    State(0, 0, 0, seq(n, _ => TryLock))
  }

  /** The step of task c; `share` is the local result each task adds. */
  function Step(s: State, share: nat, c: nat): (s': State)
    requires c < |s.tasks|
    ensures |s'.tasks| == |s.tasks|
  {
    match s.tasks[c]
    case TryLock => s.(lock := 1, tasks := s.tasks[c := if s.lock == 0 then Inside else SpinRead])
    case SpinRead => s.(tasks := s.tasks[c := if s.lock == 0 then TryLock else SpinRead])
    case Inside => s.(tasks := s.tasks[c := HasRead(s.shared)])
    case HasRead(seen) => s.(tasks := s.tasks[c := HasAdded(seen + share)])
    case HasAdded(sum) => s.(shared := sum, tasks := s.tasks[c := HasStored])
    case HasStored => s.(lock := 0, tasks := s.tasks[c := Unlocked])
    case Unlocked => s.(done := s.done + 1, tasks := s.tasks[c := Finished])
    case Finished => s
  }

  /** Between taking the lock and releasing it. */
  predicate Holds(t: Task) {
    t.Inside? || t.HasRead? || t.HasAdded? || t.HasStored?
  }

  predicate Stored(t: Task) {
    t.HasStored? || t.Unlocked? || t.Finished?
  }

  ghost function CountOf(tasks: seq<Task>, p: Task -> bool): (k: nat)
    ensures k <= |tasks|
  {
    if tasks == [] then 0 else CountOf(tasks[..|tasks| - 1], p) + (if p(tasks[|tasks| - 1]) then 1 else 0)
  }

  predicate IsFinished(t: Task) {
    t.Finished?
  }

  /** At most one task is inside, and exactly then the lock word is set. */
  ghost predicate Exclusive(s: State) {
    && (s.lock != 0 <==> exists c :: 0 <= c < |s.tasks| && Holds(s.tasks[c]))
    && (forall c, d :: 0 <= c < |s.tasks| && 0 <= d < |s.tasks| && Holds(s.tasks[c]) && Holds(s.tasks[d]) ==> c == d)
  }

  /** What a task holds in hand is up to date. */
  ghost predicate Current(s: State, share: nat) {
    forall c :: 0 <= c < |s.tasks| ==>
      (s.tasks[c].HasRead? ==> s.tasks[c].seen == s.shared) && (s.tasks[c].HasAdded? ==> s.tasks[c].sum == s.shared + share)
  }

  ghost predicate Counted(s: State, share: nat) {
    s.shared == CountOf(s.tasks, Stored) * share && s.done == CountOf(s.tasks, IsFinished)
  }

  ghost predicate Inv(s: State, share: nat) {
    Exclusive(s) && Current(s, share) && Counted(s, share)
  }

  lemma {:induction false} CountUpdate(tasks: seq<Task>, p: Task -> bool, c: nat, t: Task)
    requires c < |tasks|
    ensures CountOf(tasks[c := t], p) == CountOf(tasks, p) - (if p(tasks[c]) then 1 else 0) + (if p(t) then 1 else 0)
  {
    var n := |tasks| - 1;
    if c == n {
      assert tasks[c := t][..n] == tasks[..n];
    } else {
      assert tasks[c := t][..n] == tasks[..n][c := t];
      CountUpdate(tasks[..n], p, c, t);
    }
  }

  lemma {:induction false} CountNone(tasks: seq<Task>, p: Task -> bool)
    requires forall c :: 0 <= c < |tasks| ==> !p(tasks[c])
    ensures CountOf(tasks, p) == 0
  {
    if tasks == [] {
    } else {
      CountNone(tasks[..|tasks| - 1], p);
    }
  }

  lemma {:induction false} CountAll(tasks: seq<Task>, p: Task -> bool)
    ensures CountOf(tasks, p) == |tasks| <==> forall c :: 0 <= c < |tasks| ==> p(tasks[c])
  {
    if tasks == [] {
    } else {
      CountAll(tasks[..|tasks| - 1], p);
    }
  }

  lemma {:induction false} CountMonotone(tasks: seq<Task>, p: Task -> bool, q: Task -> bool)
    requires forall c :: 0 <= c < |tasks| && p(tasks[c]) ==> q(tasks[c])
    ensures CountOf(tasks, p) <= CountOf(tasks, q)
  {
    if tasks == [] {
    } else {
      CountMonotone(tasks[..|tasks| - 1], p, q);
    }
  }

  lemma StartInv(n: nat, share: nat)
    ensures Inv(Start(n), share)
  {
    CountNone(Start(n).tasks, Stored);
    CountNone(Start(n).tasks, IsFinished);
  }

  lemma StepExclusive(s: State, share: nat, c: nat)
    requires Exclusive(s) && c < |s.tasks|
    ensures Exclusive(Step(s, share, c))
  {
    var s' := Step(s, share, c);
    assert forall d :: 0 <= d < |s.tasks| && d != c ==> s'.tasks[d] == s.tasks[d];
    if Holds(s'.tasks[c]) {
      assert s'.lock != 0;
    } else if s'.lock != 0 && s.lock != 0 {
      var d :| 0 <= d < |s.tasks| && Holds(s.tasks[d]);
      assert Holds(s'.tasks[d]);
    }
  }

  lemma StepCurrent(s: State, share: nat, c: nat)
    requires Exclusive(s) && Current(s, share) && c < |s.tasks|
    ensures Current(Step(s, share, c), share)
  {
    var s' := Step(s, share, c);
    forall d | 0 <= d < |s.tasks|
      ensures (s'.tasks[d].HasRead? ==> s'.tasks[d].seen == s'.shared) && (s'.tasks[d].HasAdded? ==> s'.tasks[d].sum == s'.shared + share)
    {
      assert d != c ==> s'.tasks[d] == s.tasks[d] && (Holds(s.tasks[c]) ==> !Holds(s.tasks[d]));
    }
  }

  lemma OneMoreShare(k: nat, share: nat)
    ensures (k + 1) * share == k * share + share
  {
  }

  lemma StepCounted(s: State, share: nat, c: nat)
    requires Current(s, share) && Counted(s, share) && c < |s.tasks|
    ensures Counted(Step(s, share, c), share)
  {
    hide CountOf;
    var s' := Step(s, share, c);
    CountUpdate(s.tasks, Stored, c, s'.tasks[c]);
    CountUpdate(s.tasks, IsFinished, c, s'.tasks[c]);
    OneMoreShare(CountOf(s.tasks, Stored), share);
  }

  ghost predicate Schedule(n: nat, schedule: seq<nat>) {
    forall k :: 0 <= k < |schedule| ==> schedule[k] < n
  }

  ghost function Exec(n: nat, share: nat, schedule: seq<nat>): (s: State)
    requires Schedule(n, schedule)
    ensures |s.tasks| == n
  {
    if schedule == [] then Start(n) else Step(Exec(n, share, schedule[..|schedule| - 1]), share, schedule[|schedule| - 1])
  }

  lemma {:induction false} ExecInv(n: nat, share: nat, schedule: seq<nat>)
    requires Schedule(n, schedule)
    ensures Inv(Exec(n, share, schedule), share)
  {
    hide Step, Exclusive, Current, Counted;
    if schedule == [] {
      StartInv(n, share);
    } else {
      var before, c := schedule[..|schedule| - 1], schedule[|schedule| - 1];
      ExecInv(n, share, before);
      StepExclusive(Exec(n, share, before), share, c);
      StepCurrent(Exec(n, share, before), share, c);
      StepCounted(Exec(n, share, before), share, c);
    }
  }

  /** In every interleaving at most one task is between lock and unlock. */
  lemma MutualExclusion(n: nat, share: nat, schedule: seq<nat>, c: nat, d: nat)
    requires Schedule(n, schedule) && c < n && d < n && c != d
    ensures !(Holds(Exec(n, share, schedule).tasks[c]) && Holds(Exec(n, share, schedule).tasks[d]))
  {
    hide Exec;
    ExecInv(n, share, schedule);
  }

  /**
   * No update is lost: the shared result is the share times the stores made, the done counter never runs ahead of
   * the stores, and once it shows all n tasks the result is n shares.
   */
  lemma NoUpdateIsLost(n: nat, share: nat, schedule: seq<nat>)
    requires Schedule(n, schedule)
    ensures var s := Exec(n, share, schedule);
            && s.shared == CountOf(s.tasks, Stored) * share
            && s.done <= CountOf(s.tasks, Stored)
            && (s.done == n ==> s.shared == n * share)
  {
    hide Exec;
    ExecInv(n, share, schedule);
    var s := Exec(n, share, schedule);
    CountMonotone(s.tasks, IsFinished, Stored);
  }

  /** The summing loop of computation_task, which counts to a million. */
  method ComputeLocal(count: nat) returns (localResult: nat)
    ensures 2 * localResult == count * (count + 1)
  {
    localResult := 0;
    var i := 1;
    while i <= count
      invariant 1 <= i <= count + 1
      invariant 2 * localResult == (i - 1) * i
    {
      localResult := localResult + i;
      i := i + 1;
    }
  }

  /** What a BSP that has waited for n tasks of 1 + ... + 1000000 each then reads: the expected total, with no 64-bit wrap. */
  lemma ExpectedResult(n: nat, share: nat, schedule: seq<nat>)
    requires Schedule(n, schedule) && 2 * share == 1_000_000 * 1_000_001 && n <= 0xFFFF
    requires Exec(n, share, schedule).done >= n
    ensures Exec(n, share, schedule).shared == 500_000_500_000 * n < 0x1_0000_0000_0000_0000
  {
    hide Exec;
    NoUpdateIsLost(n, share, schedule);
    ExecInv(n, share, schedule);
  }

  /** Tries that fail and spins aside, a task only moves forward. */
  function Stage(t: Task): nat {
    match t
    case SpinRead => 0
    case TryLock => 1
    case Inside => 2
    case HasRead(_) => 3
    case HasAdded(_) => 4
    case HasStored => 5
    case Unlocked => 6
    case Finished => 7
  }

  predicate Advances(t: Task, t': Task) {
    Stage(t) < Stage(t')
  }

  /** While some task is unfinished there is one whose step brings the whole system on: whoever holds the lock, or anybody if it is free. */
  lemma SomebodyAdvances(n: nat, share: nat, schedule: seq<nat>, c: nat) returns (d: nat)
    requires Schedule(n, schedule) && c < n && !Exec(n, share, schedule).tasks[c].Finished?
    ensures d < n && Advances(Exec(n, share, schedule).tasks[d], Step(Exec(n, share, schedule), share, d).tasks[d])
  {
    hide Exec, CountOf;
    ExecInv(n, share, schedule);
    var s := Exec(n, share, schedule);
    if s.lock != 0 {
      d :| 0 <= d < |s.tasks| && Holds(s.tasks[d]);
    } else {
      d := c;
    }
  }

  // ---------------------------------------------------------------------------------------------
  // Fair runs finish
  // ---------------------------------------------------------------------------------------------

  /** How far a task has come; trying and spinning count the same. */
  function Progress(t: Task): nat {
    if Stage(t) == 0 then 0 else Stage(t) - 1
  }

  ghost function TotalProgress(tasks: seq<Task>): (k: nat)
    ensures k <= 6 * |tasks|
  {
    if tasks == [] then 0 else TotalProgress(tasks[..|tasks| - 1]) + Progress(tasks[|tasks| - 1])
  }

  lemma {:induction false} TotalProgressUpdate(tasks: seq<Task>, c: nat, t: Task)
    requires c < |tasks|
    ensures TotalProgress(tasks[c := t]) == TotalProgress(tasks) - Progress(tasks[c]) + Progress(t)
  {
    var n := |tasks| - 1;
    if c == n {
      assert tasks[c := t][..n] == tasks[..n];
    } else {
      assert tasks[c := t][..n] == tasks[..n][c := t];
      TotalProgressUpdate(tasks[..n], c, t);
    }
  }

  predicate Trying(t: Task) {
    t.TryLock? || t.SpinRead?
  }

  /** A step that brings nobody on leaves the lock alone; if the lock is free, it is a spinning task's read that sees so. */
  lemma IdleStep(s: State, share: nat, c: nat)
    requires Exclusive(s) && c < |s.tasks|
    ensures var s' := Step(s, share, c);
            && TotalProgress(s'.tasks) >= TotalProgress(s.tasks)
            && (TotalProgress(s'.tasks) == TotalProgress(s.tasks) ==>
                  && (s'.lock == 0 <==> s.lock == 0)
                  && (s.tasks[c].Finished? || Trying(s.tasks[c]))
                  && (s.lock == 0 && Trying(s.tasks[c]) ==> s.tasks[c].SpinRead? && s'.tasks[c].TryLock?)
                  && (s.lock != 0 && Trying(s.tasks[c]) ==> s'.tasks[c].SpinRead?))
  {
    hide TotalProgress;
    TotalProgressUpdate(s.tasks, c, Step(s, share, c).tasks[c]);
    if s.lock != 0 {
      assert exists d :: 0 <= d < |s.tasks| && Holds(s.tasks[d]);
    }
  }

  /** The tasks a stretch of a run leaves where they are, if it brings nobody on. */
  ghost predicate Idle(s: State, s': State, block: seq<nat>) {
    && |s'.tasks| == |s.tasks| && (s'.lock == 0 <==> s.lock == 0)
    && (forall c :: 0 <= c < |s.tasks| && c !in block ==> s'.tasks[c] == s.tasks[c])
    && (forall c :: 0 <= c < |s.tasks| && !Trying(s.tasks[c]) ==> s'.tasks[c] == s.tasks[c])
    && (forall c :: 0 <= c < |s.tasks| && c in block ==> s.tasks[c].Finished? || Trying(s.tasks[c]))
    && (s.lock == 0 ==> forall c :: 0 <= c < |s.tasks| && c in block && Trying(s.tasks[c]) ==>
          s.tasks[c].SpinRead? && s'.tasks[c].TryLock?)
  }

  lemma StepOthersStay(s: State, share: nat, c: nat)
    requires c < |s.tasks|
    ensures forall d :: 0 <= d < |s.tasks| && d != c ==> Step(s, share, c).tasks[d] == s.tasks[d]
    ensures s.tasks[c].Finished? ==> Step(s, share, c) == s
  {
  }

  lemma IdleAndOneMore(s: State, m: State, s': State, block: seq<nat>, c: nat)
    requires Idle(s, m, block) && c < |s.tasks| && |s'.tasks| == |s.tasks| && (s'.lock == 0 <==> m.lock == 0)
    requires forall d :: 0 <= d < |m.tasks| && d != c ==> s'.tasks[d] == m.tasks[d]
    requires m.tasks[c].Finished? || Trying(m.tasks[c])
    requires m.tasks[c].Finished? ==> s' == m
    requires m.lock == 0 && Trying(m.tasks[c]) ==> m.tasks[c].SpinRead? && s'.tasks[c].TryLock?
    ensures Idle(s, s', block + [c])
  {
    forall d | 0 <= d < |s.tasks| ensures d in block + [c] <==> d in block || d == c {
    }
  }

  lemma {:induction false} IdleBlock(n: nat, share: nat, schedule: seq<nat>, block: seq<nat>)
    requires Schedule(n, schedule) && Schedule(n, block)
    ensures Schedule(n, schedule + block)
    ensures var (s, s') := (Exec(n, share, schedule), Exec(n, share, schedule + block));
            && TotalProgress(s'.tasks) >= TotalProgress(s.tasks)
            && (TotalProgress(s'.tasks) == TotalProgress(s.tasks) ==> Idle(s, s', block))
  {
    hide Step, TotalProgress, Exclusive, Current, Counted;
    if block == [] {
      assert schedule + block == schedule;
    } else {
      var k := |block| - 1;
      IdleBlock(n, share, schedule, block[..k]);
      var sofar := schedule + block[..k];
      assert (schedule + block)[..|schedule + block| - 1] == sofar;
      ExecInv(n, share, sofar);
      IdleStep(Exec(n, share, sofar), share, block[k]);
      StepOthersStay(Exec(n, share, sofar), share, block[k]);
      var s, m, s' := Exec(n, share, schedule), Exec(n, share, sofar), Exec(n, share, schedule + block);
      if TotalProgress(s'.tasks) == TotalProgress(s.tasks) {
        IdleAndOneMore(s, m, s', block[..k], block[k]);
        assert block == block[..k] + [block[k]];
      }
    }
  }

  ghost predicate Fair(n: nat, blocks: seq<seq<nat>>) {
    forall b :: 0 <= b < |blocks| ==> Schedule(n, blocks[b]) && forall c: nat :: c < n ==> c in blocks[b]
  }

  ghost function Flatten(blocks: seq<seq<nat>>): seq<nat> {
    if blocks == [] then [] else Flatten(blocks[..|blocks| - 1]) + blocks[|blocks| - 1]
  }

  ghost predicate AllFinished(s: State) {
    forall c :: 0 <= c < |s.tasks| ==> s.tasks[c].Finished?
  }

  lemma {:induction false} FinishedStays(n: nat, share: nat, schedule: seq<nat>, block: seq<nat>)
    requires Schedule(n, schedule) && Schedule(n, block)
    ensures Schedule(n, schedule + block)
    ensures AllFinished(Exec(n, share, schedule)) ==> AllFinished(Exec(n, share, schedule + block))
  {
    hide Step;
    if block == [] {
      assert schedule + block == schedule;
    } else {
      var k := |block| - 1;
      FinishedStays(n, share, schedule, block[..k]);
      assert (schedule + block)[..|schedule + block| - 1] == schedule + block[..k];
      StepOthersStay(Exec(n, share, schedule + block[..k]), share, block[k]);
    }
  }

  /** Two blocks in which every task takes a step bring somebody on: the holder, or the first to see the lock free and take it. */
  lemma TwoBlocksAdvance(n: nat, share: nat, schedule: seq<nat>, b1: seq<nat>, b2: seq<nat>)
    requires Schedule(n, schedule) && Fair(n, [b1, b2])
    ensures Schedule(n, schedule + b1 + b2)
    ensures var (s, s') := (Exec(n, share, schedule), Exec(n, share, schedule + b1 + b2));
            && (AllFinished(s) ==> AllFinished(s'))
            && (AllFinished(s) || TotalProgress(s'.tasks) > TotalProgress(s.tasks))
  {
    hide Exec, TotalProgress, Current, Counted;
    assert [b1, b2][0] == b1 && [b1, b2][1] == b2;
    IdleBlock(n, share, schedule, b1);
    IdleBlock(n, share, schedule + b1, b2);
    ExecInv(n, share, schedule);
    var s, m, s' := Exec(n, share, schedule), Exec(n, share, schedule + b1), Exec(n, share, schedule + b1 + b2);
    FinishedStays(n, share, schedule, b1);
    FinishedStays(n, share, schedule + b1, b2);
    if !AllFinished(s) {
      var c: nat :| c < n && !s.tasks[c].Finished?;
      assert c in b1 && c in b2;
    }
  }

  lemma {:induction false} FairBlocksCount(n: nat, share: nat, schedule: seq<nat>, blocks: seq<seq<nat>>)
    requires Schedule(n, schedule) && Fair(n, blocks)
    ensures Schedule(n, schedule + Flatten(blocks))
    ensures var s := Exec(n, share, schedule + Flatten(blocks));
            AllFinished(s) || 2 * TotalProgress(s.tasks) + 1 >= |blocks|
    decreases |blocks|
  {
    hide Exec, TotalProgress, AllFinished;
    if blocks == [] {
      assert schedule + Flatten(blocks) == schedule;
    } else if |blocks| == 1 {
      assert Flatten(blocks[..0]) == [];
      assert schedule + Flatten(blocks) == schedule + blocks[0];
    } else {
      var k := |blocks| - 2;
      FairBlocksCount(n, share, schedule, blocks[..k]);
      assert blocks[..k + 1][..k] == blocks[..k];
      assert schedule + Flatten(blocks) == schedule + Flatten(blocks[..k]) + blocks[k] + blocks[k + 1];
      TwoBlocksAdvance(n, share, schedule + Flatten(blocks[..k]), blocks[k], blocks[k + 1]);
    }
  }

  /**
   * From any point of any run, once every task has had 12 n + 2 turns, however they interleave, every task has finished:
   * nobody is locked out for good, although the lock is not fair.
   */
  lemma FairRunsFinish(n: nat, share: nat, schedule: seq<nat>, blocks: seq<seq<nat>>)
    requires Schedule(n, schedule) && Fair(n, blocks) && |blocks| >= 12 * n + 2
    ensures Schedule(n, schedule + Flatten(blocks))
    ensures AllFinished(Exec(n, share, schedule + Flatten(blocks)))
  {
    hide Exec, AllFinished;
    FairBlocksCount(n, share, schedule, blocks);
  }
}
