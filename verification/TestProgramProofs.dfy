/** What the test program guarantees in every interleaving. */
module TestProgramProofs {
  import opened Sums
  import opened TestProgram
  import Barrier

  // ---------------------------------------------------------------------------------------------
  // The invariant
  // ---------------------------------------------------------------------------------------------

  predicate HasId(w: Worker) {
    !w.work.Draw?
  }

  /** The value of a CPU's counter, told from where it is. */
  ghost function CounterOf(cfg: Config, w: Worker, g: nat): nat {
    match w.work
    case Draw => 0
    case Load(i) => i
    case Store(i, _) => i
    case Publish => cfg.full
    case AddTotal => cfg.full
    case Reset => cfg.full
    case AtBarrier => if g == 2 then 0 else if g == 3 then cfg.half else cfg.full
    case Done => cfg.full
  }

  /** Whether the CPU has added its share to the total. */
  predicate HasAdded(w: Worker, g: nat) {
    g >= 2 || (g == 1 && w.work.AtBarrier?)
  }

  predicate HasPublished(w: Worker, g: nat) {
    g >= 2 || (g == 1 && !w.work.Publish?)
  }

  /** Where a CPU can be after g barriers. */
  predicate Placed(cfg: Config, w: Worker, cpu: Barrier.Cpu) {
    var g := cpu.passed;
    && (w.work.AtBarrier? || cpu.pc.Outside?)
    && match w.work
       case Draw => g == 0
       case Load(i) => (g == 0 || g == 3 || (g == 4 && cfg.half <= i)) && i <= Limit(cfg, g)
       case Store(i, seen) => (g == 0 || g == 3 || (g == 4 && cfg.half <= i)) && seen == i < Limit(cfg, g)
       case Publish => g == 1
       case AddTotal => g == 1
       case Reset => g == 2
       case AtBarrier => g < 4
       case Done => g == 4
  }

  ghost function Drawn(workers: seq<Worker>): (k: nat)
    ensures k <= |workers|
  {
    if workers == [] then 0 else Drawn(workers[..|workers| - 1]) + (if HasId(workers[|workers| - 1]) then 1 else 0)
  }

  /** Ids are drawn once each: 0 for the BSP, then 1, 2, ... */
  ghost predicate IdsOk(cfg: Config, s: State)
    requires Shaped(cfg, s)
  {
    && s.online == Drawn(s.workers)
    && (forall c :: 0 <= c < cfg.n && HasId(s.workers[c]) ==> s.workers[c].id < s.online)
    && (forall c, d :: 0 <= c < cfg.n && 0 <= d < cfg.n && c != d && HasId(s.workers[c]) && HasId(s.workers[d]) ==>
          s.workers[c].id != s.workers[d].id)
    && (cfg.n > 0 ==> HasId(s.workers[0]) && s.workers[0].id == 0)
  }

  ghost predicate CountersOk(cfg: Config, s: State)
    requires Shaped(cfg, s)
  {
    && (forall c :: 0 <= c < cfg.n && HasId(s.workers[c]) ==>
          Get(s.counters, s.workers[c].id) == CounterOf(cfg, s.workers[c], s.bar.cpus[c].passed))
    && (forall k :: s.online <= k < cfg.n ==> s.counters[k] == 0)
  }

  /** The ids whose share is in the total. */
  ghost function Contributors(cfg: Config, s: State): set<nat>
    requires Shaped(cfg, s)
  {
    set c | 0 <= c < cfg.n && HasAdded(s.workers[c], s.bar.cpus[c].passed) :: s.workers[c].id
  }

  ghost predicate SumsOk(cfg: Config, s: State)
    requires cfg.Valid() && Shaped(cfg, s)
  {
    && s.total == SumOf(cfg.target, cfg.n, Contributors(cfg, s), cfg.n)
    && (forall c :: 0 <= c < cfg.n && HasPublished(s.workers[c], s.bar.cpus[c].passed) ==>
          Get(s.partial, s.workers[c].id) == LocalSum(cfg.target, cfg.n, s.workers[c].id))
  }

  ghost predicate Inv(cfg: Config, s: State) {
    && cfg.Valid() && Shaped(cfg, s)
    && Barrier.Inv(s.bar)
    && (forall c :: 0 <= c < cfg.n ==> Placed(cfg, s.workers[c], s.bar.cpus[c]))
    && IdsOk(cfg, s)
    && CountersOk(cfg, s)
    && SumsOk(cfg, s)
  }

  lemma {:induction false} DrawnUpdate(workers: seq<Worker>, c: nat, w: Worker)
    requires c < |workers|
    ensures Drawn(workers[c := w]) == Drawn(workers) - (if HasId(workers[c]) then 1 else 0) + (if HasId(w) then 1 else 0)
  {
    var n := |workers| - 1;
    if c == n {
      assert workers[c := w][..n] == workers[..n];
    } else {
      assert workers[c := w][..n] == workers[..n][c := w];
      DrawnUpdate(workers[..n], c, w);
    }
  }

  lemma {:induction false} DrawnAll(workers: seq<Worker>)
    ensures Drawn(workers) == |workers| <==> forall c :: 0 <= c < |workers| ==> HasId(workers[c])
  {
    if workers == [] {
    } else {
      DrawnAll(workers[..|workers| - 1]);
    }
  }

  lemma {:induction false} OnlyFirstDrawn(workers: seq<Worker>)
    requires |workers| > 0 && forall c :: 0 <= c < |workers| ==> (HasId(workers[c]) <==> c == 0)
    ensures Drawn(workers) == 1
  {
    if |workers| > 1 {
      OnlyFirstDrawn(workers[..|workers| - 1]);
    } else {
      assert Drawn(workers[..0]) == 0;
    }
  }

  lemma {:induction false} SumOfNobody(target: nat, n: nat, k: nat)
    requires n > 0
    ensures SumOf(target, n, {}, k) == 0
  {
    if k == 0 {
    } else {
      SumOfNobody(target, n, k - 1);
    }
  }

  lemma StartInv(cfg: Config)
    requires cfg.Valid()
    ensures Inv(cfg, Start(cfg))
  {
    var s := Start(cfg);
    Barrier.StartInv(cfg.n);
    OnlyFirstDrawn(s.workers);
    assert Contributors(cfg, s) == {};
    SumOfNobody(cfg.target, cfg.n, cfg.n);
  }

  lemma BarrierStep(bar: Barrier.State, c: nat)
    requires c < |bar.cpus|
    ensures var bar' := Barrier.Step(bar, c);
            && (forall d :: 0 <= d < |bar.cpus| && d != c ==> bar'.cpus[d] == bar.cpus[d])
            && (bar'.cpus[c].passed == bar.cpus[c].passed ||
                (bar'.cpus[c].passed == bar.cpus[c].passed + 1 && bar'.cpus[c].pc.Outside?))
  {
  }

  lemma StepPlaced(cfg: Config, s: State, c: nat)
    requires Inv(cfg, s) && c < cfg.n
    ensures forall d :: 0 <= d < cfg.n ==> Placed(cfg, Step(cfg, s, c).workers[d], Step(cfg, s, c).bar.cpus[d])
    ensures Barrier.Inv(Step(cfg, s, c).bar)
  {
    hide Barrier.Inv, IdsOk, SumsOk, Barrier.Step;
    BarrierStep(s.bar, c);
    Barrier.StepKeepsInv(s.bar, c);
    assert Placed(cfg, s.workers[c], s.bar.cpus[c]);
  }

  lemma StepIds(cfg: Config, s: State, c: nat)
    requires Inv(cfg, s) && c < cfg.n
    ensures IdsOk(cfg, Step(cfg, s, c))
  {
    hide Barrier.Inv, CountersOk, SumsOk, Barrier.Step, LocalSum, Placed;
    var s' := Step(cfg, s, c);
    DrawnUpdate(s.workers, c, s'.workers[c]);
    hide Drawn;
    assert forall d :: 0 <= d < cfg.n && d != c ==> s'.workers[d] == s.workers[d];
  }

  lemma DrawnBelow(cfg: Config, s: State, c: nat)
    requires Inv(cfg, s) && c < cfg.n
    ensures s.online <= cfg.n
    ensures s.workers[c].work.Draw? ==> s.online < cfg.n
    ensures HasId(s.workers[c]) ==> s.workers[c].id < cfg.n
  {
    hide Barrier.Inv, SumsOk, CountersOk, Placed;
    DrawnAll(s.workers);
  }

  lemma CounterStepOwn(cfg: Config, s: State, c: nat)
    requires Inv(cfg, s) && c < cfg.n && HasId(Step(cfg, s, c).workers[c])
    ensures var s' := Step(cfg, s, c);
            Get(s'.counters, s'.workers[c].id) == CounterOf(cfg, s'.workers[c], s'.bar.cpus[c].passed)
  {
    hide Barrier.Inv, SumsOk, Barrier.Step, LocalSum, Drawn;
    BarrierStep(s.bar, c);
    assert Placed(cfg, s.workers[c], s.bar.cpus[c]);
    DrawnBelow(cfg, s, c);
  }

  lemma StepCounters(cfg: Config, s: State, c: nat)
    requires Inv(cfg, s) && c < cfg.n
    ensures CountersOk(cfg, Step(cfg, s, c))
  {
    hide Barrier.Inv, SumsOk, Barrier.Step, LocalSum, Drawn;
    var s' := Step(cfg, s, c);
    BarrierStep(s.bar, c);
    assert Placed(cfg, s.workers[c], s.bar.cpus[c]);
    DrawnBelow(cfg, s, c);
    forall d | 0 <= d < cfg.n && HasId(s'.workers[d])
      ensures Get(s'.counters, s'.workers[d].id) == CounterOf(cfg, s'.workers[d], s'.bar.cpus[d].passed)
    {
      if d == c {
        CounterStepOwn(cfg, s, c);
      }
    }
  }

  lemma StepPartial(cfg: Config, s: State, c: nat)
    requires Inv(cfg, s) && c < cfg.n
    ensures var s' := Step(cfg, s, c);
            forall d :: 0 <= d < cfg.n && HasPublished(s'.workers[d], s'.bar.cpus[d].passed) ==>
              Get(s'.partial, s'.workers[d].id) == LocalSum(cfg.target, cfg.n, s'.workers[d].id)
  {
    hide Barrier.Inv, Barrier.Step, LocalSum, Drawn, CountersOk, SumOf;
    BarrierStep(s.bar, c);
    DrawnBelow(cfg, s, c);
    var s' := Step(cfg, s, c);
    forall d | 0 <= d < cfg.n && HasPublished(s'.workers[d], s'.bar.cpus[d].passed)
      ensures Get(s'.partial, s'.workers[d].id) == LocalSum(cfg.target, cfg.n, s'.workers[d].id)
    {
      assert Placed(cfg, s.workers[c], s.bar.cpus[c]) && Placed(cfg, s.workers[d], s.bar.cpus[d]);
    }
  }

  lemma AddedHaveIds(cfg: Config, s: State)
    requires Inv(cfg, s)
    ensures forall d :: 0 <= d < cfg.n && HasAdded(s.workers[d], s.bar.cpus[d].passed) ==> HasId(s.workers[d])
  {
    hide Barrier.Inv, IdsOk, CountersOk, SumsOk;
    forall d | 0 <= d < cfg.n && HasAdded(s.workers[d], s.bar.cpus[d].passed)
      ensures HasId(s.workers[d])
    {
      assert Placed(cfg, s.workers[d], s.bar.cpus[d]);
    }
  }

  lemma SameMembers(cfg: Config, s: State, s': State, c: nat)
    requires Shaped(cfg, s) && Shaped(cfg, s') && c < cfg.n
    requires forall d :: 0 <= d < cfg.n && d != c ==> s'.workers[d] == s.workers[d] && s'.bar.cpus[d] == s.bar.cpus[d]
    requires HasAdded(s'.workers[c], s'.bar.cpus[c].passed) <==>
             HasAdded(s.workers[c], s.bar.cpus[c].passed) || s.workers[c].work.AddTotal?
    requires HasAdded(s'.workers[c], s'.bar.cpus[c].passed) ==> s'.workers[c].id == s.workers[c].id
    ensures Contributors(cfg, s') == Contributors(cfg, s) + (if s.workers[c].work.AddTotal? then {s.workers[c].id} else {})
  {
    var before, after := Contributors(cfg, s), Contributors(cfg, s');
    forall id | id in before ensures id in after {
      var d :| 0 <= d < cfg.n && HasAdded(s.workers[d], s.bar.cpus[d].passed) && s.workers[d].id == id;
      assert HasAdded(s'.workers[d], s'.bar.cpus[d].passed) && s'.workers[d].id == id;
    }
    forall id | id in after
      ensures id in before || (s.workers[c].work.AddTotal? && id == s.workers[c].id)
    {
      var d :| 0 <= d < cfg.n && HasAdded(s'.workers[d], s'.bar.cpus[d].passed) && s'.workers[d].id == id;
      if d != c || !s.workers[c].work.AddTotal? {
        assert HasAdded(s.workers[d], s.bar.cpus[d].passed) && s.workers[d].id == id;
      }
    }
    if s.workers[c].work.AddTotal? {
      assert HasAdded(s'.workers[c], s'.bar.cpus[c].passed);
    }
  }

  /** The set of contributors grows by the id of the CPU that adds its share, and at no other step. */
  lemma ContributorsStep(cfg: Config, s: State, c: nat)
    requires Inv(cfg, s) && c < cfg.n
    ensures Contributors(cfg, Step(cfg, s, c)) ==
            Contributors(cfg, s) + (if s.workers[c].work.AddTotal? then {s.workers[c].id} else {})
    ensures s.workers[c].work.AddTotal? ==> s.workers[c].id !in Contributors(cfg, s)
  {
    hide Barrier.Inv, Barrier.Step, LocalSum, Drawn, CountersOk, SumOf, SumsOk;
    BarrierStep(s.bar, c);
    var s' := Step(cfg, s, c);
    assert Placed(cfg, s.workers[c], s.bar.cpus[c]);
    assert forall d :: 0 <= d < cfg.n && d != c ==> s'.workers[d] == s.workers[d] && s'.bar.cpus[d] == s.bar.cpus[d];
    assert HasAdded(s'.workers[c], s'.bar.cpus[c].passed) <==>
           HasAdded(s.workers[c], s.bar.cpus[c].passed) || s.workers[c].work.AddTotal?;
    assert HasAdded(s.workers[c], s.bar.cpus[c].passed) ==> s'.workers[c].id == s.workers[c].id;
    AddedHaveIds(cfg, s);
    SameMembers(cfg, s, s', c);
  }

  lemma StepSums(cfg: Config, s: State, c: nat)
    requires Inv(cfg, s) && c < cfg.n
    ensures SumsOk(cfg, Step(cfg, s, c))
  {
    hide Barrier.Inv, Barrier.Step, LocalSum, Drawn, CountersOk, SumOf;
    var s' := Step(cfg, s, c);
    var id := s.workers[c].id;
    ContributorsStep(cfg, s, c);
    DrawnBelow(cfg, s, c);
    assert Contributors(cfg, s) + {} == Contributors(cfg, s);
    if s.workers[c].work.AddTotal? {
      SumOfAdd(cfg.target, cfg.n, Contributors(cfg, s), id, cfg.n);
    }
    StepPartial(cfg, s, c);
  }

  /** Every step of every CPU keeps the invariant. */
  lemma StepKeepsInv(cfg: Config, s: State, c: nat)
    requires Inv(cfg, s) && c < cfg.n
    ensures Inv(cfg, Step(cfg, s, c))
  {
    StepPlaced(cfg, s, c);
    StepIds(cfg, s, c);
    StepCounters(cfg, s, c);
    StepSums(cfg, s, c);
    hide Barrier.Inv, Barrier.Step, LocalSum, Drawn, CountersOk, SumOf, SumsOk, IdsOk, Placed, Step;
  }

  lemma {:induction false} ExecInv(cfg: Config, schedule: seq<nat>)
    requires cfg.Valid() && Schedule(cfg, schedule)
    ensures Inv(cfg, Exec(cfg, schedule))
  {
    hide Inv, Step;
    if schedule == [] {
      StartInv(cfg);
    } else {
      ExecInv(cfg, schedule[..|schedule| - 1]);
      StepKeepsInv(cfg, Exec(cfg, schedule[..|schedule| - 1]), schedule[|schedule| - 1]);
    }
  }
}
