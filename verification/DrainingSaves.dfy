/** Saves that run to their ends, in any order and perhaps failing: exactly when they leave the disk up to date. */
module DrainingSaves {
  import opened ByteText
  import opened SaveProtocol
  import V = Vault

  // ---- Exactly which saves in flight lose nothing

  /** Saves run to their ends in any order, and no mutation or new save comes. */
  ghost predicate Draining(steps: seq<Step>) {
    forall i :: 0 <= i < |steps| ==> steps[i].Snapshot? || steps[i].Rename? || steps[i].MarkUse?
  }

  ghost predicate DrainRun(s: System, steps: seq<Step>, mk: V.Derivation, end: System) {
    Draining(steps) && RunSteps(s, steps, mk) == Some(end) && end.saves == []
  }

  ghost predicate HoldingsCurrent(s: System) {
    forall i :: 0 <= i < |s.saves| && s.saves[i].Holding? ==> SameButUses(s.saves[i].image, Persisted(s.mem))
  }

  /** Every snapshot held is up to date, and with no save in flight so is the disk. */
  ghost predicate Current(s: System) {
    HoldingsCurrent(s) && (s.saves == [] ==> OnDisk(s))
  }

  lemma DrainStepCurrent(s: System, step: Step, mk: V.Derivation)
    requires Current(s) && Enabled(s, step, mk) && (step.Snapshot? || step.Rename? || step.MarkUse?)
    ensures Current(Next(s, step, mk))
  {
    if step.MarkUse? {
      MarkUseInvisible(s.mem, step.ph, mk);
    }
  }

  lemma {:induction false} DrainCurrent(s: System, steps: seq<Step>, mk: V.Derivation)
    requires Current(s) && Draining(steps) && RunSteps(s, steps, mk).Some?
    ensures Current(RunSteps(s, steps, mk).value)
    decreases |steps|
  {
    if steps != [] {
      DrainStepCurrent(s, steps[0], mk);
      DrainCurrent(Next(s, steps[0], mk), steps[1..], mk);
    }
  }

  /** Steps still to take: two for a pending save, one for one that holds its snapshot. */
  function Work(saves: seq<Save>): nat {
    |saves| + multiset(saves)[Pending]
  }

  lemma WorkWithout(saves: seq<Save>, j: nat)
    requires j < |saves|
    ensures Work(saves) == Work(saves[..j] + saves[j + 1..]) + if saves[j].Pending? then 2 else 1
  {
    assert saves == saves[..j] + [saves[j]] + saves[j + 1..];
  }

  /** Some other save takes one step towards its end. */
  lemma OneOther(s: System, i: nat, mk: V.Derivation) returns (step: Step, k: nat)
    requires i < |s.saves| && s.saves[i].Holding? && |s.saves| > 1
    ensures (step.Snapshot? || step.Rename?) && Enabled(s, step, mk)
    ensures var t := Next(s, step, mk);
      k < |t.saves| && t.saves[k] == s.saves[i] && t.mem == s.mem && Work(t.saves) < Work(s.saves)
  {
    var j := if i == 0 then 1 else 0;
    WorkWithout(s.saves, j);
    k := if j < i then i - 1 else i;
    if s.saves[j].Holding? {
      step := Rename(j);
    } else {
      step := Snapshot(j);
    }
  }

  /** All other saves can finish first, so that the one at i is renamed last. */
  lemma {:induction false} RenamedLast(s: System, i: nat, mk: V.Derivation) returns (steps: seq<Step>)
    requires i < |s.saves| && s.saves[i].Holding?
    ensures Draining(steps) && RunSteps(s, steps, mk).Some?
    ensures var end := RunSteps(s, steps, mk).value; end.saves == [] && end.disk == Some(s.saves[i].image) && end.mem == s.mem
    decreases Work(s.saves)
  {
    if |s.saves| == 1 {
      steps := [Rename(0)];
      RunOne(s, Rename(0), mk);
    } else {
      var step, k := OneOther(s, i, mk);
      var more := RenamedLast(Next(s, step, mk), k, mk);
      steps := [step] + more;
      assert steps[1..] == more;
    }
  }

  /**
   * Exactly when the saves in flight leave the disk up to date, in whatever order they snapshot and rename: when every
   * snapshot already held is up to date, and with none in flight the disk is.
   */
  lemma DrainExactly(s: System, mk: V.Derivation)
    ensures Current(s) <==> forall steps, end :: DrainRun(s, steps, mk, end) ==> OnDisk(end)
  {
    if Current(s) {
      forall steps, end | DrainRun(s, steps, mk, end) ensures OnDisk(end) {
        DrainCurrent(s, steps, mk);
      }
    } else if i :| 0 <= i < |s.saves| && s.saves[i].Holding? && !SameButUses(s.saves[i].image, Persisted(s.mem)) {
      var steps := RenamedLast(s, i, mk);
      var end := RunSteps(s, steps, mk).value;
      assert DrainRun(s, steps, mk, end) && !OnDisk(end);
    } else {
      assert DrainRun(s, [], mk, s);
    }
  }

  // ---- ... when saves may fail

  ghost predicate Failing(steps: seq<Step>) {
    forall i :: 0 <= i < |steps| ==> steps[i].Snapshot? || steps[i].Rename? || steps[i].MarkUse? || steps[i].FailSave?
  }

  ghost predicate FailRun(s: System, steps: seq<Step>, mk: V.Derivation, end: System) {
    Failing(steps) && RunSteps(s, steps, mk) == Some(end) && end.saves == []
  }

  lemma {:induction false} FailKeeps(s: System, steps: seq<Step>, mk: V.Derivation)
    requires HoldingsCurrent(s) && OnDisk(s) && Failing(steps) && RunSteps(s, steps, mk).Some?
    ensures OnDisk(RunSteps(s, steps, mk).value)
    decreases |steps|
  {
    if steps != [] {
      FailStepKeeps(s, steps[0], mk);
      FailKeeps(Next(s, steps[0], mk), steps[1..], mk);
    }
  }

  lemma FailStepKeeps(s: System, step: Step, mk: V.Derivation)
    requires HoldingsCurrent(s) && OnDisk(s) && Enabled(s, step, mk)
    requires step.Snapshot? || step.Rename? || step.MarkUse? || step.FailSave?
    ensures HoldingsCurrent(Next(s, step, mk)) && OnDisk(Next(s, step, mk))
  {
    if step.MarkUse? {
      MarkUseInvisible(s.mem, step.ph, mk);
    }
  }

  lemma {:induction false} AllFail(s: System, mk: V.Derivation) returns (steps: seq<Step>)
    ensures Failing(steps) && RunSteps(s, steps, mk).Some?
    ensures var end := RunSteps(s, steps, mk).value; end.saves == [] && end.disk == s.disk && end.mem == s.mem
    decreases |s.saves|
  {
    steps := [];
    if s.saves != [] {
      var more := AllFail(Next(s, FailSave(0), mk), mk);
      steps := [FailSave(0)] + more;
      assert steps[1..] == more;
    }
  }

  /** Exactly when that holds although any of the saves may fail: when besides the disk already is up to date. */
  lemma FailingDrainExactly(s: System, mk: V.Derivation)
    ensures HoldingsCurrent(s) && OnDisk(s) <==> forall steps, end :: FailRun(s, steps, mk, end) ==> OnDisk(end)
  {
    if HoldingsCurrent(s) && OnDisk(s) {
      forall steps, end | FailRun(s, steps, mk, end) ensures OnDisk(end) {
        FailKeeps(s, steps, mk);
      }
    } else if !OnDisk(s) {
      var steps := AllFail(s, mk);
      var end := RunSteps(s, steps, mk).value;
      assert FailRun(s, steps, mk, end) && !OnDisk(end);
    } else {
      var i :| 0 <= i < |s.saves| && s.saves[i].Holding? && !SameButUses(s.saves[i].image, Persisted(s.mem));
      var steps := RenamedLast(s, i, mk);
      var end := RunSteps(s, steps, mk).value;
      assert FailRun(s, steps, mk, end) && !OnDisk(end);
    }
  }
}
