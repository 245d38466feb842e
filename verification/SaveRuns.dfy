/** Lost updates on a concrete vault: two values registered, or one and a save that fails. */
module SaveRuns {
  import opened ByteText
  import opened SaveProtocol
  import V = Vault

  /** A new, empty vault whose first save is through. */
  const FRESH_VAULT: System := System(V.EMPTY, Some([]), Control(false, None, false, {}, 0), 0, 0, [], NotClosing)

  lemma FreshVaultOpened()
    ensures Opened(FRESH_VAULT) && AtRest(FRESH_VAULT)
  {
  }

  lemma TwoRegistered(mk: V.Derivation, a: Bytes, b: Bytes)
    requires a != b && mk(a) != mk(b)
    ensures var s := V.Apply(V.EMPTY, V.Register(a, "", "", []), mk).0;
      var t := V.Apply(s, V.Register(b, "", "", []), mk);
      |Persisted(s)| == 1 && t.1.Gives? && |Persisted(t.0)| == 2
  {
    var s := V.Apply(V.EMPTY, V.Register(a, "", "", []), mk).0;
    var t := V.Apply(s, V.Register(b, "", "", []), mk).0;
    assert s.order == [mk(a)] && t.order == [mk(a)] + [mk(b)];
    OneEntry(mk(a), [], s.byPH);
    OneEntry(mk(a), [mk(b)], t.byPH);
    OneEntry(mk(b), [], t.byPH);
    assert [mk(a)] + [] == [mk(a)] && [mk(b)] + [] == [mk(b)];
  }

  lemma OneEntry(p: Bytes, order: seq<Bytes>, byPH: map<Bytes, V.Entry>)
    requires p in byPH
    ensures |EntriesOf([p] + order, byPH)| == 1 + |EntriesOf(order, byPH)|
  {
    assert ([p] + order)[1..] == order;
  }

  /** Register a, register b, each with its own save, renamed in the wrong order: b is in memory only. */
  lemma OverlapRun(mk: V.Derivation, a: Bytes, b: Bytes) returns (steps: seq<Step>, t: System)
    requires a != b && mk(a) != mk(b)
    ensures RunSteps(FRESH_VAULT, steps, mk) == Some(t) && AtRest(t) && t.saves == [] && !OnDisk(t)
  {
    FreshVaultOpened();
    TwoRegistered(mk, a, b);
    steps, t := OverlapLosesUpdate(FRESH_VAULT, V.Register(a, "", "", []), V.Register(b, "", "", []), mk);
  }

  /** Register a while the disk is full: a is in memory only, and nothing will save it. */
  lemma FailedRun(mk: V.Derivation, a: Bytes) returns (steps: seq<Step>, t: System)
    ensures RunSteps(FRESH_VAULT, steps, mk) == Some(t) && AtRest(t) && t.saves == [] && !OnDisk(t)
  {
    FreshVaultOpened();
    var s := V.Apply(V.EMPTY, V.Register(a, "", "", []), mk).0;
    assert s.order == [mk(a)] + [];
    OneEntry(mk(a), [], s.byPH);
    steps, t := FailedSaveLosesUpdate(FRESH_VAULT, V.Register(a, "", "", []), mk);
  }

  /** The timer has fired, its callback waits for the lock, and a mutation has armed it once more. */
  function FiredAndArmed(mem: V.State): System {
    System(mem, Some([]), Control(true, Some(0), false, {0}, 1), 0, 1, [], NotClosing)
  }

  lemma RunToArmed(op1: V.Op, op2: V.Op, mk: V.Derivation, rest: seq<Step>, end: System) returns (steps: seq<Step>)
    requires op1.Register? && op2.Register? && V.Apply(V.Apply(V.EMPTY, op1, mk).0, op2, mk).1.Gives?
    requires var s := FiredAndArmed(V.Apply(V.Apply(V.EMPTY, op1, mk).0, op2, mk).0);
      OrderedRun(s, rest, mk) && RunSteps(s, rest, mk) == Some(end)
    ensures OrderedRun(FRESH_VAULT, steps, mk) && RunSteps(FRESH_VAULT, steps, mk) == Some(end)
  {
    var s1 := Next(FRESH_VAULT, Mutate(op1, []), mk);
    var s2 := Next(s1, MarkDirty, mk);
    var s3 := Next(s2, Fire(0), mk);
    var s4 := Next(s3, Mutate(op2, []), mk);
    assert Next(s4, MarkDirty, mk) == FiredAndArmed(s4.mem);
    steps := Before(s4, MarkDirty, end, rest, mk);
    steps := Before(s3, Mutate(op2, []), end, steps, mk);
    steps := Before(s2, Fire(0), end, steps, mk);
    steps := Before(s1, MarkDirty, end, steps, mk);
    steps := Before(FRESH_VAULT, Mutate(op1, []), end, steps, mk);
  }

  lemma RunFromArmed(mem: V.State, mk: V.Derivation) returns (steps: seq<Step>, s: System)
    ensures OrderedRun(FiredAndArmed(mem), steps, mk) && RunSteps(FiredAndArmed(mem), steps, mk) == Some(s)
    ensures s == System(mem, Some(Persisted(mem)), Control(false, None, false, {0}, 1), 0, 0, [], NotClosing)
  {
    var s6 := Next(FiredAndArmed(mem), BeginSave, mk);
    var s7 := Next(s6, Snapshot(0), mk);
    s := Next(s7, Rename(0), mk);
    steps := [];
    steps := Before(s7, Rename(0), s, steps, mk);
    steps := Before(s6, Snapshot(0), s, steps, mk);
    steps := Before(FiredAndArmed(mem), BeginSave, s, steps, mk);
  }

  /**
   * Register a, and b just when the timer has fired: markDirty arms the fired timer once more, its callback forgets it, and
   * the save it makes holds both. All is at rest and on disk.
   */
  lemma StrayTimer(mk: V.Derivation, a: Bytes, b: Bytes) returns (steps: seq<Step>, s: System)
    requires a != b && mk(a) != mk(b)
    ensures OrderedRun(FRESH_VAULT, steps, mk) && RunSteps(FRESH_VAULT, steps, mk) == Some(s)
    ensures s.closer == NotClosing && s.mutators == 0 && s.blocked == 0 && s.saves == [] && !s.ctl.dirty && OnDisk(s)
    ensures |Persisted(s.mem)| == 2 && s.ctl.timer == None && s.ctl.armed == {0}
  {
    TwoRegistered(mk, a, b);
    var op1, op2 := V.Register(a, "", "", []), V.Register(b, "", "", []);
    steps, s := RunFromArmed(V.Apply(V.Apply(V.EMPTY, op1, mk).0, op2, mk).0, mk);
    steps := RunToArmed(op1, op2, mk, steps, s);
  }

  lemma Before(s: System, step: Step, end: System, steps: seq<Step>, mk: V.Derivation) returns (more: seq<Step>)
    requires Enabled(s, step, mk) && Ordered(s, step)
    requires OrderedRun(Next(s, step, mk), steps, mk) && RunSteps(Next(s, step, mk), steps, mk) == Some(end)
    ensures OrderedRun(s, more, mk) && RunSteps(s, more, mk) == Some(end)
  {
    more := [step] + steps;
    assert more[1..] == steps;
  }

  /** Then Close returns, the timer fires, and its callback saves the emptied vault over the file: both values are gone. */
  lemma StrayTimerWipes(mk: V.Derivation, a: Bytes, b: Bytes) returns (steps: seq<Step>, s: System, more: seq<Step>, end: System)
    requires a != b && mk(a) != mk(b)
    ensures OrderedRun(FRESH_VAULT, steps, mk) && RunSteps(FRESH_VAULT, steps, mk) == Some(s)
    ensures OnDisk(s) && |Persisted(s.mem)| == 2 && CloseRun(s, more, mk, end) && end.disk == Some([])
  {
    steps, s := StrayTimer(mk, a, b);
    more, end := CloseAlone(s, mk);
    more, end := ExtendClose(s, more, end, Fire(0), mk);
    more, end := ExtendClose(s, more, end, BeginSave, mk);
    more, end := PendingWipes(s, more, end, 0, mk);
  }
}
