/**
 * The persistent vault's debounced save, as interleaved atomic steps of mutators, timer callbacks
 * and Close. A save runs outside every lock: it snapshots memory, then renames a file into place.
 */
module SaveProtocol {
  import opened ByteText
  import V = Vault

  /** What a file holds: the entries in order. */
  type Image = seq<V.Entry>

  function Persisted(s: V.State): Image {
    EntriesOf(s.order, s.byPH)
  }

  function EntriesOf(order: seq<Bytes>, byPH: map<Bytes, V.Entry>): Image {
    if order == [] then []
    else (if order[0] in byPH then [byPH[order[0]]] else []) + EntriesOf(order[1..], byPH)
  }

  /** Equality up to use counters, which no operation marks dirty. */
  predicate SameButUses(a: Image, b: Image) {
    |a| == |b| && forall i :: 0 <= i < |a| ==> a[i].(uses := 0) == b[i].(uses := 0)
  }

  // ---- The fields the mutex guards, and the timer runtime behind them

  datatype Control = Control(dirty: bool, timer: Option<nat>, closing: bool, armed: set<nat>, nextTimer: nat)

  function Marked(c: Control): Control {
    if c.closing then c
    else match c.timer
      case Some(id) => c.(dirty := true, armed := c.armed + {id})
      case None => c.(dirty := true, timer := Some(c.nextTimer), armed := c.armed + {c.nextTimer}, nextTimer := c.nextTimer + 1)
  }

  function Cleared(c: Control): Control {
    c.(dirty := false, timer := None)
  }

  function ClosingFrom(c: Control): Control {
    c.(closing := true, armed := if c.timer.Some? then c.armed - {c.timer.value} else c.armed)
  }

  /** fileVault's own fields with the critical sections that touch them. */
  class FileVault {
    var dirty: bool
    var saveTimer: Option<nat>
    var closing: bool
    // the timer runtime: which timers will fire, and the next one to be made
    var armed: set<nat>
    var nextTimer: nat

    constructor ()
      ensures Ctl() == Control(false, None, false, {}, 0)
    {
      dirty, saveTimer, closing, armed, nextTimer := false, None, false, {}, 0;
    }

    function Ctl(): Control
      reads this
    {
      Control(dirty, saveTimer, closing, armed, nextTimer)
    }

    method MarkDirty()
      modifies this
      ensures Ctl() == old(Marked(Ctl()))
      ensures old(closing) ==> Ctl() == old(Ctl())
      ensures !old(closing) ==>
        && dirty && !closing && saveTimer.Some? && armed == old(armed) + {saveTimer.value}
        && saveTimer == (if old(saveTimer).Some? then old(saveTimer) else Some(old(nextTimer)))
        && nextTimer == (if old(saveTimer).Some? then old(nextTimer) else old(nextTimer) + 1)
    {
      if closing {
        return;
      }
      dirty := true;
      if saveTimer.Some? {
        armed := armed + {saveTimer.value};  // Reset
        return;
      }
      saveTimer := Some(nextTimer);  // AfterFunc
      armed := armed + {nextTimer};
      nextTimer := nextTimer + 1;
    }

    /** What the timer callback does before it calls save. */
    method BeginSave()
      modifies this
      ensures Ctl() == old(Cleared(Ctl()))
    {
      dirty := false;
      saveTimer := None;
    }

    /** What Close does before it decides to save. */
    method BeginClose() returns (wasDirty: bool)
      modifies this
      ensures Ctl() == old(ClosingFrom(Ctl())) && wasDirty == old(dirty)
    {
      closing := true;
      if saveTimer.Some? {
        armed := armed - {saveTimer.value};  // Stop
      }
      wasDirty := dirty;
    }
  }

  // ---- The system

  /**
   * A callback's save: about to snapshot, or holding a snapshot to rename into place. A list of saves
   * keeps those that hold one in the order in which they took it.
   */
  datatype Save = Pending | Holding(image: Image)

  datatype Closer = NotClosing | MustSave | HoldingLast(image: Image) | MustCloseMemory | Closed

  /** mutators counts operations between their map update and markDirty; blocked, callbacks waiting for the lock. */
  datatype System = System(
    mem: V.State, disk: Option<Image>, ctl: Control, mutators: nat, blocked: nat, saves: seq<Save>, closer: Closer)

  datatype Step =
    | Mutate(op: V.Op, torn: seq<Save>)
    | MarkUse(ph: Bytes)
    | MarkDirty
    | Fire(id: nat)
    | BeginSave
    | Snapshot(i: nat)
    | Rename(i: nat)
    | FailSave(i: nat)
    | BeginClose
    | CloseSnapshot
    | CloseRename
    | CloseMemory

  /** A snapshot shares binding slices with live entries, so a mutation may change one being written. */
  predicate TornFrom(saves: seq<Save>, torn: seq<Save>) {
    |torn| == |saves| && forall i :: 0 <= i < |saves| ==> saves[i].Pending? == torn[i].Pending?
  }

  predicate Enabled(s: System, step: Step, mk: V.Derivation) {
    match step
    case Mutate(op, torn) => !op.MarkUse? && !op.Close? && (V.Apply(s.mem, op, mk).1.Gives? || V.Apply(s.mem, op, mk).1.Ok?)
                             && TornFrom(s.saves, torn)
    case MarkUse(_) => true
    case MarkDirty => s.mutators > 0
    case Fire(id) => id in s.ctl.armed
    case BeginSave => s.blocked > 0
    case Snapshot(i) => i < |s.saves| && s.saves[i].Pending?
    case Rename(i) => i < |s.saves| && s.saves[i].Holding?
    case FailSave(i) => i < |s.saves|
    case BeginClose => s.closer.NotClosing?
    case CloseSnapshot => s.closer.MustSave?
    case CloseRename => s.closer.HoldingLast?
    case CloseMemory => s.closer.MustCloseMemory?
  }

  function Next(s: System, step: Step, mk: V.Derivation): System
    requires Enabled(s, step, mk)
  {
    match step
    case Mutate(op, torn) => s.(mem := V.Apply(s.mem, op, mk).0, mutators := s.mutators + 1, saves := torn)
    case MarkUse(ph) => s.(mem := V.Apply(s.mem, V.MarkUse(ph), mk).0)
    case MarkDirty => s.(mutators := s.mutators - 1, ctl := Marked(s.ctl))
    case Fire(id) => s.(ctl := s.ctl.(armed := s.ctl.armed - {id}), blocked := s.blocked + 1)
    case BeginSave => s.(ctl := Cleared(s.ctl), blocked := s.blocked - 1, saves := s.saves + [Pending])
    case Snapshot(i) => s.(saves := s.saves[..i] + s.saves[i + 1..] + [Holding(Persisted(s.mem))])
    case Rename(i) => s.(disk := Some(s.saves[i].image), saves := s.saves[..i] + s.saves[i + 1..])
    case FailSave(i) => s.(saves := s.saves[..i] + s.saves[i + 1..])
    case BeginClose => s.(ctl := ClosingFrom(s.ctl), closer := if s.ctl.dirty then MustSave else MustCloseMemory)
    case CloseSnapshot => s.(closer := HoldingLast(Persisted(s.mem)))
    case CloseRename => s.(disk := Some(s.closer.image), closer := MustCloseMemory)
    case CloseMemory => s.(mem := V.Apply(s.mem, V.Close, mk).0, closer := Closed)
  }

  /** The state a sequence of steps leads to, if all are enabled. */
  function RunSteps(s: System, steps: seq<Step>, mk: V.Derivation): Option<System>
    decreases |steps|
  {
    if steps == [] then Some(s)
    else if Enabled(s, steps[0], mk) then RunSteps(Next(s, steps[0], mk), steps[1..], mk)
    else None
  }

  ghost predicate OnDisk(s: System) {
    s.disk.Some? && SameButUses(s.disk.value, Persisted(s.mem))
  }

  // ---- Durability

  /** A vault just opened: loaded and clean, or new and dirty with its first save scheduled. */
  ghost predicate Opened(s: System) {
    && s.mutators == 0 && s.blocked == 0 && s.saves == [] && s.closer == NotClosing && !s.ctl.closing
    && ((OnDisk(s) && s.ctl == Control(false, None, false, {}, 0))
        || s.ctl == Control(true, Some(0), false, {0}, 1))
  }

  /** Saves are renamed in the order of their snapshots, and none fails: the hypotheses of the durability theorem. */
  ghost predicate Ordered(s: System, step: Step) {
    && !step.FailSave?
    && (step.Rename? ==> forall j :: 0 <= j < step.i && j < |s.saves| ==> s.saves[j].Pending?)
  }

  ghost predicate OrderedRun(s: System, steps: seq<Step>, mk: V.Derivation)
    decreases |steps|
  {
    steps != [] ==>
      Ordered(s, steps[0]) && Enabled(s, steps[0], mk) && OrderedRun(Next(s, steps[0], mk), steps[1..], mk)
  }

  /** Saves do not overlap, and none fails. */
  ghost predicate SerialRun(s: System, steps: seq<Step>, mk: V.Derivation)
    decreases |steps|
  {
    steps != [] ==>
      && (steps[0].BeginSave? ==> s.saves == []) && !steps[0].FailSave?
      && Enabled(s, steps[0], mk) && SerialRun(Next(s, steps[0], mk), steps[1..], mk)
  }

  lemma {:induction false} SerialIsOrdered(s: System, steps: seq<Step>, mk: V.Derivation)
    requires SerialRun(s, steps, mk) && |s.saves| <= 1
    ensures OrderedRun(s, steps, mk)
    decreases |steps|
  {
    if steps != [] {
      SerialIsOrdered(Next(s, steps[0], mk), steps[1..], mk);
    }
  }

  /** dirty says a timer is set; while open, unsaved changes always have a callback on its way. */
  ghost predicate WakeupPending(s: System) {
    && (s.ctl.dirty <==> s.ctl.timer.Some?)
    && (s.ctl.closing <==> !s.closer.NotClosing?)
    && (s.ctl.dirty && !s.ctl.closing ==> s.ctl.timer.value in s.ctl.armed || s.blocked > 0)
  }

  ghost predicate AnyPending(saves: seq<Save>) {
    exists i :: 0 <= i < |saves| && saves[i].Pending?
  }

  /** What will be on disk once the saves in flight are through is want. */
  ghost predicate WillHold(saves: seq<Save>, disk: Option<Image>, want: Image) {
    if saves == [] then disk.Some? && SameButUses(disk.value, want)
    else AnyPending(saves) || SameButUses(saves[|saves| - 1].image, want)
  }

  /** When nothing is unsaved, a snapshot is still to be taken, or the latest agrees with memory. */
  ghost predicate Durable(s: System) {
    !s.ctl.closing && !s.ctl.dirty && s.mutators == 0 ==> WillHold(s.saves, s.disk, Persisted(s.mem))
  }

  lemma {:induction false} UsesInvisible(order: seq<Bytes>, byPH: map<Bytes, V.Entry>, ph: Bytes, e: V.Entry)
    requires ph in byPH && e.(uses := 0) == byPH[ph].(uses := 0)
    ensures SameButUses(EntriesOf(order, byPH[ph := e]), EntriesOf(order, byPH))
  {
    if order != [] {
      UsesInvisible(order[1..], byPH, ph, e);
    }
  }

  lemma MarkUseInvisible(s: V.State, ph: Bytes, mk: V.Derivation)
    ensures SameButUses(Persisted(V.Apply(s, V.MarkUse(ph), mk).0), Persisted(s))
  {
    if ph in s.byPH {
      UsesInvisible(s.order, s.byPH, ph, s.byPH[ph].(uses := s.byPH[ph].uses + 1));
    }
  }

  lemma SnapshotHolds(saves: seq<Save>, i: nat, disk: Option<Image>, want: Image)
    requires i < |saves|
    ensures WillHold(saves[..i] + saves[i + 1..] + [Holding(want)], disk, want)
  {
  }

  lemma PendingHolds(saves: seq<Save>, disk: Option<Image>, want: Image)
    ensures WillHold(saves + [Pending], disk, want)
  {
    assert (saves + [Pending])[|saves|].Pending?;
  }

  lemma RenameHolds(saves: seq<Save>, i: nat, disk: Option<Image>, want: Image)
    requires i < |saves| && saves[i].Holding? && (forall j :: 0 <= j < i ==> saves[j].Pending?)
    requires WillHold(saves, disk, want)
    ensures WillHold(saves[..i] + saves[i + 1..], Some(saves[i].image), want)
  {
    var rest := saves[..i] + saves[i + 1..];
    if AnyPending(saves) {
      var k :| 0 <= k < |saves| && saves[k].Pending?;
      assert rest[if k < i then k else k - 1].Pending?;
    } else {
      assert !saves[0].Pending?;
      assert i == 0 && rest == saves[1..];
    }
  }

  lemma UsesHold(saves: seq<Save>, disk: Option<Image>, want: Image, now: Image)
    requires WillHold(saves, disk, want) && SameButUses(now, want)
    ensures WillHold(saves, disk, now)
  {
  }

  lemma StepDurable(s: System, step: Step, mk: V.Derivation)
    requires WakeupPending(s) && Durable(s) && Enabled(s, step, mk) && Ordered(s, step)
    ensures WakeupPending(Next(s, step, mk)) && Durable(Next(s, step, mk))
  {
    var want := Persisted(s.mem);
    match step {
      case Snapshot(i) => SnapshotHolds(s.saves, i, s.disk, want);
      case BeginSave => PendingHolds(s.saves, s.disk, want);
      case Rename(i) => if WillHold(s.saves, s.disk, want) { RenameHolds(s.saves, i, s.disk, want); }
      case MarkUse(ph) =>
        MarkUseInvisible(s.mem, ph, mk);
        if WillHold(s.saves, s.disk, want) { UsesHold(s.saves, s.disk, want, Persisted(Next(s, step, mk).mem)); }
      case _ =>
    }
  }

  lemma {:induction false} DurableRun(s: System, steps: seq<Step>, mk: V.Derivation)
    requires WakeupPending(s) && Durable(s) && OrderedRun(s, steps, mk)
    ensures var end := RunSteps(s, steps, mk); end.Some? && WakeupPending(end.value) && Durable(end.value)
    decreases |steps|
  {
    if steps != [] {
      StepDurable(s, steps[0], mk);
      DurableRun(Next(s, steps[0], mk), steps[1..], mk);
    }
  }

  /**
   * No lost update: along every interleaving from an opened vault in which saves are renamed in the order
   * of their snapshots (as they are when they do not overlap) and none fails, whenever nothing is dirty, no
   * save is in flight and no mutator is short of markDirty, the disk equals memory up to use counters; and
   * what is dirty has a callback on its way.
   */
  lemma NoLostUpdate(s: System, steps: seq<Step>, mk: V.Derivation)
    requires Opened(s) && OrderedRun(s, steps, mk)
    ensures var end := RunSteps(s, steps, mk);
      && end.Some? && WakeupPending(end.value)
      && (var t := end.value;
          !t.ctl.closing && !t.ctl.dirty && t.mutators == 0 && t.saves == [] ==> OnDisk(t))
  {
    DurableRun(s, steps, mk);
  }

  // ---- Close

  lemma {:induction false} RunConcat(s: System, a: seq<Step>, b: seq<Step>, mk: V.Derivation)
    requires RunSteps(s, a, mk).Some?
    ensures RunSteps(s, a + b, mk) == RunSteps(RunSteps(s, a, mk).value, b, mk)
    decreases |a|
  {
    if a == [] {
      assert a + b == b;
    } else {
      assert (a + b)[1..] == a[1..] + b;
      RunConcat(Next(s, a[0], mk), a[1..], b, mk);
    }
  }

  lemma RunOne(s: System, step: Step, mk: V.Derivation)
    requires Enabled(s, step, mk)
    ensures RunSteps(s, [step], mk) == Some(Next(s, step, mk))
  {
    assert [step][1..] == [];
  }

  lemma Extend(s: System, a: seq<Step>, step: Step, mk: V.Derivation) returns (t: System)
    requires RunSteps(s, a, mk).Some? && Enabled(RunSteps(s, a, mk).value, step, mk)
    ensures t == Next(RunSteps(s, a, mk).value, step, mk) && RunSteps(s, a + [step], mk) == Some(t)
  {
    RunConcat(s, a, [step], mk);
    RunOne(RunSteps(s, a, mk).value, step, mk);
    t := Next(RunSteps(s, a, mk).value, step, mk);
  }

  ghost predicate Calm(steps: seq<Step>) {
    forall i :: 0 <= i < |steps| ==> !steps[i].Mutate? && !steps[i].FailSave?
  }

  /** A run of Close, to its return or beyond, with whatever callbacks interleave but no new mutation. */
  ghost predicate CloseRun(s: System, steps: seq<Step>, mk: V.Derivation, end: System) {
    && steps != [] && steps[0] == BeginClose && Calm(steps)
    && RunSteps(s, steps, mk) == Some(end) && end.closer == Closed
  }

  ghost predicate Settled(save: Save, want: Image) {
    save.Holding? && SameButUses(save.image, want)
  }

  /**
   * What must hold when Close starts: no callback waits or is about to snapshot, no stray timer is
   * armed, a snapshot in flight is up to date, and what is not marked dirty is already on disk.
   */
  ghost predicate Quiet(s: System) {
    && s.blocked == 0
    && (forall id :: id in s.ctl.armed ==> s.ctl.timer == Some(id))
    && (forall i :: 0 <= i < |s.saves| ==> Settled(s.saves[i], Persisted(s.mem)))
    && (s.ctl.dirty || OnDisk(s))
  }

  ghost predicate ClosePhase(s: System, want: Image) {
    && s.ctl.closing && s.blocked == 0 && s.ctl.armed == {}
    && (forall i :: 0 <= i < |s.saves| ==> Settled(s.saves[i], want))
    && match s.closer
       case NotClosing => false
       case MustSave => SameButUses(Persisted(s.mem), want)
       case HoldingLast(image) => SameButUses(image, want)
       case MustCloseMemory => s.disk.Some? && SameButUses(s.disk.value, want)
       case Closed => s.disk.Some? && SameButUses(s.disk.value, want)
  }

  lemma ClosePhaseStep(s: System, step: Step, mk: V.Derivation, want: Image)
    requires ClosePhase(s, want) && Enabled(s, step, mk) && !step.Mutate? && !step.FailSave?
    ensures ClosePhase(Next(s, step, mk), want)
  {
    if step.MarkUse? {
      MarkUseInvisible(s.mem, step.ph, mk);
    }
  }

  lemma {:induction false} ClosePhaseRun(s: System, steps: seq<Step>, mk: V.Derivation, want: Image)
    requires ClosePhase(s, want) && Calm(steps) && RunSteps(s, steps, mk).Some?
    ensures ClosePhase(RunSteps(s, steps, mk).value, want)
    decreases |steps|
  {
    if steps != [] {
      ClosePhaseStep(s, steps[0], mk, want);
      ClosePhaseRun(Next(s, steps[0], mk), steps[1..], mk, want);
    }
  }

  lemma QuietCloseKeeps(s: System, steps: seq<Step>, mk: V.Derivation, end: System)
    requires s.closer == NotClosing && Quiet(s) && CloseRun(s, steps, mk, end)
    ensures end.disk.Some? && SameButUses(end.disk.value, Persisted(s.mem))
  {
    var t := Next(s, BeginClose, mk);
    assert ClosePhase(t, Persisted(s.mem));
    ClosePhaseRun(t, steps[1..], mk, Persisted(s.mem));
  }

  /** Close on its own: it saves if dirty, then closes the memory; callbacks are untouched. */
  lemma CloseAlone(s: System, mk: V.Derivation) returns (steps: seq<Step>, t: System)
    requires s.closer == NotClosing
    ensures CloseRun(s, steps, mk, t)
    ensures Persisted(t.mem) == [] && t.saves == s.saves && t.blocked == s.blocked && t.ctl == ClosingFrom(s.ctl)
    ensures !s.ctl.dirty ==> t.disk == s.disk
  {
    steps, t := BeforeCloseMemory(s, mk);
    t := Extend(s, steps, CloseMemory, mk);
    steps := steps + [CloseMemory];
  }

  lemma BeforeCloseMemory(s: System, mk: V.Derivation) returns (steps: seq<Step>, t: System)
    requires s.closer == NotClosing
    ensures steps != [] && steps[0] == BeginClose && Calm(steps) && RunSteps(s, steps, mk) == Some(t)
    ensures t.closer == MustCloseMemory && t.saves == s.saves && t.blocked == s.blocked && t.ctl == ClosingFrom(s.ctl)
    ensures !s.ctl.dirty ==> t.disk == s.disk
  {
    steps := [BeginClose];
    RunOne(s, BeginClose, mk);
    t := Next(s, BeginClose, mk);
    if s.ctl.dirty {
      t := Extend(s, steps, CloseSnapshot, mk);
      steps := steps + [CloseSnapshot];
      t := Extend(s, steps, CloseRename, mk);
      steps := steps + [CloseRename];
    }
  }

  lemma ExtendClose(s: System, steps: seq<Step>, t: System, step: Step, mk: V.Derivation) returns (more: seq<Step>, u: System)
    requires CloseRun(s, steps, mk, t) && Enabled(t, step, mk) && !step.Mutate? && !step.FailSave?
    ensures u == Next(t, step, mk) && (u.closer == Closed ==> CloseRun(s, more, mk, u))
  {
    u := Extend(s, steps, step, mk);
    more := steps + [step];
  }

  /** A pending save that outlives Close writes an empty vault over the file. */
  lemma PendingWipes(s: System, steps: seq<Step>, t: System, i: nat, mk: V.Derivation) returns (more: seq<Step>, u: System)
    requires CloseRun(s, steps, mk, t) && i < |t.saves| && t.saves[i].Pending? && Persisted(t.mem) == []
    ensures CloseRun(s, more, mk, u) && u.disk == Some([])
  {
    more, u := ExtendClose(s, steps, t, Snapshot(i), mk);
    more, u := ExtendClose(s, more, u, Rename(|t.saves| - 1), mk);
  }

  /** If the vault is not quiet when Close starts, some run loses what was in it. */
  lemma UnquietCloseLoses(s: System, mk: V.Derivation) returns (steps: seq<Step>, end: System)
    requires s.closer == NotClosing && Persisted(s.mem) != [] && !Quiet(s)
    ensures CloseRun(s, steps, mk, end) && !(end.disk.Some? && SameButUses(end.disk.value, Persisted(s.mem)))
  {
    steps, end := CloseAlone(s, mk);
    if !s.ctl.dirty && !OnDisk(s) {
    } else if i :| 0 <= i < |s.saves| && !Settled(s.saves[i], Persisted(s.mem)) {
      if s.saves[i].Pending? {
        steps, end := PendingWipes(s, steps, end, i, mk);
      } else {
        steps, end := ExtendClose(s, steps, end, Rename(i), mk);
      }
    } else {
      if s.blocked == 0 {
        var id :| id in s.ctl.armed && s.ctl.timer != Some(id);
        steps, end := ExtendClose(s, steps, end, Fire(id), mk);
      }
      var n := |s.saves|;
      steps, end := ExtendClose(s, steps, end, BeginSave, mk);
      steps, end := PendingWipes(s, steps, end, n, mk);
    }
  }

  /**
   * Exactly when everything in the vault as Close starts is on disk once Close has returned, and stays there: when the
   * vault is quiet then. A mutation that has yet to mark the vault dirty finds it closing and does not.
   */
  lemma CloseKeepsExactly(s: System, mk: V.Derivation)
    requires s.closer == NotClosing && Persisted(s.mem) != []
    ensures Quiet(s) <==>
      forall steps, end :: CloseRun(s, steps, mk, end) ==> end.disk.Some? && SameButUses(end.disk.value, Persisted(s.mem))
  {
    if Quiet(s) {
      forall steps, end | CloseRun(s, steps, mk, end)
        ensures end.disk.Some? && SameButUses(end.disk.value, Persisted(s.mem))
      {
        QuietCloseKeeps(s, steps, mk, end);
      }
    } else {
      var steps, end := UnquietCloseLoses(s, mk);
    }
  }

  /**
   * The same from an opened vault, told by its control fields: with no mutator short of markDirty and no save in
   * flight, what returned before Close is on disk after it, in every interleaving, exactly when no callback
   * waits for the lock and no timer but the current one is armed.
   */
  lemma CloseAfterRunExactly(s0: System, steps: seq<Step>, s: System, mk: V.Derivation)
    requires Opened(s0) && OrderedRun(s0, steps, mk) && RunSteps(s0, steps, mk) == Some(s)
    requires s.closer == NotClosing && s.mutators == 0 && s.saves == [] && Persisted(s.mem) != []
    ensures s.blocked == 0 && (forall id :: id in s.ctl.armed ==> s.ctl.timer == Some(id)) <==>
      forall more, end :: CloseRun(s, more, mk, end) ==> end.disk.Some? && SameButUses(end.disk.value, Persisted(s.mem))
  {
    NoLostUpdate(s0, steps, mk);
    CloseKeepsExactly(s, mk);
  }

  // ---- The two hypotheses of NoLostUpdate are needed

  ghost predicate AtRest(s: System) {
    && s.ctl.timer == None && !s.ctl.dirty && !s.ctl.closing && s.ctl.armed == {}
    && s.mutators == 0 && s.blocked == 0 && s.closer == NotClosing
  }

  /** One mutation, its callback and its snapshot, with the rename still to come. */
  lemma SnapshotCycle(s: System, op: V.Op, mk: V.Derivation) returns (steps: seq<Step>, t: System)
    requires AtRest(s) && Enabled(s, Mutate(op, s.saves), mk)
    ensures RunSteps(s, steps, mk) == Some(t) && AtRest(t) && t.mem == V.Apply(s.mem, op, mk).0
    ensures t.saves == s.saves + [Holding(Persisted(t.mem))] && t.disk == s.disk
  {
    var id, n := s.ctl.nextTimer, |s.saves|;
    steps := [Mutate(op, s.saves)];
    RunOne(s, steps[0], mk);
    t := Extend(s, steps, MarkDirty, mk);
    steps := steps + [MarkDirty];
    t := Extend(s, steps, Fire(id), mk);
    steps := steps + [Fire(id)];
    t := Extend(s, steps, BeginSave, mk);
    steps := steps + [BeginSave];
    t := Extend(s, steps, Snapshot(n), mk);
    steps := steps + [Snapshot(n)];
  }

  /** Two overlapping saves renamed in the wrong order: all is at rest and the second update is lost. */
  lemma OverlapLosesUpdate(s: System, op1: V.Op, op2: V.Op, mk: V.Derivation) returns (steps: seq<Step>, t: System)
    requires AtRest(s) && s.saves == [] && Enabled(s, Mutate(op1, []), mk)
    requires var mid := V.Apply(s.mem, op1, mk).0;
      && (V.Apply(mid, op2, mk).1.Gives? || V.Apply(mid, op2, mk).1.Ok?) && !op2.MarkUse? && !op2.Close?
      && !SameButUses(Persisted(mid), Persisted(V.Apply(mid, op2, mk).0))
    ensures RunSteps(s, steps, mk) == Some(t) && AtRest(t) && t.saves == [] && !OnDisk(t)
  {
    steps, t := SnapshotCycle(s, op1, mk);
    var more, u := SnapshotCycle(t, op2, mk);
    RunConcat(s, steps, more, mk);
    steps := steps + more;
    t := Extend(s, steps, Rename(1), mk);
    steps := steps + [Rename(1)];
    t := Extend(s, steps, Rename(0), mk);
    steps := steps + [Rename(0)];
  }

  /** A background save whose error is dropped: all is at rest and the update is not on disk. */
  lemma FailedSaveLosesUpdate(s: System, op: V.Op, mk: V.Derivation) returns (steps: seq<Step>, t: System)
    requires AtRest(s) && s.saves == [] && Enabled(s, Mutate(op, []), mk)
    requires s.disk.Some? ==> !SameButUses(s.disk.value, Persisted(V.Apply(s.mem, op, mk).0))
    ensures RunSteps(s, steps, mk) == Some(t) && AtRest(t) && t.saves == [] && !OnDisk(t)
  {
    steps, t := SnapshotCycle(s, op, mk);
    t := Extend(s, steps, FailSave(0), mk);
    steps := steps + [FailSave(0)];
  }
}
