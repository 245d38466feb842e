/** The vault told from the outside: by the operations a caller issued and their answers, entry by entry, without indexes. */
module History {
  import opened ByteText
  import opened Sequences
  import opened Hosts
  import opened Vault

  datatype Event = Event(op: Op, answer: Answer)

  function Log(s: State, ops: seq<Op>, mk: Derivation): seq<Event>
    decreases |ops|
  {
    if ops == [] then []
    else var (t, answer) := Apply(s, ops[0], mk); [Event(ops[0], answer)] + Log(t, ops[1..], mk)
  }

  function Elements(s: seq<Bytes>): set<Bytes> {
    set x | x in s
  }

  /** What a caller knows of a placeholder. */
  datatype Life = Life(value: Bytes, hosts: set<Bytes>, status: Status, uses: nat, kind: string, source: string)

  /**
   * Register makes an entry, to be reviewed, or adds hosts to one; Bind adds hosts and Unbind removes them; SetStatus and
   * Rotate set; MarkUse counts; Delete clears.
   */
  function LifeStep(life: Option<Life>, e: Event, ph: Bytes): Option<Life> {
    match life
    case None =>
      if e.op.Register? && e.answer.Gives? && e.answer.e.placeholder == ph
      then Some(Life(e.op.value, Elements(e.op.hosts), PendingReview, 0, e.op.kind, e.op.source)) else None
    case Some(l) =>
      match e.op
      case Register(_, _, _, add) =>
        if e.answer.Gives? && e.answer.e.placeholder == ph then Some(l.(hosts := l.hosts + Elements(add))) else life
      case Bind(p, add) => if p == ph then Some(l.(hosts := l.hosts + Elements(add))) else life
      case Unbind(p, drop) => if p == ph then Some(l.(hosts := l.hosts - Elements(drop))) else life
      case SetStatus(p, status) => if p == ph then Some(l.(status := status)) else life
      case Rotate(p, newValue) => if p == ph then Some(l.(value := newValue)) else life
      case MarkUse(p) => if p == ph then Some(l.(uses := l.uses + 1)) else life
      case Delete(p) => if p == ph then None else life
      case Close => None
  }

  function LifeAfter(life: Option<Life>, log: seq<Event>, ph: Bytes): Option<Life>
    decreases |log|
  {
    if log == [] then life else LifeAfter(LifeStep(life, log[0], ph), log[1..], ph)
  }

  function Told(e: Entry): Life {
    Life(e.value, Elements(e.bindings), e.status, e.uses, e.kind, e.source)
  }

  function LifeOf(s: State, ph: Bytes): Option<Life> {
    if ph in s.byPH then Some(Told(s.byPH[ph])) else None
  }

  lemma MergedElements(a: seq<Bytes>, b: seq<Bytes>)
    ensures Elements(Merged(a, b)) == Elements(a) + Elements(b)
  {
    forall x ensures x in Merged(a, b) <==> x in a || x in b {
      DistinctElements(a + b, {}, x);
    }
  }

  lemma {:induction false} DistinctPrefix(a: seq<Bytes>, b: seq<Bytes>, seen: set<Bytes>)
    ensures Distinct(a, seen) <= Distinct(a + b, seen)
  {
    if a == [] {
      assert a + b == b;
    } else {
      assert (a + b)[1..] == a[1..] + b;
      DistinctPrefix(a[1..], b, seen);
      DistinctPrefix(a[1..], b, seen + {a[0]});
    }
  }

  /** Merged bindings list every host once, the old ones first and as they were, if none was listed twice. */
  lemma MergedOnce(a: seq<Bytes>, b: seq<Bytes>)
    ensures forall i, j :: 0 <= i < j < |Merged(a, b)| ==> Merged(a, b)[i] != Merged(a, b)[j]
    ensures (forall i, j :: 0 <= i < j < |a| ==> a[i] != a[j]) ==> a <= Merged(a, b)
  {
    forall i, j | 0 <= i < j < |Merged(a, b)| ensures Merged(a, b)[i] != Merged(a, b)[j] {
      DistinctHasNoRepeats(a + b, {}, i, j);
    }
    DistinctPrefix(a, b, {});
    if forall i, j :: 0 <= i < j < |a| ==> a[i] != a[j] {
      DistinctAlready(a, {});
    }
  }

  lemma {:induction false} DistinctAlready(a: seq<Bytes>, seen: set<Bytes>)
    requires (forall i, j :: 0 <= i < j < |a| ==> a[i] != a[j]) && forall i :: 0 <= i < |a| ==> a[i] !in seen
    ensures Distinct(a, seen) == a
  {
    if a != [] {
      DistinctAlready(a[1..], seen + {a[0]});
    }
  }

  lemma {:induction false} ExceptElement<T>(s: seq<T>, skip: seq<T>, x: T)
    ensures x in Except(s, skip) <==> x in s && x !in skip
  {
    if s != [] {
      ExceptElement(s[1..], skip, x);
    }
  }

  lemma ExceptElements(s: seq<Bytes>, skip: seq<Bytes>)
    ensures Elements(Except(s, skip)) == Elements(s) - Elements(skip)
  {
    forall x ensures x in Except(s, skip) <==> x in s && x !in skip {
      ExceptElement(s, skip, x);
    }
  }

  lemma StepHistory(s: State, op: Op, mk: Derivation, ph: Bytes)
    requires Consistent(s) && Admissible(s, op, mk) && !s.closed
    ensures var (t, answer) := Apply(s, op, mk); LifeOf(t, ph) == LifeStep(LifeOf(s, ph), Event(op, answer), ph)
  {
    if op.Register? {
      RegisterHosts(s, op.value, op.kind, op.source, op.hosts, mk, ph);
    } else if !op.Close? && op.ph in s.byPH {
      UpdateTold(s, op, mk, ph);
    }
  }

  lemma UpdateTold(s: State, op: Op, mk: Derivation, ph: Bytes)
    requires !op.Register? && !op.Close? && op.ph in s.byPH
    ensures LifeOf(UpdateEntry(s, op.ph, op), ph) == LifeStep(LifeOf(s, ph), Event(op, Ok), ph)
  {
    match op {
      case Bind(p, hosts) => MergedElements(s.byPH[p].bindings, hosts);
      case Unbind(p, hosts) => ExceptElements(s.byPH[p].bindings, hosts);
      case _ =>
    }
  }

  lemma RegisterHosts(s: State, value: Bytes, kind: string, source: string, hosts: seq<Bytes>, mk: Derivation, ph: Bytes)
    requires Inverse(s) && (value in s.byValue || mk(value) !in s.byPH) && !s.closed
    ensures var op := Register(value, kind, source, hosts);
      var (t, answer) := Apply(s, op, mk); LifeOf(t, ph) == LifeStep(LifeOf(s, ph), Event(op, answer), ph)
  {
    if value in s.byValue {
      MergedElements(s.byPH[s.byValue[value]].bindings, hosts);
    }
  }

  predicate NoClose(ops: seq<Op>) {
    forall i :: 0 <= i < |ops| ==> !ops[i].Close?
  }

  /** After any admissible run, all there is to know of a placeholder is the fold of its history. */
  lemma {:induction false} HistorySemantics(s: State, ops: seq<Op>, mk: Derivation, ph: Bytes)
    requires Consistent(s) && AdmissibleRun(s, ops, mk) && !s.closed && NoClose(ops)
    ensures var t := Run(s, ops, mk);
      Consistent(t) && !t.closed && LifeOf(t, ph) == LifeAfter(LifeOf(s, ph), Log(s, ops, mk), ph)
    decreases |ops|
  {
    if ops != [] {
      var t := Apply(s, ops[0], mk).0;
      StepHistory(s, ops[0], mk, ph);
      ApplyConsistentExactly(s, ops[0], mk);
      HistorySemantics(t, ops[1..], mk, ph);
      assert Log(s, ops, mk)[1..] == Log(t, ops[1..], mk);
    }
  }

  /** What a run from an empty vault has made of a placeholder. */
  function LifeIn(ops: seq<Op>, mk: Derivation, ph: Bytes): Option<Life> {
    LifeAfter(None, Log(EMPTY, ops, mk), ph)
  }

  lemma KnownByHistory(ops: seq<Op>, mk: Derivation)
    requires AdmissibleRun(EMPTY, ops, mk) && NoClose(ops)
    ensures var s := Run(EMPTY, ops, mk); Consistent(s) && !s.closed && forall ph :: LifeOf(s, ph) == LifeIn(ops, mk, ph)
  {
    HistorySemantics(EMPTY, ops, mk, []);
    forall ph ensures LifeOf(Run(EMPTY, ops, mk), ph) == LifeIn(ops, mk, ph) {
      HistorySemantics(EMPTY, ops, mk, ph);
    }
  }

  /**
   * Resolve, told by history alone: the last value given to the placeholder, exactly when some host pattern bound to it
   * and not unbound since admits the destination.
   */
  lemma ResolveByHistory(ops: seq<Op>, mk: Derivation, ph: Bytes, host: Bytes)
    requires AdmissibleRun(EMPTY, ops, mk) && NoClose(ops)
    ensures Resolve(Run(EMPTY, ops, mk), ph, host) ==
      match LifeIn(ops, mk, ph)
      case None => Refused(NotFound)
      case Some(l) => if exists pat :: pat in l.hosts && Admits(pat, host) then Value(l.value) else Refused(BindingMismatch)
  {
    HistorySemantics(EMPTY, ops, mk, ph);
    var s := Run(EMPTY, ops, mk);
    if ph in s.byPH {
      assert forall pat :: pat in s.byPH[ph].bindings <==> pat in LifeOf(s, ph).value.hosts;
      forall pat ensures MatchHost(pat, host) <==> Admits(pat, host) { MatchesAsAdmits(pat, host); }
    }
  }

  /** Where no wildcard is bound, it is the bound hosts that resolve, letter for letter. */
  lemma ResolveBoundHosts(ops: seq<Op>, mk: Derivation, ph: Bytes, host: Bytes)
    requires AdmissibleRun(EMPTY, ops, mk) && NoClose(ops)
    requires LifeIn(ops, mk, ph).Some? && forall pat :: pat in LifeIn(ops, mk, ph).value.hosts ==> !IsWildcard(pat)
    ensures var l := LifeIn(ops, mk, ph).value;
      Resolve(Run(EMPTY, ops, mk), ph, host) == if host in l.hosts then Value(l.value) else Refused(BindingMismatch)
  {
    ResolveByHistory(ops, mk, ph, host);
    var l := LifeIn(ops, mk, ph).value;
    forall pat | pat in l.hosts ensures Admits(pat, host) <==> pat == host {
      LiteralAdmits(pat, host);
      MatchesAsAdmits(pat, host);
    }
  }

  /** A value is known to the detector exactly when it is the last one of some entry that was not last rejected or archived. */
  lemma ActiveByHistory(ops: seq<Op>, mk: Derivation, v: Bytes)
    requires AdmissibleRun(EMPTY, ops, mk) && NoClose(ops)
    ensures v in ActiveValues(Run(EMPTY, ops, mk)) <==>
      exists ph :: match LifeIn(ops, mk, ph) case None => false
                   case Some(l) => l.value == v && l.status in {PendingReview, Accepted, RotationNeeded}
  {
    var s := Run(EMPTY, ops, mk);
    KnownByHistory(ops, mk);
    if ph :| ph in s.byPH && !s.byPH[ph].status.Rejected? && !s.byPH[ph].status.Archived? && s.byPH[ph].value == v {
      assert LifeIn(ops, mk, ph) == LifeOf(s, ph);
    }
  }

  /** Some live entry has the value. */
  ghost predicate Held(ops: seq<Op>, mk: Derivation, value: Bytes, ph: Bytes) {
    LifeIn(ops, mk, ph).Some? && LifeIn(ops, mk, ph).value.value == value
  }

  lemma RegisterAnswers(s: State, op: Op, mk: Derivation) returns (e: Entry)
    requires Consistent(s) && !s.closed && op.Register? && Admissible(s, op, mk)
    ensures Apply(s, op, mk).1 == Gives(e) && e.value == op.value
    ensures e.placeholder == mk(op.value) || (e.placeholder in s.byPH && s.byPH[e.placeholder].value == op.value)
    ensures forall ph :: ph in s.byPH && s.byPH[ph].value == op.value ==> e.placeholder == ph
    ensures Some(Told(e)) == LifeStep(LifeOf(s, e.placeholder), Event(op, Gives(e)), e.placeholder)
  {
    ConsistentNeverPanics(s, op, mk);
    e := Apply(s, op, mk).1.e;
    RegisterHosts(s, op.value, op.kind, op.source, op.hosts, mk, e.placeholder);
  }

  /**
   * What the next operation answers, told by history: Register the entry as it then is, under the placeholder that has the
   * value or else the derived one; the others whether the entry is there.
   */
  lemma AnswerByHistory(ops: seq<Op>, mk: Derivation, op: Op)
    requires AdmissibleRun(EMPTY, ops, mk) && NoClose(ops) && Admissible(Run(EMPTY, ops, mk), op, mk)
    ensures var answer := Apply(Run(EMPTY, ops, mk), op, mk).1;
      match op
      case Register(value, _, _, _) =>
        && answer.Gives? && answer.e.value == value
        && (answer.e.placeholder == mk(value) || Held(ops, mk, value, answer.e.placeholder))
        && (forall ph :: Held(ops, mk, value, ph) ==> answer.e.placeholder == ph)
        && Some(Told(answer.e)) ==
             LifeStep(LifeIn(ops, mk, answer.e.placeholder), Event(op, answer), answer.e.placeholder)
      case MarkUse(_) => answer == Ok
      case Close => answer == Ok
      case _ => answer == if LifeIn(ops, mk, op.ph).Some? then Ok else Fails(NotFound)
  {
    var s := Run(EMPTY, ops, mk);
    KnownByHistory(ops, mk);
    if op.Register? {
      var e := RegisterAnswers(s, op, mk);
      assert LifeOf(s, e.placeholder) == LifeIn(ops, mk, e.placeholder);
      forall ph | Held(ops, mk, op.value, ph) ensures e.placeholder == ph {
        assert LifeOf(s, ph) == LifeIn(ops, mk, ph);
      }
    } else if !op.Close? {
      assert LifeOf(s, op.ph) == LifeIn(ops, mk, op.ph);
    }
  }

  // ---- After Close

  /** Once closed a vault knows and does nothing, for good. */
  lemma {:induction false} ClosedForGood(s: State, ops: seq<Op>, mk: Derivation)
    requires s.closed && s.byPH == map[]
    ensures Run(s, ops, mk).closed && |Log(s, ops, mk)| == |ops|
    ensures forall i :: 0 <= i < |ops| ==>
      Log(s, ops, mk)[i].answer == if ops[i].Close? || ops[i].MarkUse? then Ok else Fails(Closed)
    ensures forall ph, host :: Resolve(Run(s, ops, mk), ph, host) == Refused(Closed)
    ensures ActiveValues(Run(s, ops, mk)) == {}
    decreases |ops|
  {
    if ops != [] {
      ClosedForGood(Apply(s, ops[0], mk).0, ops[1..], mk);
    }
  }

  /** Close closes, whatever the vault holds. */
  lemma CloseCloses(s: State, ops: seq<Op>, mk: Derivation)
    ensures var t := Run(s, [Close] + ops, mk);
      ActiveValues(t) == {} && forall ph, host :: Resolve(t, ph, host) == Refused(Closed)
  {
    assert ([Close] + ops)[0] == Close && ([Close] + ops)[1..] == ops;
    ClosedForGood(Apply(s, Close, mk).0, ops, mk);
  }
}
