/** The in-memory vault as a state machine over values: maps, order and identifiers. */
module Vault {
  import opened ByteText
  import opened Sequences
  import opened Hosts

  datatype Status = PendingReview | Accepted | RotationNeeded | Rejected | Archived

  datatype Entry = Entry(
    id: nat, placeholder: Bytes, value: Bytes, kind: string, source: string,
    bindings: seq<Bytes>, status: Status, uses: nat)

  datatype State = State(
    byPH: map<Bytes, Entry>, byValue: map<Bytes, Bytes>, order: seq<Bytes>, nextID: nat, closed: bool)

  const EMPTY := State(map[], map[], [], 0, false)

  datatype VaultError = NotFound | BindingMismatch | Closed

  /** Panic is Go's nil dereference: the value index names an entry that is gone. */
  datatype Answer = Gives(e: Entry) | Ok | Fails(error: VaultError) | Panic

  datatype Op =
    | Register(value: Bytes, kind: string, source: string, hosts: seq<Bytes>)
    | Bind(ph: Bytes, hosts: seq<Bytes>)
    | Unbind(ph: Bytes, hosts: seq<Bytes>)
    | SetStatus(ph: Bytes, status: Status)
    | Rotate(ph: Bytes, newValue: Bytes)
    | Delete(ph: Bytes)
    | MarkUse(ph: Bytes)
    | Close

  /** makePlaceholder for the vault's master secret: an arbitrary function into placeholders. */
  type Derivation = Bytes -> Bytes

  ghost predicate DerivesPlaceholders(mk: Derivation) {
    forall v :: IsPlaceholder(mk(v))
  }

  // ---- Operations

  function Merged(existing: seq<Bytes>, add: seq<Bytes>): seq<Bytes> {
    Distinct(existing + add, {})
  }

  function Except<T(==)>(s: seq<T>, skip: seq<T>): seq<T> {
    if s == [] then []
    else if s[0] in skip then Except(s[1..], skip)
    else [s[0]] + Except(s[1..], skip)
  }

  /** The first position of x in s, or |s|. */
  function Find<T(==)>(s: seq<T>, x: T): (i: nat)
    ensures i <= |s| && x !in s[..i] && (i < |s| ==> s[i] == x)
  {
    if s == [] || s[0] == x then 0 else 1 + Find(s[1..], x)
  }

  function RemoveFirst<T(==)>(s: seq<T>, x: T): seq<T> {
    var i := Find(s, x);
    if i == |s| then s else s[..i] + s[i + 1..]
  }

  function RegisterIn(s: State, value: Bytes, kind: string, source: string, hosts: seq<Bytes>, mk: Derivation): (State, Answer) {
    if s.closed then (s, Fails(Closed))
    else if value in s.byValue then
      var ph := s.byValue[value];
      if ph !in s.byPH then (s, Panic)
      else
        var e := s.byPH[ph].(bindings := Merged(s.byPH[ph].bindings, hosts));
        (s.(byPH := s.byPH[ph := e]), Gives(e))
    else
      var ph := mk(value);
      var e := Entry(s.nextID + 1, ph, value, kind, source, hosts, PendingReview, 0);
      (State(s.byPH[ph := e], s.byValue[value := ph], s.order + [ph], s.nextID + 1, false), Gives(e))
  }

  function RotateIn(s: State, ph: Bytes, newValue: Bytes): State
    requires ph in s.byPH
  {
    var e := s.byPH[ph];
    s.(byPH := s.byPH[ph := e.(value := newValue)], byValue := (s.byValue - {e.value})[newValue := ph])
  }

  function DeleteIn(s: State, ph: Bytes): State
    requires ph in s.byPH
  {
    s.(byPH := s.byPH - {ph}, byValue := s.byValue - {s.byPH[ph].value}, order := RemoveFirst(s.order, ph))
  }

  function UpdateEntry(s: State, ph: Bytes, op: Op): State
    requires ph in s.byPH
  {
    var e := s.byPH[ph];
    match op
    case Bind(_, hosts) => s.(byPH := s.byPH[ph := e.(bindings := Merged(e.bindings, hosts))])
    case Unbind(_, hosts) => s.(byPH := s.byPH[ph := e.(bindings := Except(e.bindings, hosts))])
    case SetStatus(_, status) => s.(byPH := s.byPH[ph := e.(status := status)])
    case MarkUse(_) => s.(byPH := s.byPH[ph := e.(uses := e.uses + 1)])
    case Rotate(_, newValue) => RotateIn(s, ph, newValue)
    case Delete(_) => DeleteIn(s, ph)
    case Register(_, _, _, _) => s
    case Close => s
  }

  function Apply(s: State, op: Op, mk: Derivation): (State, Answer) {
    match op
    case Register(value, kind, source, hosts) => RegisterIn(s, value, kind, source, hosts, mk)
    case Close => (State(map[], map[], [], s.nextID, true), Ok)
    case MarkUse(ph) => (if ph in s.byPH then UpdateEntry(s, ph, op) else s, Ok)
    case _ =>
      if s.closed then (s, Fails(Closed))
      else if op.ph !in s.byPH then (s, Fails(NotFound))
      else (UpdateEntry(s, op.ph, op), Ok)
  }

  datatype Resolution = Value(v: Bytes) | Refused(error: VaultError)

  function Resolve(s: State, ph: Bytes, host: Bytes): Resolution {
    if s.closed then Refused(Closed)
    else if ph !in s.byPH then Refused(NotFound)
    else if exists pat :: pat in s.byPH[ph].bindings && MatchHost(pat, host) then Value(s.byPH[ph].value)
    else Refused(BindingMismatch)
  }

  /** Values the detector is given: those of entries neither rejected nor archived. */
  ghost function ActiveValues(s: State): set<Bytes> {
    set ph | ph in s.byPH && !s.byPH[ph].status.Rejected? && !s.byPH[ph].status.Archived? :: s.byPH[ph].value
  }

  // ---- Index consistency

  ghost predicate Inverse(s: State) {
    && (forall p :: p in s.byPH ==>
          s.byPH[p].placeholder == p && s.byPH[p].value in s.byValue && s.byValue[s.byPH[p].value] == p)
    && (forall v :: v in s.byValue ==> s.byValue[v] in s.byPH && s.byPH[s.byValue[v]].value == v)
  }

  /** order lists exactly the keys. */
  ghost predicate Lists(order: seq<Bytes>, byPH: map<Bytes, Entry>) {
    forall p :: p in byPH <==> p in order
  }

  /** Identifiers rise strictly along order (so it has no repeats) and stay within nextID. */
  ghost predicate Rises(order: seq<Bytes>, byPH: map<Bytes, Entry>, nextID: nat) {
    && (forall i :: 0 <= i < |order| ==> order[i] in byPH && 1 <= byPH[order[i]].id <= nextID)
    && (forall i, j :: 0 <= i < j < |order| ==> byPH[order[i]].id < byPH[order[j]].id)
  }

  /** The two maps invert each other; order lists the live placeholders once each, by rising identifier. */
  ghost predicate Consistent(s: State) {
    Inverse(s) && Lists(s.order, s.byPH) && Rises(s.order, s.byPH, s.nextID)
  }

  /** The guard of the two operations that can break consistency. */
  predicate Admissible(s: State, op: Op, mk: Derivation) {
    match op
    case Register(value, _, _, _) => s.closed || value in s.byValue || mk(value) !in s.byPH
    case Rotate(ph, newValue) => s.closed || ph !in s.byPH || newValue !in s.byValue || s.byValue[newValue] == ph
    case _ => true
  }

  /** Where the elements of order other than the one at i stand once that one is dropped. */
  lemma Dropped<T>(order: seq<T>, i: nat)
    requires i < |order|
    ensures var rest := order[..i] + order[i + 1..];
      && (forall k :: 0 <= k < |rest| ==> rest[k] == order[if k < i then k else k + 1])
      && (forall k :: 0 <= k < |order| && k != i ==> order[k] in rest)
  {
    var rest := order[..i] + order[i + 1..];
    forall k | 0 <= k < |order| && k != i ensures order[k] in rest {
      assert rest[if k < i then k else k - 1] == order[k];
    }
  }

  lemma RisesDistinct(order: seq<Bytes>, byPH: map<Bytes, Entry>, nextID: nat, i: nat, k: nat)
    requires Rises(order, byPH, nextID) && i < |order| && k < |order| && i != k
    ensures order[i] != order[k]
  {
    if i < k {
      assert byPH[order[i]].id < byPH[order[k]].id;
    } else {
      assert byPH[order[k]].id < byPH[order[i]].id;
    }
  }

  lemma DropLists(order: seq<Bytes>, byPH: map<Bytes, Entry>, nextID: nat, i: nat)
    requires Lists(order, byPH) && Rises(order, byPH, nextID) && i < |order|
    ensures Lists(order[..i] + order[i + 1..], byPH - {order[i]})
  {
    var rest := order[..i] + order[i + 1..];
    Dropped(order, i);
    forall p ensures p in byPH && p != order[i] <==> p in rest {
      if p in byPH && p != order[i] {
        var k :| 0 <= k < |order| && order[k] == p;
      }
      if p in rest {
        var k :| 0 <= k < |rest| && rest[k] == p;
        RisesDistinct(order, byPH, nextID, i, if k < i then k else k + 1);
      }
    }
  }

  lemma DropAt(order: seq<Bytes>, byPH: map<Bytes, Entry>, nextID: nat, i: nat)
    requires Lists(order, byPH) && Rises(order, byPH, nextID) && i < |order|
    ensures var rest := order[..i] + order[i + 1..];
      Lists(rest, byPH - {order[i]}) && Rises(rest, byPH - {order[i]}, nextID)
  {
    Dropped(order, i);
    DropLists(order, byPH, nextID, i);
    var rest := order[..i] + order[i + 1..];
    forall k | 0 <= k < |rest| ensures rest[k] in byPH - {order[i]} {
      assert rest[k] in rest;
    }
  }

  lemma FindFinds<T>(s: seq<T>, x: T)
    requires x in s
    ensures Find(s, x) < |s|
  {
    assert s[..|s|] == s;
  }

  lemma DeleteConsistent(s: State, ph: Bytes)
    requires Consistent(s) && ph in s.byPH
    ensures Consistent(DeleteIn(s, ph))
  {
    FindFinds(s.order, ph);
    DropAt(s.order, s.byPH, s.nextID, Find(s.order, ph));
    InverseAfterDelete(s, ph);
  }

  lemma InverseAfterDelete(s: State, ph: Bytes)
    requires Inverse(s) && ph in s.byPH
    ensures Inverse(DeleteIn(s, ph))
  {
  }

  /** Changing one entry but not its identifier leaves the order in place. */
  lemma UpdateInOrder(order: seq<Bytes>, byPH: map<Bytes, Entry>, nextID: nat, ph: Bytes, e: Entry)
    requires Lists(order, byPH) && Rises(order, byPH, nextID) && ph in byPH && e.id == byPH[ph].id
    ensures Lists(order, byPH[ph := e]) && Rises(order, byPH[ph := e], nextID)
  {
  }

  /** An update that leaves identifier, placeholder and value of an entry alone keeps consistency. */
  lemma UpdateConsistent(s: State, ph: Bytes, e: Entry)
    requires Consistent(s) && ph in s.byPH
    requires e.id == s.byPH[ph].id && e.placeholder == ph && e.value == s.byPH[ph].value
    ensures Consistent(s.(byPH := s.byPH[ph := e]))
  {
    UpdateInOrder(s.order, s.byPH, s.nextID, ph, e);
  }

  lemma RotateConsistent(s: State, ph: Bytes, newValue: Bytes)
    requires Consistent(s) && ph in s.byPH
    ensures Consistent(RotateIn(s, ph, newValue)) <==> newValue !in s.byValue || s.byValue[newValue] == ph
  {
    var t := RotateIn(s, ph, newValue);
    UpdateInOrder(s.order, s.byPH, s.nextID, ph, t.byPH[ph]);
    InverseAfterRotate(s, ph, newValue);
  }

  lemma InverseAfterRotate(s: State, ph: Bytes, newValue: Bytes)
    requires Inverse(s) && ph in s.byPH
    ensures Inverse(RotateIn(s, ph, newValue)) <==> newValue !in s.byValue || s.byValue[newValue] == ph
  {
    var t := RotateIn(s, ph, newValue);
    if newValue in s.byValue && s.byValue[newValue] != ph {
      var q := s.byValue[newValue];
      assert q in t.byPH && t.byPH[q].value == newValue && t.byValue[newValue] == ph;
    }
  }

  lemma Append(order: seq<Bytes>, byPH: map<Bytes, Entry>, nextID: nat, ph: Bytes, e: Entry)
    requires Lists(order, byPH) && Rises(order, byPH, nextID) && e.id == nextID + 1
    ensures Lists(order + [ph], byPH[ph := e])
    ensures Rises(order + [ph], byPH[ph := e], nextID + 1) <==> ph !in byPH
  {
    var more := order + [ph];
    assert more[|order|] == ph && forall i :: 0 <= i < |order| ==> more[i] == order[i];
    if ph in byPH {
      var i :| 0 <= i < |order| && order[i] == ph;
      assert more[i] == more[|order|];
    }
  }

  lemma RegisterConsistent(s: State, op: Op, mk: Derivation)
    requires Consistent(s) && op.Register? && !s.closed && op.value !in s.byValue
    ensures Consistent(Apply(s, op, mk).0) <==> mk(op.value) !in s.byPH
  {
    var t, ph := Apply(s, op, mk).0, mk(op.value);
    Append(s.order, s.byPH, s.nextID, ph, t.byPH[ph]);
    if ph !in s.byPH {
      assert Inverse(t);
    }
  }

  /** One operation keeps the indexes consistent exactly when its guard holds. */
  lemma ApplyConsistentExactly(s: State, op: Op, mk: Derivation)
    requires Consistent(s)
    ensures Consistent(Apply(s, op, mk).0) <==> Admissible(s, op, mk)
  {
    var t := Apply(s, op, mk).0;
    if op.Close? {
    } else if op.Register? {
      if !s.closed {
        if op.value in s.byValue {
          UpdateConsistent(s, s.byValue[op.value], t.byPH[s.byValue[op.value]]);
        } else {
          RegisterConsistent(s, op, mk);
        }
      }
    } else if op.ph in s.byPH && (op.MarkUse? || !s.closed) {
      if op.Rotate? {
        RotateConsistent(s, op.ph, op.newValue);
      } else if op.Delete? {
        DeleteConsistent(s, op.ph);
      } else {
        UpdateConsistent(s, op.ph, t.byPH[op.ph]);
      }
    }
  }

  /** On a consistent vault no operation panics. */
  lemma ConsistentNeverPanics(s: State, op: Op, mk: Derivation)
    requires Consistent(s)
    ensures !Apply(s, op, mk).1.Panic?
  {
  }

  // ---- Runs

  function Run(s: State, ops: seq<Op>, mk: Derivation): State
    decreases |ops|
  {
    if ops == [] then s else Run(Apply(s, ops[0], mk).0, ops[1..], mk)
  }

  lemma RunStep(s: State, ops: seq<Op>, mk: Derivation)
    requires ops != []
    ensures Run(s, ops, mk) == Run(Apply(s, ops[0], mk).0, ops[1..], mk)
  {
  }

  predicate AdmissibleRun(s: State, ops: seq<Op>, mk: Derivation)
    decreases |ops|
  {
    ops != [] ==> Admissible(s, ops[0], mk) && AdmissibleRun(Apply(s, ops[0], mk).0, ops[1..], mk)
  }

  /** Every run whose operations meet their guards keeps the indexes consistent. */
  lemma {:induction false} RunConsistent(s: State, ops: seq<Op>, mk: Derivation)
    requires Consistent(s) && AdmissibleRun(s, ops, mk)
    ensures Consistent(Run(s, ops, mk))
    decreases |ops|
  {
    if ops != [] {
      ApplyConsistentExactly(s, ops[0], mk);
      RunConsistent(Apply(s, ops[0], mk).0, ops[1..], mk);
    }
  }

  /** Every entry carries the placeholder derived from its value. */
  ghost predicate Derived(s: State, mk: Derivation) {
    forall p :: p in s.byPH ==> p == mk(s.byPH[p].value)
  }

  /** No two of the values collide under the 24-bit derivation. */
  ghost predicate CollisionFree(mk: Derivation, values: iset<Bytes>) {
    forall v, w :: v in values && w in values && mk(v) == mk(w) ==> v == w
  }

  ghost predicate DrawnFrom(s: State, values: iset<Bytes>) {
    forall v :: v in s.byValue ==> v in values
  }

  /**
   * Without rotations, collision-freedom of the registered values is enough: every guard holds,
   * so the indexes stay consistent, and every placeholder stays the one derived from its value.
   */
  lemma {:induction false} WithoutRotation(s: State, ops: seq<Op>, mk: Derivation, values: iset<Bytes>)
    requires Consistent(s) && Derived(s, mk) && DrawnFrom(s, values) && CollisionFree(mk, values)
    requires forall i :: 0 <= i < |ops| ==> !ops[i].Rotate? && (ops[i].Register? ==> ops[i].value in values)
    ensures AdmissibleRun(s, ops, mk)
    ensures Consistent(Run(s, ops, mk)) && Derived(Run(s, ops, mk), mk)
    decreases |ops|
  {
    if ops != [] {
      StepWithoutRotation(s, ops[0], mk, values);
      WithoutRotation(Apply(s, ops[0], mk).0, ops[1..], mk, values);
    }
  }

  lemma StepWithoutRotation(s: State, op: Op, mk: Derivation, values: iset<Bytes>)
    requires Consistent(s) && Derived(s, mk) && DrawnFrom(s, values) && CollisionFree(mk, values)
    requires !op.Rotate? && (op.Register? ==> op.value in values)
    ensures var t := Apply(s, op, mk).0;
      Admissible(s, op, mk) && Consistent(t) && Derived(t, mk) && DrawnFrom(t, values)
  {
    FreshWithoutRotation(s, op, mk, values);
    ApplyConsistentExactly(s, op, mk);
    DerivedKept(s, op, mk, values);
  }

  lemma FreshWithoutRotation(s: State, op: Op, mk: Derivation, values: iset<Bytes>)
    requires Inverse(s) && Derived(s, mk) && DrawnFrom(s, values) && CollisionFree(mk, values)
    requires !op.Rotate? && (op.Register? ==> op.value in values)
    ensures Admissible(s, op, mk)
  {
    if op.Register? && mk(op.value) in s.byPH {
      assert mk(s.byPH[mk(op.value)].value) == mk(op.value);
    }
  }

  lemma DerivedKept(s: State, op: Op, mk: Derivation, values: iset<Bytes>)
    requires Derived(s, mk) && DrawnFrom(s, values) && !op.Rotate? && (op.Register? ==> op.value in values)
    ensures Derived(Apply(s, op, mk).0, mk) && DrawnFrom(Apply(s, op, mk).0, values)
  {
  }

  /** The one operation that can part an entry from its derived placeholder. */
  predicate PartsValue(s: State, op: Op, mk: Derivation) {
    op.Rotate? && !s.closed && op.ph in s.byPH && mk(op.newValue) != op.ph
  }

  /** Exactly when every placeholder stays the derived one: unless a live entry is rotated to a value that derives another. */
  lemma DerivedExactly(s: State, op: Op, mk: Derivation)
    requires Derived(s, mk)
    ensures Derived(Apply(s, op, mk).0, mk) <==> !PartsValue(s, op, mk)
  {
    if PartsValue(s, op, mk) {
      assert Apply(s, op, mk).0.byPH[op.ph].value == op.newValue;
    }
  }

  /** Every state a run passes through has all its placeholders derived. */
  ghost predicate DerivedThroughout(s: State, ops: seq<Op>, mk: Derivation)
    decreases |ops|
  {
    Derived(s, mk) && (ops != [] ==> DerivedThroughout(Apply(s, ops[0], mk).0, ops[1..], mk))
  }

  predicate PartsNone(s: State, ops: seq<Op>, mk: Derivation)
    decreases |ops|
  {
    ops != [] ==> !PartsValue(s, ops[0], mk) && PartsNone(Apply(s, ops[0], mk).0, ops[1..], mk)
  }

  lemma {:induction false} DerivedRunExactly(s: State, ops: seq<Op>, mk: Derivation)
    requires Derived(s, mk)
    ensures DerivedThroughout(s, ops, mk) <==> PartsNone(s, ops, mk)
    decreases |ops|
  {
    if ops != [] {
      DerivedExactly(s, ops[0], mk);
      if !PartsValue(s, ops[0], mk) {
        DerivedRunExactly(Apply(s, ops[0], mk).0, ops[1..], mk);
      }
    }
  }

  /**
   * Rotation breaks that: after a rotation the old value, registered again, takes over the placeholder;
   * deleting it then leaves the rotated-in value pointing nowhere, and registering that value panics.
   */
  lemma RotateThenReregisterPanics(mk: Derivation, a: Bytes, b: Bytes)
    requires a != b
    ensures var s := Run(EMPTY, [Register(a, "", "", []), Rotate(mk(a), b), Register(a, "", "", []), Delete(mk(a))], mk);
      Apply(s, Register(b, "", "", []), mk).1.Panic? && (exists i :: 0 <= i < |s.order| && s.order[i] !in s.byPH)
  {
    var p := mk(a);
    var ops := [Register(a, "", "", []), Rotate(p, b), Register(a, "", "", []), Delete(p)];
    var s := RotatedBack(mk, a, b);
    OrderOutlives(s, p, a, b, mk);
    FourSteps(EMPTY, ops, mk);
  }

  lemma FourSteps(s: State, ops: seq<Op>, mk: Derivation)
    requires |ops| == 4
    ensures Run(s, ops, mk) == Apply(Apply(Apply(Apply(s, ops[0], mk).0, ops[1], mk).0, ops[2], mk).0, ops[3], mk).0
  {
    var s1 := Apply(s, ops[0], mk).0;
    var s2 := Apply(s1, ops[1], mk).0;
    var s3 := Apply(s2, ops[2], mk).0;
    RunStep(s, ops, mk);
    RunStep(s1, ops[1..], mk);
    RunStep(s2, ops[2..], mk);
    RunStep(s3, ops[3..], mk);
  }

  /** A value registered, rotated away and registered again takes its old placeholder over from the rotated-in value. */
  lemma RotatedBack(mk: Derivation, a: Bytes, b: Bytes) returns (s: State)
    requires a != b
    ensures s == Apply(Apply(Apply(EMPTY, Register(a, "", "", []), mk).0, Rotate(mk(a), b), mk).0, Register(a, "", "", []), mk).0
    ensures !s.closed && s.order == [mk(a), mk(a)] && mk(a) in s.byPH && s.byPH[mk(a)].value == a
    ensures b in s.byValue && s.byValue[b] == mk(a)
  {
    var s1 := Apply(EMPTY, Register(a, "", "", []), mk).0;
    assert s1.order == [mk(a)];
    var s2 := Apply(s1, Rotate(mk(a), b), mk).0;
    s := Apply(s2, Register(a, "", "", []), mk).0;
  }

  lemma OrderOutlives(s: State, p: Bytes, a: Bytes, b: Bytes, mk: Derivation)
    requires !s.closed && s.order == [p, p] && p in s.byPH && s.byPH[p].value == a
    requires a != b && b in s.byValue && s.byValue[b] == p
    ensures var t := Apply(s, Delete(p), mk).0;
      Apply(t, Register(b, "", "", []), mk).1.Panic? && (exists i :: 0 <= i < |t.order| && t.order[i] !in t.byPH)
  {
    var t := Apply(s, Delete(p), mk).0;
    assert t.order == [p];
    assert t.order[0] !in t.byPH;
  }
}
