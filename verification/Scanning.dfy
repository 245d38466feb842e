/** From matches to placeholders: what the daemon and the proxy do between scanning and redacting. */
module Scanning {
  import opened ByteText
  import opened KnownValues
  import opened Entropy
  import opened Detector
  import opened Redaction
  import opened Redactors
  import opened Survival
  import V = Vault

  /**
   * Who gets a placeholder: known values always, other matches from a confidence floor on when
   * registration is allowed; passthrough tokens never. The daemon passes no token through.
   */
  datatype Policy = Policy(register: bool, floor: real, pass: set<Bytes>, origin: string)

  function Text(input: Bytes, m: Match): Bytes {
    if m.start <= m.end <= |input| then input[m.start..m.end] else []
  }

  /** One turn of the match loop: the vault after it and the placeholder, empty if none. */
  function Assigned(s: V.State, mk: V.Derivation, policy: Policy, input: Bytes, m: Match): (V.State, Bytes) {
    var val := Text(input, m);
    if val in policy.pass then (s, [])
    else if m.source == "ac" then (V.Apply(s, V.MarkUse(mk(val)), mk).0, mk(val))
    else if policy.register && m.confidence >= policy.floor then
      var (t, answer) := V.Apply(s, V.Register(val, m.kind, policy.origin + m.source, []), mk);
      (t, if answer.Gives? then answer.e.placeholder else [])
    else (s, [])
  }

  /** The matches the loop gives a placeholder. */
  predicate Chosen(policy: Policy, input: Bytes, m: Match) {
    Text(input, m) !in policy.pass && (m.source == "ac" || (policy.register && m.confidence >= policy.floor))
  }

  function Wire(m: Match, ph: Bytes): WireMatch {
    WireMatch(m.start, m.end, m.kind, m.source, m.confidence, ph)
  }

  /** The whole loop, over the live vault. */
  function AssignedAll(s: V.State, mk: V.Derivation, policy: Policy, input: Bytes, ms: seq<Match>): (V.State, seq<WireMatch>) {
    if ms == [] then (s, [])
    else
      var n := |ms| - 1;
      var (t, done) := AssignedAll(s, mk, policy, input, ms[..n]);
      var (u, ph) := Assigned(t, mk, policy, input, ms[n]);
      (u, done + [Wire(ms[n], ph)])
  }

  /** No value points at an entry that is gone, which is what Register dereferences. */
  ghost predicate NoDangling(s: V.State) {
    forall v :: v in s.byValue ==> s.byValue[v] in s.byPH
  }

  lemma AssignedSafe(s: V.State, mk: V.Derivation, policy: Policy, input: Bytes, m: Match)
    requires NoDangling(s)
    ensures NoDangling(Assigned(s, mk, policy, input, m).0)
    ensures !V.Apply(s, V.Register(Text(input, m), m.kind, policy.origin + m.source, []), mk).1.Panic?
  {
  }

  lemma {:induction false} AssignedAllSafe(s: V.State, mk: V.Derivation, policy: Policy, input: Bytes, ms: seq<Match>)
    requires NoDangling(s)
    ensures NoDangling(AssignedAll(s, mk, policy, input, ms).0)
  {
    if ms != [] {
      var n := |ms| - 1;
      AssignedAllSafe(s, mk, policy, input, ms[..n]);
      AssignedSafe(AssignedAll(s, mk, policy, input, ms[..n]).0, mk, policy, input, ms[n]);
    }
  }

  /** found is what the detector reports once it holds the vault's active values, in some order. */
  ghost predicate Scanned(s: V.State, st: Stages, input: Bytes, found: seq<Match>) {
    exists dict :: HoldsAndReports(dict, s, st, input, found)
  }

  ghost predicate HoldsAndReports(dict: seq<Bytes>, s: V.State, st: Stages, input: Bytes, found: seq<Match>) {
    && Holds(dict, s) && ValidHits(dict, st.acMatch(dict, input))
    && found == if input == [] then [] else Deduped(AllMatches(st, dict, input), {})
  }

  /** dict lists the vault's active values, the empty one dropped. */
  ghost predicate Holds(dict: seq<Bytes>, s: V.State) {
    NoEmpty(dict) && forall v :: v in dict <==> v in V.ActiveValues(s) && v != []
  }

  /** One scan as a whole: the vault after it and the redacted output. */
  ghost predicate Scans(s: V.State, mk: V.Derivation, st: Stages, policy: Policy, input: Bytes, t: V.State, out: Bytes) {
    exists found :: ScansWith(s, mk, st, policy, input, found, t, out)
  }

  ghost predicate ScansWith(s: V.State, mk: V.Derivation, st: Stages, policy: Policy, input: Bytes, found: seq<Match>,
                            t: V.State, out: Bytes) {
    Scanned(s, st, input, found) && Replaces(s, mk, policy, input, found, t, out)
  }

  /** Running the match loop over found and redacting leaves vault t and output out. */
  ghost predicate Replaces(s: V.State, mk: V.Derivation, policy: Policy, input: Bytes, found: seq<Match>, t: V.State,
                           out: Bytes) {
    && t == AssignedAll(s, mk, policy, input, found).0
    && IsRedaction(input, BearingSpans(AssignedAll(s, mk, policy, input, found).1), out)
  }

  lemma NothingReplaced(s: V.State, mk: V.Derivation, policy: Policy, input: Bytes)
    ensures Replaces(s, mk, policy, input, [], s, input)
  {
    NothingToRedact(input, BearingSpans([]));
  }

  // ---- No known value survives

  lemma {:induction false} WireOf(s: V.State, mk: V.Derivation, policy: Policy, input: Bytes, ms: seq<Match>, i: nat)
    requires i < |ms|
    ensures var out := AssignedAll(s, mk, policy, input, ms).1;
      && |out| == |ms| && out[i] == Wire(ms[i], out[i].placeholder)
      && (ms[i].source == "ac" && Text(input, ms[i]) !in policy.pass ==> out[i].placeholder == mk(Text(input, ms[i])))
  {
    var n := |ms| - 1;
    if n > 0 { WireOf(s, mk, policy, input, ms[..n], if i < n then i else 0); }
  }

  /** Placeholders come from phs: those derived and those already in the vault. */
  ghost predicate Supplied(s: V.State, mk: V.Derivation, phs: iset<Bytes>) {
    (forall v :: mk(v) in phs) && forall p :: p in s.byPH ==> p in phs && s.byPH[p].placeholder == p
  }

  lemma SuppliedStep(s: V.State, mk: V.Derivation, policy: Policy, input: Bytes, m: Match, phs: iset<Bytes>)
    requires Supplied(s, mk, phs)
    ensures var (t, ph) := Assigned(s, mk, policy, input, m); Supplied(t, mk, phs) && (ph != [] ==> ph in phs)
  {
  }

  lemma {:induction false} SuppliedAll(s: V.State, mk: V.Derivation, policy: Policy, input: Bytes, ms: seq<Match>,
                                       phs: iset<Bytes>)
    requires Supplied(s, mk, phs)
    ensures var (t, out) := AssignedAll(s, mk, policy, input, ms);
      Supplied(t, mk, phs) && forall w :: w in out && w.placeholder != [] ==> w.placeholder in phs
  {
    if ms != [] {
      var n := |ms| - 1;
      SuppliedAll(s, mk, policy, input, ms[..n], phs);
      SuppliedStep(AssignedAll(s, mk, policy, input, ms[..n]).0, mk, policy, input, ms[n], phs);
    }
  }

  lemma ScanInBounds(s: V.State, st: Stages, input: Bytes, found: seq<Match>)
    requires Scanned(s, st, input, found) && Lawful(st)
    ensures forall m :: m in found ==> m.start < m.end <= |input|
  {
    if input != [] {
      var dict :| HoldsAndReports(dict, s, st, input, found);
      forall m | m in found ensures m.start < m.end <= |input| {
        ScanSound(st, dict, input, m);
      }
    }
  }

  /** out repeats the ranges of ms. */
  ghost predicate MirrorsAll(ms: seq<Match>, out: seq<WireMatch>) {
    |out| == |ms| && forall i :: 0 <= i < |ms| ==> out[i].start == ms[i].start && out[i].end == ms[i].end
  }

  lemma WiresMirror(s: V.State, mk: V.Derivation, policy: Policy, input: Bytes, ms: seq<Match>)
    ensures MirrorsAll(ms, AssignedAll(s, mk, policy, input, ms).1)
  {
    if ms != [] { WireOf(s, mk, policy, input, ms, 0); }
    forall i | 0 <= i < |ms| ensures AssignedAll(s, mk, policy, input, ms).1[i].start == ms[i].start
      && AssignedAll(s, mk, policy, input, ms).1[i].end == ms[i].end
    {
      WireOf(s, mk, policy, input, ms, i);
    }
  }

  lemma WiresInBounds(s: V.State, mk: V.Derivation, policy: Policy, input: Bytes, ms: seq<Match>)
    requires forall m :: m in ms ==> m.start < m.end <= |input|
    ensures forall w :: w in AssignedAll(s, mk, policy, input, ms).1 ==> w.start < w.end <= |input|
  {
    var out := AssignedAll(s, mk, policy, input, ms).1;
    if ms != [] {
      WireOf(s, mk, policy, input, ms, 0);
      forall w | w in out ensures w.start < w.end <= |input| {
        var i :| 0 <= i < |out| && out[i] == w;
        WireOf(s, mk, policy, input, ms, i);
        assert ms[i] in ms;
      }
    }
  }

  lemma KnownFound(s: V.State, st: Stages, input: Bytes, found: seq<Match>, v: Bytes, q: nat) returns (i: nat)
    requires Scanned(s, st, input, found) && Lawful(st) && v in V.ActiveValues(s) && v != [] && q in Hits(input, v, 0)
    ensures i < |found| && found[i] == AcMatch(q, v)
  {
    HitText(input, v, q);
    var dict :| HoldsAndReports(dict, s, st, input, found);
    KnownIsIn(st, dict, input, found, v, q);
    i :| 0 <= i < |found| && found[i] == AcMatch(q, v);
  }

  lemma TextOfHit(input: Bytes, v: Bytes, q: nat)
    requires v != [] && q in Hits(input, v, 0)
    ensures Text(input, AcMatch(q, v)) == v
  {
    HitText(input, v, q);
  }

  lemma KnownIsIn(st: Stages, dict: seq<Bytes>, input: Bytes, found: seq<Match>, v: Bytes, q: nat)
    requires MatcherLawful(st.acMatch) && NoEmpty(dict) && v in dict && v != [] && q in Hits(input, v, 0)
    requires ValidHits(dict, st.acMatch(dict, input))
    requires found == Deduped(AllMatches(st, dict, input), {})
    ensures AcMatch(q, v) in found
  {
    ScanReportsKnown(st, dict, input, v, q);
  }

  /** Every hit of an active value ends up among the spans handed to the redactor. */
  lemma KnownReported(s: V.State, mk: V.Derivation, st: Stages, policy: Policy, input: Bytes, found: seq<Match>, v: Bytes)
    requires Scanned(s, st, input, found) && Lawful(st) && (forall w :: mk(w) != [])
    requires v in V.ActiveValues(s) && v != [] && v !in policy.pass
    ensures Reported(input, v, BearingSpans(AssignedAll(s, mk, policy, input, found).1))
  {
    var out := AssignedAll(s, mk, policy, input, found).1;
    forall q | q in Hits(input, v, 0)
      ensures exists sp :: sp in BearingSpans(out) && sp.start == q && sp.end == q + |v|
    {
      var i := KnownFound(s, st, input, found, v, q);
      TextOfHit(input, v, q);
      WireOf(s, mk, policy, input, found, i);
      assert out[i] in out && out[i].ToSpan() in BearingSpans(out);
    }
  }

  /**
   * No known value survives: an active value that is safe with respect to every placeholder that can
   * be used occurs nowhere in the redacted output, whatever the other stages report.
   */
  lemma KnownValuesVanish(s: V.State, mk: V.Derivation, st: Stages, policy: Policy, input: Bytes, found: seq<Match>,
                          v: Bytes, phs: iset<Bytes>, out: Bytes)
    requires Scanned(s, st, input, found) && Lawful(st) && Supplied(s, mk, phs) && [] !in phs
    requires v in V.ActiveValues(s) && v != [] && v !in policy.pass && Safe(v, phs)
    requires IsRedaction(input, BearingSpans(AssignedAll(s, mk, policy, input, found).1), out)
    ensures !Occurs(out, v)
  {
    var wires := AssignedAll(s, mk, policy, input, found).1;
    KnownReported(s, mk, st, policy, input, found, v);
    SuppliedAll(s, mk, policy, input, found, phs);
    ScanInBounds(s, st, input, found);
    WiresInBounds(s, mk, policy, input, found);
    NoSurvival(input, v, BearingSpans(wires), phs, out);
  }

  // ---- Scans exist

  lemma {:induction false} Listed(vs: set<Bytes>) returns (dict: seq<Bytes>)
    requires [] !in vs
    ensures NoEmpty(dict) && forall v :: v in dict <==> v in vs
    decreases |vs|
  {
    dict := [];
    if vs != {} {
      var v :| v in vs;
      dict := Listed(vs - {v});
      dict := dict + [v];
    }
  }

  lemma NothingScanned(s: V.State, st: Stages)
    requires MatcherLawful(st.acMatch)
    ensures Scanned(s, st, [], [])
  {
    var dict := Listed(V.ActiveValues(s) - {[]});
    assert NamesPresent(dict, [], st.acMatch(dict, []));
    assert HoldsAndReports(dict, s, st, [], []);
  }

  /** Lawful stages scan every text against every vault. */
  lemma ScanExists(s: V.State, mk: V.Derivation, st: Stages, policy: Policy, input: Bytes) returns (t: V.State, out: Bytes)
    requires Lawful(st)
    ensures Scans(s, mk, st, policy, input, t, out)
  {
    var dict := Listed(V.ActiveValues(s) - {[]});
    assert NamesPresent(dict, input, st.acMatch(dict, input));
    var found := if input == [] then [] else Deduped(AllMatches(st, dict, input), {});
    assert HoldsAndReports(dict, s, st, input, found);
    ScanInBounds(s, st, input, found);
    WiresInBounds(s, mk, policy, input, found);
    t := AssignedAll(s, mk, policy, input, found).0;
    out := RedactionExists(input, BearingSpans(AssignedAll(s, mk, policy, input, found).1));
    assert ScansWith(s, mk, st, policy, input, found, t, out);
  }

  // ---- Referential integrity

  /** Entries stay, with their values. */
  ghost predicate Extends(t: V.State, s: V.State) {
    forall p :: p in s.byPH ==> p in t.byPH && t.byPH[p].value == s.byPH[p].value
  }

  ghost predicate Sound(s: V.State, mk: V.Derivation, values: iset<Bytes>) {
    && V.Consistent(s) && V.Derived(s, mk) && V.DrawnFrom(s, values) && V.CollisionFree(mk, values) && !s.closed
  }

  /** ph is a live key whose value is exactly the text. */
  ghost predicate Refers(s: V.State, ph: Bytes, text: Bytes) {
    ph in s.byPH && s.byPH[ph].value == text
  }

  /** The replaced texts are among values: collisions elsewhere in the input do not matter. */
  ghost predicate ChosenIn(policy: Policy, input: Bytes, ms: seq<Match>, values: iset<Bytes>) {
    forall i :: 0 <= i < |ms| && Chosen(policy, input, ms[i]) ==> Text(input, ms[i]) in values
  }

  ghost predicate KnownHeld(s: V.State, input: Bytes, ms: seq<Match>) {
    forall i :: 0 <= i < |ms| && ms[i].source == "ac" ==> Text(input, ms[i]) in s.byValue
  }

  lemma ChosenPrefix(s: V.State, policy: Policy, input: Bytes, ms: seq<Match>, values: iset<Bytes>, n: nat)
    requires n <= |ms| && ChosenIn(policy, input, ms, values) && KnownHeld(s, input, ms)
    ensures ChosenIn(policy, input, ms[..n], values) && KnownHeld(s, input, ms[..n])
  {
  }

  lemma AssignedKeepsSound(s: V.State, mk: V.Derivation, policy: Policy, input: Bytes, m: Match, values: iset<Bytes>)
    requires Sound(s, mk, values) && (Chosen(policy, input, m) ==> Text(input, m) in values)
    ensures var t := Assigned(s, mk, policy, input, m).0; Sound(t, mk, values) && Extends(t, s)
  {
    var val := Text(input, m);
    if Chosen(policy, input, m) {
      V.StepWithoutRotation(s, V.MarkUse(mk(val)), mk, values);
      V.StepWithoutRotation(s, V.Register(val, m.kind, policy.origin + m.source, []), mk, values);
    }
  }

  lemma AssignedRefers(s: V.State, mk: V.Derivation, policy: Policy, input: Bytes, m: Match)
    requires V.Inverse(s) && V.Derived(s, mk) && !s.closed
    requires m.source == "ac" ==> Text(input, m) in s.byValue
    ensures var (t, ph) := Assigned(s, mk, policy, input, m);
      && (ph != [] ==> ph == mk(Text(input, m)) && Refers(t, ph, Text(input, m)))
  {
    var val := Text(input, m);
    if val in s.byValue {
      assert s.byValue[val] == mk(val);
    }
  }

  /** Every placeholder assigned is the derived one and refers to the text it stands for. */
  ghost predicate AllRefer(t: V.State, mk: V.Derivation, input: Bytes, ms: seq<Match>, out: seq<WireMatch>) {
    |out| == |ms| && forall i :: 0 <= i < |out| && out[i].placeholder != [] ==>
      out[i].placeholder == mk(Text(input, ms[i])) && Refers(t, out[i].placeholder, Text(input, ms[i]))
  }

  lemma OneMoreRefers(t: V.State, u: V.State, mk: V.Derivation, input: Bytes, ms: seq<Match>, out: seq<WireMatch>,
                      m: Match, ph: Bytes)
    requires AllRefer(t, mk, input, ms, out) && Extends(u, t)
    requires ph != [] ==> ph == mk(Text(input, m)) && Refers(u, ph, Text(input, m))
    ensures AllRefer(u, mk, input, ms + [m], out + [Wire(m, ph)])
  {
  }

  lemma {:induction false} AssignedAllSound(s: V.State, mk: V.Derivation, policy: Policy, input: Bytes, ms: seq<Match>,
                                            values: iset<Bytes>)
    requires Sound(s, mk, values) && ChosenIn(policy, input, ms, values) && KnownHeld(s, input, ms)
    ensures var t := AssignedAll(s, mk, policy, input, ms).0; Sound(t, mk, values) && Extends(t, s)
  {
    if ms != [] {
      var n := |ms| - 1;
      ChosenPrefix(s, policy, input, ms, values, n);
      AssignedAllSound(s, mk, policy, input, ms[..n], values);
      AssignedKeepsSound(AssignedAll(s, mk, policy, input, ms[..n]).0, mk, policy, input, ms[n], values);
    }
  }

  lemma {:induction false} AssignedAllRefer(s: V.State, mk: V.Derivation, policy: Policy, input: Bytes, ms: seq<Match>,
                                            values: iset<Bytes>)
    requires Sound(s, mk, values) && ChosenIn(policy, input, ms, values) && KnownHeld(s, input, ms)
    ensures var (t, out) := AssignedAll(s, mk, policy, input, ms); AllRefer(t, mk, input, ms, out)
  {
    if ms != [] {
      var n := |ms| - 1;
      ChosenPrefix(s, policy, input, ms, values, n);
      AssignedAllRefer(s, mk, policy, input, ms[..n], values);
      var (t, out) := AssignedAll(s, mk, policy, input, ms[..n]);
      LastRefers(s, t, mk, policy, input, ms, out, values);
    }
  }

  lemma LastRefers(s: V.State, t: V.State, mk: V.Derivation, policy: Policy, input: Bytes, ms: seq<Match>,
                   out: seq<WireMatch>, values: iset<Bytes>)
    requires ms != [] && Sound(s, mk, values) && ChosenIn(policy, input, ms, values) && KnownHeld(s, input, ms)
    requires (t, out) == AssignedAll(s, mk, policy, input, ms[..|ms| - 1]) && AllRefer(t, mk, input, ms[..|ms| - 1], out)
    ensures var (u, ph) := Assigned(t, mk, policy, input, ms[|ms| - 1]);
      AllRefer(u, mk, input, ms, out + [Wire(ms[|ms| - 1], ph)])
  {
    var before, m := ms[..|ms| - 1], ms[|ms| - 1];
    assert ms == before + [m];
    ChosenPrefix(s, policy, input, ms, values, |ms| - 1);
    AssignedAllSound(s, mk, policy, input, before, values);
    KnownStays(s, t, Text(input, m));
    NextRefers(t, mk, policy, input, before, out, m, values);
  }

  lemma NextRefers(t: V.State, mk: V.Derivation, policy: Policy, input: Bytes, before: seq<Match>, out: seq<WireMatch>,
                   m: Match, values: iset<Bytes>)
    requires Sound(t, mk, values) && AllRefer(t, mk, input, before, out)
    requires Chosen(policy, input, m) ==> Text(input, m) in values
    requires m.source == "ac" ==> Text(input, m) in t.byValue
    ensures var (u, ph) := Assigned(t, mk, policy, input, m); AllRefer(u, mk, input, before + [m], out + [Wire(m, ph)])
  {
    AssignedRefers(t, mk, policy, input, m);
    AssignedKeepsSound(t, mk, policy, input, m, values);
    var (u, ph) := Assigned(t, mk, policy, input, m);
    OneMoreRefers(t, u, mk, input, before, out, m, ph);
  }

  lemma KnownStays(s: V.State, t: V.State, v: Bytes)
    requires V.Inverse(s) && V.Inverse(t) && Extends(t, s)
    ensures v in s.byValue ==> v in t.byValue
  {
    if v in s.byValue {
      assert t.byPH[s.byValue[v]].value == v;
    }
  }

  /**
   * Referential integrity: when every placeholder in the vault still derives from its value and the texts
   * replaced do not collide, then after a scan, including all the registrations in it, every assigned
   * placeholder is a live key whose value is exactly the bytes it replaced; it is the derived one, so a
   * repeated scan assigns the same.
   */
  lemma ScanRefers(s: V.State, mk: V.Derivation, st: Stages, policy: Policy, input: Bytes, found: seq<Match>, values: iset<Bytes>)
    requires Scanned(s, st, input, found) && Lawful(st) && Sound(s, mk, values) && ChosenIn(policy, input, found, values)
    ensures var (t, out) := AssignedAll(s, mk, policy, input, found);
      Sound(t, mk, values) && Extends(t, s) && AllRefer(t, mk, input, found, out)
  {
    FoundKnown(s, st, input, found);
    AssignedAllSound(s, mk, policy, input, found, values);
    AssignedAllRefer(s, mk, policy, input, found, values);
  }

  lemma FoundKnown(s: V.State, st: Stages, input: Bytes, found: seq<Match>)
    requires Scanned(s, st, input, found) && Lawful(st) && V.Inverse(s)
    ensures KnownHeld(s, input, found)
  {
    if input != [] {
      var dict :| HoldsAndReports(dict, s, st, input, found);
      forall i | 0 <= i < |found| && found[i].source == "ac" ensures Text(input, found[i]) in s.byValue {
        assert found[i] in found;
        ScanSound(st, dict, input, found[i]);
      }
    }
  }

  /** The derived placeholder of every value leads back to it. */
  ghost predicate ValuesRefer(s: V.State, mk: V.Derivation) {
    forall v :: v in s.byValue ==> Refers(s, mk(v), v)
  }

  lemma ValuesReferExactly(s: V.State, mk: V.Derivation)
    requires V.Inverse(s)
    ensures ValuesRefer(s, mk) <==> V.Derived(s, mk)
  {
    forall p | p in s.byPH && Refers(s, mk(s.byPH[p].value), s.byPH[p].value) ensures p == mk(s.byPH[p].value) {
      assert s.byValue[s.byPH[p].value] == p;
    }
  }

  /**
   * Exactly which operations on a vault keep the promise that a redacted known value can be resolved: all but a
   * rotation of a live entry to a value that derives another placeholder.
   */
  lemma KnownReferExactly(s: V.State, op: V.Op, mk: V.Derivation)
    requires V.Consistent(s) && ValuesRefer(s, mk) && V.Admissible(s, op, mk)
    ensures ValuesRefer(V.Apply(s, op, mk).0, mk) <==> !V.PartsValue(s, op, mk)
  {
    V.ApplyConsistentExactly(s, op, mk);
    ValuesReferExactly(s, mk);
    ValuesReferExactly(V.Apply(s, op, mk).0, mk);
    V.DerivedExactly(s, op, mk);
  }

  ghost predicate ReferThroughout(s: V.State, ops: seq<V.Op>, mk: V.Derivation)
    decreases |ops|
  {
    ValuesRefer(s, mk) && (ops != [] ==> ReferThroughout(V.Apply(s, ops[0], mk).0, ops[1..], mk))
  }

  /** The same for whole runs: every known value resolves in every state of a run exactly when no such rotation is in it. */
  lemma {:induction false} KnownReferRunExactly(s: V.State, ops: seq<V.Op>, mk: V.Derivation)
    requires V.Consistent(s) && ValuesRefer(s, mk) && V.AdmissibleRun(s, ops, mk)
    ensures ReferThroughout(s, ops, mk) <==> V.PartsNone(s, ops, mk)
    decreases |ops|
  {
    if ops != [] {
      KnownReferExactly(s, ops[0], mk);
      V.ApplyConsistentExactly(s, ops[0], mk);
      if !V.PartsValue(s, ops[0], mk) {
        KnownReferRunExactly(V.Apply(s, ops[0], mk).0, ops[1..], mk);
      }
    }
  }

  /** Rotation breaks it: the rotated-in value is redacted to a placeholder the vault does not know. */
  lemma RotatedValueUnresolvable(mk: V.Derivation, a: Bytes, b: Bytes)
    requires a != b && mk(a) != mk(b)
    ensures var s := V.Run(V.EMPTY, [V.Register(a, "", "", []), V.Rotate(mk(a), b)], mk);
      V.Consistent(s) && b in V.ActiveValues(s) && mk(b) !in s.byPH
  {
    var ops := [V.Register(a, "", "", []), V.Rotate(mk(a), b)];
    var s1 := V.Apply(V.EMPTY, ops[0], mk).0;
    assert ops[1..] == [ops[1]] && ops[1..][1..] == [];
    V.RunStep(V.EMPTY, ops, mk);
    V.RunStep(s1, ops[1..], mk);
    V.ApplyConsistentExactly(V.EMPTY, ops[0], mk);
    V.ApplyConsistentExactly(s1, ops[1], mk);
    var s := V.Run(V.EMPTY, ops, mk);
    assert s.byPH[mk(a)].value == b;
  }
}
