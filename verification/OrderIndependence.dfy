/**
 * What a scan reports and redacts, told without any order: so the output does not depend on map
 * iteration order, on sort stability, or on which redactor ran.
 */
module OrderIndependence {
  import opened ByteText
  import opened KnownValues
  import opened Entropy
  import opened Detector
  import opened Redaction
  import opened Redactors
  import opened Scanning
  import V = Vault

  // ---- Deduplication keeps, of every key, the first match

  type Slot = (nat, nat, int)

  function First(ms: seq<Match>, k: Slot): Option<Match> {
    if ms == [] then None else if Key(ms[0]) == k then Some(ms[0]) else First(ms[1..], k)
  }

  lemma {:induction false} FirstIs(ms: seq<Match>, k: Slot)
    ensures match First(ms, k) case None => (forall m :: m in ms ==> Key(m) != k) case Some(m) => m in ms && Key(m) == k
  {
    if ms != [] {
      FirstIs(ms[1..], k);
      assert forall m :: m in ms <==> m == ms[0] || m in ms[1..];
    }
  }

  lemma {:induction false} FirstConcat(a: seq<Match>, b: seq<Match>, k: Slot)
    ensures First(a + b, k) == if First(a, k).Some? then First(a, k) else First(b, k)
  {
    if a == [] {
      assert a + b == b;
    } else {
      assert (a + b)[1..] == a[1..] + b;
      FirstConcat(a[1..], b, k);
    }
  }

  lemma {:induction false} DedupedIsFirst(ms: seq<Match>, seen: set<Slot>, m: Match)
    ensures m in Deduped(ms, seen) <==> Key(m) !in seen && First(ms, Key(m)) == Some(m)
  {
    if ms != [] {
      DedupedIsFirst(ms[1..], seen, m);
      DedupedIsFirst(ms[1..], seen + {Key(ms[0])}, m);
    }
  }

  // ---- The report

  /** input[i..j] is a hit of an active value. */
  predicate KnownRange(active: set<Bytes>, input: Bytes, i: nat, j: nat) {
    i < j <= |input| && input[i..j] in active && i in Hits(input, input[i..j], 0)
  }

  predicate IsKnownMatch(active: set<Bytes>, input: Bytes, m: Match) {
    KnownRange(active, input, m.start, m.end) && m == AcMatch(m.start, input[m.start..m.end])
  }

  /** A known-value match at the same range took the key. */
  predicate Displaced(active: set<Bytes>, input: Bytes, m: Match) {
    KnownRange(active, input, m.start, m.end) && HashOf(m.kind) == HashOf("ac_exact")
  }

  /** What the stages other than the known values report. */
  function Others(st: Stages, input: Bytes): seq<Match> {
    st.regex(input) + EntropyMatches(input, st.entropy) + if st.disableContext then [] else st.context(input)
  }

  /** m is reported while the values in active are known. */
  predicate InReport(active: set<Bytes>, st: Stages, input: Bytes, m: Match) {
    IsKnownMatch(active, input, m) || (!Displaced(active, input, m) && First(Others(st, input), Key(m)) == Some(m))
  }

  lemma OthersInBounds(st: Stages, input: Bytes, m: Match)
    requires Lawful(st) && m in Others(st, input)
    ensures m.start < m.end <= |input| && m.source != "ac"
  {
    if m in EntropyMatches(input, st.entropy) {
      EntropyExact(input, st.entropy, m);
    } else if m in st.regex(input) {
      assert WithinInput(st.regex(input), |input|);
    } else {
      assert WithinInput(st.context(input), |input|);
    }
  }

  lemma KnownSet(dict: seq<Bytes>, s: V.State, st: Stages, input: Bytes, m: Match)
    requires Holds(dict, s) && MatcherLawful(st.acMatch) && ValidHits(dict, st.acMatch(dict, input))
    ensures m in KnownMatches(input, dict, st.acMatch(dict, input)) <==> IsKnownMatch(V.ActiveValues(s), input, m)
  {
    var hits := st.acMatch(dict, input);
    KnownMatchesExactly(input, dict, hits, m);
    if h :| h in hits && HitOf(input, dict, h, m) {
      assert dict[h] in dict;
      KnownOf(V.ActiveValues(s), input, dict[h], m);
    }
    if IsKnownMatch(V.ActiveValues(s), input, m) {
      var h := HitOfKnown(dict, st, input, m);
      assert HitOf(input, dict, h, m);
    }
  }

  lemma KnownOf(active: set<Bytes>, input: Bytes, v: Bytes, m: Match)
    requires v in active && v != [] && m.start in Hits(input, v, 0) && m == AcMatch(m.start, v)
    ensures IsKnownMatch(active, input, m)
  {
    HitText(input, v, m.start);
  }

  lemma HitOfKnown(dict: seq<Bytes>, st: Stages, input: Bytes, m: Match) returns (h: nat)
    requires MatcherLawful(st.acMatch) && ValidHits(dict, st.acMatch(dict, input)) && NoEmpty(dict)
    requires m.start < m.end <= |input| && input[m.start..m.end] in dict
    ensures h in st.acMatch(dict, input) && h < |dict| && dict[h] == input[m.start..m.end]
  {
    var v := input[m.start..m.end];
    assert OccursAt(input, v, m.start);
    var i := HitFor(st, dict, input, v);
    h := st.acMatch(dict, input)[i];
  }

  /** Some order of the known-value matches. */
  ghost predicate ListsKnown(active: set<Bytes>, input: Bytes, known: seq<Match>) {
    forall m :: m in known <==> IsKnownMatch(active, input, m)
  }

  lemma KnownSlot(active: set<Bytes>, input: Bytes, known: seq<Match>, m: Match)
    requires ListsKnown(active, input, known)
    ensures First(known, Key(m)).Some? <==> Displaced(active, input, m)
    ensures First(known, Key(m)) == Some(m) <==> IsKnownMatch(active, input, m)
  {
    FirstIs(known, Key(m));
    if Displaced(active, input, m) {
      var k := AcMatch(m.start, input[m.start..m.end]);
      assert IsKnownMatch(active, input, k) && Key(k) == Key(m);
    }
  }

  lemma KnownThenOthers(active: set<Bytes>, input: Bytes, known: seq<Match>, others: seq<Match>, m: Match)
    requires ListsKnown(active, input, known)
    ensures m in Deduped(known + others, {}) <==>
      IsKnownMatch(active, input, m) || (!Displaced(active, input, m) && First(others, Key(m)) == Some(m))
  {
    DedupedIsFirst(known + others, {}, m);
    FirstConcat(known, others, Key(m));
    KnownSlot(active, input, known, m);
  }

  lemma AllMatchesSplit(st: Stages, dict: seq<Bytes>, input: Bytes)
    requires NoEmpty(dict) && ValidHits(dict, st.acMatch(dict, input))
    ensures AllMatches(st, dict, input) == KnownMatches(input, dict, st.acMatch(dict, input)) + Others(st, input)
  {
    var k, r, e := KnownMatches(input, dict, st.acMatch(dict, input)), st.regex(input), EntropyMatches(input, st.entropy);
    var c := if st.disableContext then [] else st.context(input);
    assert k + r + e + c == k + (r + e + c);
  }

  lemma HeldReport(dict: seq<Bytes>, s: V.State, st: Stages, input: Bytes, found: seq<Match>, m: Match)
    requires input != [] && HoldsAndReports(dict, s, st, input, found) && MatcherLawful(st.acMatch)
    ensures m in found <==> InReport(V.ActiveValues(s), st, input, m)
  {
    var known := KnownMatches(input, dict, st.acMatch(dict, input));
    forall k ensures k in known <==> IsKnownMatch(V.ActiveValues(s), input, k) {
      KnownSet(dict, s, st, input, k);
    }
    AllMatchesSplit(st, dict, input);
    KnownThenOthers(V.ActiveValues(s), input, known, Others(st, input), m);
  }

  lemma NothingInNothing(active: set<Bytes>, st: Stages, m: Match)
    requires Lawful(st)
    ensures !InReport(active, st, [], m)
  {
    FirstIs(Others(st, []), Key(m));
    if m in Others(st, []) {
      OthersInBounds(st, [], m);
    }
  }

  /** The report is one set, whatever order the vault's map yields its values in. */
  lemma ReportExactly(s: V.State, st: Stages, input: Bytes, found: seq<Match>, m: Match)
    requires Scanned(s, st, input, found) && Lawful(st)
    ensures m in found <==> InReport(V.ActiveValues(s), st, input, m)
  {
    if input == [] {
      NothingInNothing(V.ActiveValues(s), st, m);
    } else {
      var dict :| HoldsAndReports(dict, s, st, input, found);
      HeldReport(dict, s, st, input, found, m);
    }
  }

  /** Nothing a stage finds is lost: something of the same range and kind is reported. Context heuristics may be off. */
  lemma StagesReported(s: V.State, st: Stages, input: Bytes, found: seq<Match>, m: Match) returns (k: Match)
    requires Scanned(s, st, input, found) && input != []
    requires m in st.regex(input) || m in EntropyMatches(input, st.entropy) || (!st.disableContext && m in st.context(input))
    ensures k in found && Key(k) == Key(m)
  {
    var dict :| HoldsAndReports(dict, s, st, input, found);
    var all := AllMatches(st, dict, input);
    AllMatchesSplit(st, dict, input);
    assert m in Others(st, input) && m in all;
    var i :| 0 <= i < |all| && all[i] == m;
    var j := DedupedKeepsFirst(all, {}, i);
    k := all[j];
  }

  /** With them off, what they would find does not matter. */
  lemma ContextUnseen(s: V.State, st: Stages, input: Bytes, found: seq<Match>, other: Bytes -> seq<Match>)
    requires st.disableContext
    ensures Scanned(s, st, input, found) <==> Scanned(s, st.(context := other), input, found)
  {
    forall dict ensures HoldsAndReports(dict, s, st, input, found) <==>
      HoldsAndReports(dict, s, st.(context := other), input, found)
    {}
    if dict :| HoldsAndReports(dict, s, st, input, found) {
      assert HoldsAndReports(dict, s, st.(context := other), input, found);
    }
  }

  // ---- The spans

  /** Some other stage puts forward the range, with confidence enough to be registered. */
  ghost predicate OtherAt(st: Stages, policy: Policy, input: Bytes, i: nat, j: nat) {
    policy.register && exists m :: PutForward(st, policy, input, i, j, m)
  }

  predicate PutForward(st: Stages, policy: Policy, input: Bytes, i: nat, j: nat, m: Match) {
    m.start == i && m.end == j && First(Others(st, input), Key(m)) == Some(m) && m.confidence >= policy.floor
  }

  /** The range is redacted, if no overlapping one goes first. */
  ghost predicate LiveAt(active: set<Bytes>, st: Stages, policy: Policy, input: Bytes, i: nat, j: nat) {
    i < j <= |input| && input[i..j] !in policy.pass && (KnownRange(active, input, i, j) || OtherAt(st, policy, input, i, j))
  }

  /** The placeholder-bearing spans of a scan, by bounds alone. */
  ghost function LiveSpans(mk: V.Derivation, st: Stages, policy: Policy, active: set<Bytes>, input: Bytes): set<Span> {
    set i: nat, j: nat | i < j <= |input| && mk(input[i..j]) != [] && LiveAt(active, st, policy, input, i, j)
      :: Span(i, j, mk(input[i..j]))
  }

  predicate IsLiveSpan(mk: V.Derivation, input: Bytes, sp: Span) {
    sp.start < sp.end <= |input| && sp.ph == mk(input[sp.start..sp.end]) && sp.ph != []
  }

  lemma LiveSpansExactly(mk: V.Derivation, st: Stages, policy: Policy, active: set<Bytes>, input: Bytes, sp: Span)
    ensures sp in LiveSpans(mk, st, policy, active, input) <==>
      IsLiveSpan(mk, input, sp) && LiveAt(active, st, policy, input, sp.start, sp.end)
  {
  }

  lemma LiveSpansDetermined(mk: V.Derivation, st: Stages, policy: Policy, active: set<Bytes>, input: Bytes)
    ensures BoundsDetermine(LiveSpans(mk, st, policy, active, input))
    ensures InBounds(LiveSpans(mk, st, policy, active, input), |input|)
  {
  }

  lemma ChosenIsLive(active: set<Bytes>, st: Stages, policy: Policy, input: Bytes, m: Match)
    requires Lawful(st) && InReport(active, st, input, m) && Chosen(policy, input, m)
    ensures LiveAt(active, st, policy, input, m.start, m.end) && Text(input, m) == input[m.start..m.end]
  {
    if !IsKnownMatch(active, input, m) {
      FirstIs(Others(st, input), Key(m));
      OthersInBounds(st, input, m);
      assert PutForward(st, policy, input, m.start, m.end, m);
    }
  }

  lemma LiveIsChosen(active: set<Bytes>, st: Stages, policy: Policy, input: Bytes, i: nat, j: nat) returns (m: Match)
    requires LiveAt(active, st, policy, input, i, j)
    ensures InReport(active, st, input, m) && Chosen(policy, input, m) && m.start == i && m.end == j
  {
    if KnownRange(active, input, i, j) {
      m := AcMatch(i, input[i..j]);
    } else {
      m :| PutForward(st, policy, input, i, j, m);
    }
  }

  // ---- Placeholders as a function of the match

  /** Entries sit under their own placeholders, and Register finds what it dereferences. */
  ghost predicate Placing(s: V.State) {
    !s.closed && NoDangling(s) && forall p :: p in s.byPH ==> s.byPH[p].placeholder == p
  }

  /** What registering a text answers: the placeholder the vault holds for it, or else the derived one. */
  function PlacedIn(s: V.State, mk: V.Derivation, text: Bytes): Bytes {
    if text in s.byValue then s.byValue[text] else mk(text)
  }

  /** The placeholder of a match, whenever in the loop its turn comes. */
  function PlaceholderOf(s: V.State, mk: V.Derivation, policy: Policy, input: Bytes, m: Match): Bytes {
    if !Chosen(policy, input, m) then []
    else if m.source == "ac" then mk(Text(input, m))
    else PlacedIn(s, mk, Text(input, m))
  }

  lemma AssignedIsFunction(s: V.State, mk: V.Derivation, policy: Policy, input: Bytes, m: Match)
    requires Placing(s)
    ensures Assigned(s, mk, policy, input, m).1 == PlaceholderOf(s, mk, policy, input, m)
  {
  }

  /** Whatever is registered, every text is placed as before. */
  ghost predicate SamePlaces(s: V.State, t: V.State, mk: V.Derivation) {
    forall text :: PlacedIn(t, mk, text) == PlacedIn(s, mk, text)
  }

  lemma AssignedPlaces(s: V.State, mk: V.Derivation, policy: Policy, input: Bytes, m: Match)
    requires Placing(s)
    ensures var t := Assigned(s, mk, policy, input, m).0; Placing(t) && SamePlaces(s, t, mk)
  {
  }

  lemma {:induction false} AssignedAllPlaces(s: V.State, mk: V.Derivation, policy: Policy, input: Bytes, ms: seq<Match>)
    requires Placing(s)
    ensures var t := AssignedAll(s, mk, policy, input, ms).0; Placing(t) && SamePlaces(s, t, mk)
  {
    if ms != [] {
      var n := |ms| - 1;
      AssignedAllPlaces(s, mk, policy, input, ms[..n]);
      AssignedPlaces(AssignedAll(s, mk, policy, input, ms[..n]).0, mk, policy, input, ms[n]);
    }
  }

  /** out pairs every match with its own placeholder. */
  ghost predicate Labels(s: V.State, mk: V.Derivation, policy: Policy, input: Bytes, ms: seq<Match>, out: seq<WireMatch>) {
    |out| == |ms| && forall i :: 0 <= i < |ms| ==> out[i] == Wire(ms[i], PlaceholderOf(s, mk, policy, input, ms[i]))
  }

  lemma OneMoreLabel(s: V.State, mk: V.Derivation, policy: Policy, input: Bytes, ms: seq<Match>, out: seq<WireMatch>, m: Match)
    requires Labels(s, mk, policy, input, ms, out)
    ensures Labels(s, mk, policy, input, ms + [m], out + [Wire(m, PlaceholderOf(s, mk, policy, input, m))])
  {
  }

  lemma {:induction false} AllAssigned(s: V.State, mk: V.Derivation, policy: Policy, input: Bytes, ms: seq<Match>)
    requires Placing(s)
    ensures Labels(s, mk, policy, input, ms, AssignedAll(s, mk, policy, input, ms).1)
  {
    if ms != [] {
      var n := |ms| - 1;
      AllAssigned(s, mk, policy, input, ms[..n]);
      AssignedAllPlaces(s, mk, policy, input, ms[..n]);
      var (t, out) := AssignedAll(s, mk, policy, input, ms[..n]);
      LastLabel(s, t, mk, policy, input, ms, out);
    }
  }

  lemma LastLabel(s: V.State, t: V.State, mk: V.Derivation, policy: Policy, input: Bytes, ms: seq<Match>, out: seq<WireMatch>)
    requires ms != [] && Placing(t) && SamePlaces(s, t, mk)
    requires Labels(s, mk, policy, input, ms[..|ms| - 1], out)
    ensures Labels(s, mk, policy, input, ms, out + [Wire(ms[|ms| - 1], Assigned(t, mk, policy, input, ms[|ms| - 1]).1)])
  {
    var n := |ms| - 1;
    AssignedIsFunction(t, mk, policy, input, ms[n]);
    OneMoreLabel(s, mk, policy, input, ms[..n], out, ms[n]);
    assert ms[..n] + [ms[n]] == ms;
  }

  /** sp is the span of m, which has a placeholder. */
  predicate SpanOfMatch(s: V.State, mk: V.Derivation, policy: Policy, input: Bytes, m: Match, sp: Span) {
    PlaceholderOf(s, mk, policy, input, m) != [] && sp == Span(m.start, m.end, PlaceholderOf(s, mk, policy, input, m))
  }

  lemma BearingIsFunction(s: V.State, mk: V.Derivation, policy: Policy, input: Bytes, ms: seq<Match>,
                          out: seq<WireMatch>, sp: Span)
    requires Labels(s, mk, policy, input, ms, out)
    ensures sp in BearingSpans(out) <==> exists m :: m in ms && SpanOfMatch(s, mk, policy, input, m, sp)
  {
    if w :| w in out && w.placeholder != [] && sp == w.ToSpan() {
      var i :| 0 <= i < |out| && out[i] == w;
      assert ms[i] in ms && SpanOfMatch(s, mk, policy, input, ms[i], sp);
    }
    if m :| m in ms && SpanOfMatch(s, mk, policy, input, m, sp) {
      var i :| 0 <= i < |ms| && ms[i] == m;
      assert out[i] in out && out[i].ToSpan() == sp;
    }
  }

  /** sp is one of the placeholder-bearing spans of a scan, told match by match and without any order. */
  ghost predicate Bears(s: V.State, mk: V.Derivation, st: Stages, policy: Policy, input: Bytes, sp: Span) {
    exists m :: InReport(V.ActiveValues(s), st, input, m) && SpanOfMatch(s, mk, policy, input, m, sp)
  }

  lemma ScanBears(s: V.State, mk: V.Derivation, st: Stages, policy: Policy, input: Bytes, found: seq<Match>, sp: Span)
    requires Scanned(s, st, input, found) && Lawful(st) && Placing(s)
    ensures sp in BearingSpans(AssignedAll(s, mk, policy, input, found).1) <==> Bears(s, mk, st, policy, input, sp)
  {
    AllAssigned(s, mk, policy, input, found);
    BearingIsFunction(s, mk, policy, input, found, AssignedAll(s, mk, policy, input, found).1, sp);
    forall m ensures m in found <==> InReport(V.ActiveValues(s), st, input, m) {
      ReportExactly(s, st, input, found, m);
    }
  }

  // ---- One output

  /** A scan of input in which no two matches on one range carry different placeholders. */
  ghost predicate TieFree(s: V.State, mk: V.Derivation, st: Stages, policy: Policy, input: Bytes) {
    forall a, b :: Bears(s, mk, st, policy, input, a) && Bears(s, mk, st, policy, input, b) && a.start == b.start && a.end == b.end
      ==> a == b
  }

  /** A confident match of another stage lies on a known value whose entry has another placeholder than the derived one. */
  ghost predicate TiedAt(s: V.State, mk: V.Derivation, st: Stages, policy: Policy, input: Bytes, m: Match) {
    && KnownRange(V.ActiveValues(s), input, m.start, m.end) && m.source != "ac"
    && InReport(V.ActiveValues(s), st, input, m) && Chosen(policy, input, m)
    && mk(Text(input, m)) != PlacedIn(s, mk, Text(input, m))
  }

  /** Exactly when no two matches on one range carry different placeholders. */
  lemma TieFreeExactly(s: V.State, mk: V.Derivation, st: Stages, policy: Policy, input: Bytes)
    requires Lawful(st) && (forall w :: mk(w) != []) && forall v :: v in s.byValue ==> s.byValue[v] != []
    ensures TieFree(s, mk, st, policy, input) <==> forall m :: !TiedAt(s, mk, st, policy, input, m)
  {
    if m :| TiedAt(s, mk, st, policy, input, m) {
      TieShows(s, mk, st, policy, input, m);
    }
    if a, b :| Bears(s, mk, st, policy, input, a) && Bears(s, mk, st, policy, input, b) && a.start == b.start && a.end == b.end
               && a != b
    {
      var m := TieOf(s, mk, st, policy, input, a, b);
    }
  }

  lemma TieShows(s: V.State, mk: V.Derivation, st: Stages, policy: Policy, input: Bytes, m: Match)
    requires TiedAt(s, mk, st, policy, input, m) && (forall w :: mk(w) != []) && forall v :: v in s.byValue ==> s.byValue[v] != []
    ensures !TieFree(s, mk, st, policy, input)
  {
    var v := input[m.start..m.end];
    var k := AcMatch(m.start, v);
    var a, b := Span(m.start, m.end, mk(v)), Span(m.start, m.end, PlacedIn(s, mk, v));
    assert IsKnownMatch(V.ActiveValues(s), input, k) && SpanOfMatch(s, mk, policy, input, k, a);
    assert SpanOfMatch(s, mk, policy, input, m, b);
    assert Bears(s, mk, st, policy, input, a) && Bears(s, mk, st, policy, input, b);
  }

  lemma TieOf(s: V.State, mk: V.Derivation, st: Stages, policy: Policy, input: Bytes, a: Span, b: Span) returns (m: Match)
    requires Lawful(st) && Bears(s, mk, st, policy, input, a) && Bears(s, mk, st, policy, input, b)
    requires a.start == b.start && a.end == b.end && a != b
    ensures TiedAt(s, mk, st, policy, input, m)
  {
    var n;
    m :| InReport(V.ActiveValues(s), st, input, m) && SpanOfMatch(s, mk, policy, input, m, a);
    n :| InReport(V.ActiveValues(s), st, input, n) && SpanOfMatch(s, mk, policy, input, n, b);
    KnownSource(V.ActiveValues(s), st, input, m);
    KnownSource(V.ActiveValues(s), st, input, n);
    if m.source == "ac" {
      m := n;
    }
  }

  lemma KnownSource(active: set<Bytes>, st: Stages, input: Bytes, m: Match)
    requires Lawful(st) && InReport(active, st, input, m)
    ensures m.source == "ac" <==> IsKnownMatch(active, input, m)
  {
    if !IsKnownMatch(active, input, m) {
      FirstIs(Others(st, input), Key(m));
      OthersInBounds(st, input, m);
    }
  }

  /** Exactly when every selection of the spans of a scan has one answer. */
  lemma OneScanAnswerExactly(s: V.State, mk: V.Derivation, st: Stages, policy: Policy, input: Bytes, found: seq<Match>)
    requires Scanned(s, st, input, found) && Lawful(st) && Placing(s)
    ensures TieFree(s, mk, st, policy, input) <==>
      forall some :: some <= BearingSpans(AssignedAll(s, mk, policy, input, found).1) ==> OneAnswer(input, some)
  {
    var spans := BearingSpans(AssignedAll(s, mk, policy, input, found).1);
    forall sp ensures sp in spans <==> Bears(s, mk, st, policy, input, sp) {
      ScanBears(s, mk, st, policy, input, found, sp);
    }
    ScanInBounds(s, st, input, found);
    WiresInBounds(s, mk, policy, input, found);
    OneAnswerExactly(input, spans);
  }

  /**
   * One text, one vault, one policy: one output, as long as no two matches on one range carry different
   * placeholders. It does not matter in which order the vault's map yields its values, how the sort breaks ties,
   * or whether the daemon's redactor or the proxy's ran; p1 and p2 may label their registrations differently.
   */
  lemma OutputUnique(s: V.State, mk: V.Derivation, st: Stages, p1: Policy, p2: Policy, input: Bytes,
                     t1: V.State, t2: V.State, out1: Bytes, out2: Bytes)
    requires Lawful(st) && Placing(s) && TieFree(s, mk, st, p1, input)
    requires p1.register == p2.register && p1.floor == p2.floor && p1.pass == p2.pass
    requires Scans(s, mk, st, p1, input, t1, out1) && Scans(s, mk, st, p2, input, t2, out2)
    ensures out1 == out2
  {
    var f1 :| ScansWith(s, mk, st, p1, input, f1, t1, out1);
    var f2 :| ScansWith(s, mk, st, p2, input, f2, t2, out2);
    var s1, s2 := BearingSpans(AssignedAll(s, mk, p1, input, f1).1), BearingSpans(AssignedAll(s, mk, p2, input, f2).1);
    SameSpans(s, mk, st, p1, p2, input, f1, f2);
    OneScanAnswerExactly(s, mk, st, p1, input, f1);
    assert OneAnswer(input, s1);
  }

  lemma SameSpans(s: V.State, mk: V.Derivation, st: Stages, p1: Policy, p2: Policy, input: Bytes, f1: seq<Match>, f2: seq<Match>)
    requires Lawful(st) && Placing(s) && Scanned(s, st, input, f1) && Scanned(s, st, input, f2)
    requires p1.register == p2.register && p1.floor == p2.floor && p1.pass == p2.pass
    ensures BearingSpans(AssignedAll(s, mk, p1, input, f1).1) == BearingSpans(AssignedAll(s, mk, p2, input, f2).1)
  {
    var s1, s2 := BearingSpans(AssignedAll(s, mk, p1, input, f1).1), BearingSpans(AssignedAll(s, mk, p2, input, f2).1);
    forall sp ensures sp in s1 <==> sp in s2 {
      ScanBears(s, mk, st, p1, input, f1, sp);
      ScanBears(s, mk, st, p2, input, f2, sp);
      SameBearing(s, mk, st, p1, p2, input, sp);
    }
  }

  lemma SameBearing(s: V.State, mk: V.Derivation, st: Stages, p1: Policy, p2: Policy, input: Bytes, sp: Span)
    requires p1.register == p2.register && p1.floor == p2.floor && p1.pass == p2.pass
    ensures Bears(s, mk, st, p1, input, sp) <==> Bears(s, mk, st, p2, input, sp)
  {
    forall m ensures SpanOfMatch(s, mk, p1, input, m, sp) <==> SpanOfMatch(s, mk, p2, input, m, sp) {}
  }

  // ---- Vaults whose active values carry their derived placeholders

  ghost predicate ActiveDerived(s: V.State, mk: V.Derivation) {
    forall v :: v in V.ActiveValues(s) && v != [] ==> PlacedIn(s, mk, v) == mk(v)
  }

  lemma DerivedTieFree(s: V.State, mk: V.Derivation, st: Stages, policy: Policy, input: Bytes)
    requires Lawful(st) && ActiveDerived(s, mk)
    ensures TieFree(s, mk, st, policy, input)
  {
    forall a, b | Bears(s, mk, st, policy, input, a) && Bears(s, mk, st, policy, input, b) && a.start == b.start && a.end == b.end
      ensures a == b
    {
      var m :| InReport(V.ActiveValues(s), st, input, m) && SpanOfMatch(s, mk, policy, input, m, a);
      var n :| InReport(V.ActiveValues(s), st, input, n) && SpanOfMatch(s, mk, policy, input, n, b);
      KnownSource(V.ActiveValues(s), st, input, m);
      KnownSource(V.ActiveValues(s), st, input, n);
    }
  }

  /** ph places texts as the vault does. */
  ghost predicate Places(s: V.State, mk: V.Derivation, ph: V.Derivation) {
    forall text :: ph(text) == PlacedIn(s, mk, text)
  }

  lemma BearsIsLive(s: V.State, mk: V.Derivation, ph: V.Derivation, st: Stages, policy: Policy, input: Bytes, sp: Span)
    requires Lawful(st) && ActiveDerived(s, mk) && Places(s, mk, ph)
    ensures Bears(s, mk, st, policy, input, sp) <==> sp in LiveSpans(ph, st, policy, V.ActiveValues(s), input)
  {
    var active := V.ActiveValues(s);
    LiveSpansExactly(ph, st, policy, active, input, sp);
    if m :| InReport(active, st, input, m) && SpanOfMatch(s, mk, policy, input, m, sp) {
      ChosenIsLive(active, st, policy, input, m);
      KnownSource(active, st, input, m);
    }
    if sp in LiveSpans(ph, st, policy, active, input) {
      var m := LiveIsChosen(active, st, policy, input, sp.start, sp.end);
      KnownSource(active, st, input, m);
      assert SpanOfMatch(s, mk, policy, input, m, sp);
    }
  }

  /** The spans such a vault redacts are those live under its active values, by bounds alone. */
  lemma ScanSpans(s: V.State, mk: V.Derivation, ph: V.Derivation, st: Stages, policy: Policy, input: Bytes, found: seq<Match>)
    requires Scanned(s, st, input, found) && Lawful(st) && Placing(s) && ActiveDerived(s, mk) && Places(s, mk, ph)
    ensures BearingSpans(AssignedAll(s, mk, policy, input, found).1) == LiveSpans(ph, st, policy, V.ActiveValues(s), input)
  {
    var out, live := AssignedAll(s, mk, policy, input, found).1, LiveSpans(ph, st, policy, V.ActiveValues(s), input);
    forall sp ensures sp in BearingSpans(out) <==> sp in live {
      ScanBears(s, mk, st, policy, input, found, sp);
      BearsIsLive(s, mk, ph, st, policy, input, sp);
    }
  }

  /** The texts a scan replaces are among values. */
  ghost predicate LiveIn(active: set<Bytes>, st: Stages, policy: Policy, input: Bytes, values: iset<Bytes>) {
    forall i: nat, j: nat :: LiveAt(active, st, policy, input, i, j) ==> input[i..j] in values
  }

  lemma LiveChosenIn(s: V.State, st: Stages, policy: Policy, input: Bytes, found: seq<Match>, values: iset<Bytes>)
    requires Scanned(s, st, input, found) && Lawful(st)
    ensures ChosenIn(policy, input, found, values) <==> LiveIn(V.ActiveValues(s), st, policy, input, values)
  {
    forall i | 0 <= i < |found| && Chosen(policy, input, found[i])
      ensures LiveAt(V.ActiveValues(s), st, policy, input, found[i].start, found[i].end)
      ensures Text(input, found[i]) == input[found[i].start..found[i].end]
    {
      ReportExactly(s, st, input, found, found[i]);
      ChosenIsLive(V.ActiveValues(s), st, policy, input, found[i]);
    }
    forall i: nat, j: nat | LiveAt(V.ActiveValues(s), st, policy, input, i, j)
      ensures exists n :: 0 <= n < |found| && Chosen(policy, input, found[n]) && Text(input, found[n]) == input[i..j]
    {
      var m := LiveIsChosen(V.ActiveValues(s), st, policy, input, i, j);
      ReportExactly(s, st, input, found, m);
      var n :| 0 <= n < |found| && found[n] == m;
    }
  }

  /** What such a scan answers: a redaction of the live spans. */
  lemma ScanAnswers(s: V.State, mk: V.Derivation, ph: V.Derivation, st: Stages, policy: Policy, input: Bytes,
                    t: V.State, out: Bytes)
    requires Scans(s, mk, st, policy, input, t, out) && Lawful(st) && Placing(s) && ActiveDerived(s, mk) && Places(s, mk, ph)
    ensures IsRedaction(input, LiveSpans(ph, st, policy, V.ActiveValues(s), input), out)
  {
    var found :| ScansWith(s, mk, st, policy, input, found, t, out);
    ScanSpans(s, mk, ph, st, policy, input, found);
  }

  /** When all placeholders derive from their values, texts are placed as derived. */
  lemma SoundPlaces(s: V.State, mk: V.Derivation)
    requires V.Inverse(s) && V.Derived(s, mk) && !s.closed
    ensures Placing(s) && ActiveDerived(s, mk) && Places(s, mk, mk)
  {
    forall v | v in s.byValue ensures s.byValue[v] == mk(v) {
      assert s.byPH[s.byValue[v]].value == v;
    }
  }
}
