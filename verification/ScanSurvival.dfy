/** Exactly which known values no scan can leave in its output, with runs of the scanner that leave the others. */
module ScanSurvival {
  import opened ByteText
  import opened KnownValues
  import opened Entropy
  import opened Detector
  import opened Redaction
  import opened Survival
  import opened Scanning
  import opened OrderIndependence
  import opened Streaming
  import V = Vault

  // ---- A scan of a text in which the pattern table finds one range

  const ZEROS: Bytes := [AT] + TOKEN + [48, 48, 48, 48, 48, 48] + [AT]
  const ONES: Bytes := [AT] + TOKEN + [49, 49, 49, 49, 49, 49] + [AT]

  function Another(p: Bytes): Bytes {
    if p == ZEROS then ONES else ZEROS
  }

  lemma AnotherPlaceholder(p: Bytes)
    ensures IsPlaceholder(Another(p)) && Another(p) != p
  {
    assert ZEROS[0] == AT && ONES[0] == AT && ZEROS[7] != ONES[7];
  }

  /** p for u, another placeholder for all else. */
  function Marking(u: Bytes, p: Bytes): V.Derivation {
    w => if w == u then p else Another(p)
  }

  function Finding(text: Bytes, i: nat, j: nat): Stages {
    Stages(Present, x => if x == text then [Match(i, j, "api_key", "regex", 1.0)] else [], x => [],
           Stage(0, 0.0, x => 0.0), true)
  }

  const REGISTERING: Policy := Policy(true, 0.85, {}, "auto:")

  function Holding(v: Bytes, mk: V.Derivation): V.State {
    V.Apply(V.EMPTY, V.Register(v, "", "", []), mk).0
  }

  lemma FindingLawful(text: Bytes, i: nat, j: nat)
    requires i < j <= |text|
    ensures Lawful(Finding(text, i, j))
  {
    LawfulMatcherExists();
    var st := Finding(text, i, j);
    forall x ensures WithinInput(st.regex(x), |x|) && WithinInput(st.context(x), |x|) {}
  }

  lemma HoldingSound(v: Bytes, mk: V.Derivation, values: iset<Bytes>)
    requires v in values && V.CollisionFree(mk, values)
    ensures Sound(Holding(v, mk), mk, values) && V.ActiveValues(Holding(v, mk)) == {v}
  {
    V.StepWithoutRotation(V.EMPTY, V.Register(v, "", "", []), mk, values);
    var s := Holding(v, mk);
    assert s.byPH.Keys == {mk(v)} && s.byPH[mk(v)].value == v;
    forall w ensures w in V.ActiveValues(s) <==> w == v {
      assert w == v ==> mk(v) in s.byPH && s.byPH[mk(v)].value == w;
    }
  }

  lemma FindingOthers(policy: Policy, text: Bytes, i: nat, j: nat, a: nat, b: nat)
    requires policy.register && policy.floor <= 1.0
    ensures OtherAt(Finding(text, i, j), policy, text, a, b) <==> a == i && b == j
  {
    var st, m := Finding(text, i, j), Match(i, j, "api_key", "regex", 1.0);
    assert Others(st, text) == [m];
    assert [m][1..] == [];
    assert First([m], Key(m)) == Some(m);
    if a == i && b == j {
      assert PutForward(st, policy, text, a, b, m);
    }
    forall n | PutForward(st, policy, text, a, b, n) ensures n == m {
      FirstIs([m], Key(n));
    }
  }

  lemma KnownAlone(v: Bytes, text: Bytes, a: nat, b: nat)
    requires v != []
    ensures KnownRange({v}, text, a, b) <==> a in Hits(text, v, 0) && b == a + |v|
  {
    if a in Hits(text, v, 0) {
      HitText(text, v, a);
    }
  }

  lemma FindingSpans(v: Bytes, text: Bytes, i: nat, j: nat, p: Bytes)
    requires v != [] && i < j <= |text| && text[i..j] != v && IsPlaceholder(p)
    ensures LiveSpans(Marking(text[i..j], p), Finding(text, i, j), REGISTERING, {v}, text)
         == KnownSpans(text, v, Another(p)) + {Span(i, j, p)}
  {
    var mk, st := Marking(text[i..j], p), Finding(text, i, j);
    AnotherPlaceholder(p);
    forall sp ensures sp in LiveSpans(mk, st, REGISTERING, {v}, text) <==> sp in KnownSpans(text, v, Another(p)) + {Span(i, j, p)} {
      LiveSpansExactly(mk, st, REGISTERING, {v}, text, sp);
      FindingOthers(REGISTERING, text, i, j, sp.start, sp.end);
      KnownAlone(v, text, sp.start, sp.end);
      KnownSpansMembers(text, v, Another(p), sp);
      if sp.start in Hits(text, v, 0) {
        HitText(text, v, sp.start);
      }
    }
  }

  /** A scan in which v is a known value: nothing in it collides, and every placeholder derives from its value. */
  ghost predicate ScansKnowing(v: Bytes, mk: V.Derivation, st: Stages, policy: Policy, s: V.State, values: iset<Bytes>,
                               input: Bytes, t: V.State, out: Bytes) {
    && V.DerivesPlaceholders(mk) && Lawful(st) && Sound(s, mk, values)
    && LiveIn(V.ActiveValues(s), st, policy, input, values)
    && v in V.ActiveValues(s) && v !in policy.pass
    && Scans(s, mk, st, policy, input, t, out)
  }

  /** out is what some scan that knows v makes of input. */
  ghost predicate ScannedTo(v: Bytes, input: Bytes, out: Bytes) {
    exists mk, st, policy, s, values, t :: ScansKnowing(v, mk, st, policy, s, values, input, t, out)
  }

  /** Some scan that knows v leaves it in its output. */
  ghost predicate Survives(v: Bytes) {
    exists input, out :: ScannedTo(v, input, out) && Occurs(out, v)
  }

  lemma MarkingDerives(u: Bytes, p: Bytes)
    requires IsPlaceholder(p)
    ensures V.DerivesPlaceholders(Marking(u, p))
  {
    AnotherPlaceholder(p);
  }

  lemma FindingLive(v: Bytes, text: Bytes, i: nat, j: nat)
    requires i < j <= |text|
    ensures LiveIn({v}, Finding(text, i, j), REGISTERING, text, iset{text[i..j], v})
  {
    forall a: nat, b: nat | LiveAt({v}, Finding(text, i, j), REGISTERING, text, a, b) ensures text[a..b] in iset{text[i..j], v} {
      FindingOthers(REGISTERING, text, i, j, a, b);
    }
  }

  lemma KnowingScan(v: Bytes, mk: V.Derivation, st: Stages, policy: Policy, s: V.State, values: iset<Bytes>, text: Bytes)
    returns (out: Bytes)
    requires V.DerivesPlaceholders(mk) && Lawful(st) && Sound(s, mk, values) && v in V.ActiveValues(s) && v !in policy.pass
    requires LiveIn(V.ActiveValues(s), st, policy, text, values)
    ensures ScannedTo(v, text, out)
    ensures IsRedaction(text, LiveSpans(mk, st, policy, V.ActiveValues(s), text), out)
  {
    var t;
    t, out := ScanExists(s, mk, st, policy, text);
    SoundPlaces(s, mk);
    ScanAnswers(s, mk, mk, st, policy, text, t, out);
    assert ScansKnowing(v, mk, st, policy, s, values, text, t, out);
  }

  lemma MarkingApart(u: Bytes, v: Bytes, p: Bytes)
    requires u != v
    ensures V.CollisionFree(Marking(u, p), iset{u, v})
  {
    AnotherPlaceholder(p);
  }

  /** The vault holds v, the table finds text[i..j], and p is its placeholder. */
  lemma FindingScan(v: Bytes, text: Bytes, i: nat, j: nat, p: Bytes) returns (out: Bytes)
    requires v != [] && i < j <= |text| && text[i..j] != v && IsPlaceholder(p)
    ensures ScannedTo(v, text, out)
    ensures IsRedaction(text, KnownSpans(text, v, Another(p)) + {Span(i, j, p)}, out)
  {
    var values := iset{text[i..j], v};
    var mk, st := Marking(text[i..j], p), Finding(text, i, j);
    MarkingDerives(text[i..j], p);
    MarkingApart(text[i..j], v, p);
    FindingLawful(text, i, j);
    HoldingSound(v, mk, values);
    FindingLive(v, text, i, j);
    FindingSpans(v, text, i, j, p);
    out := KnowingScan(v, mk, st, REGISTERING, Holding(v, mk), values, text);
  }

  // ---- The two ways to survive

  /** If whatever redacts the known hits and one found range still shows v, some scan leaves v. */
  lemma FindingSurvives(v: Bytes, text: Bytes, i: nat, j: nat, p: Bytes)
    requires v != [] && i < j <= |text| && text[i..j] != v && IsPlaceholder(p)
    requires forall out :: IsRedaction(text, KnownSpans(text, v, Another(p)) + {Span(i, j, p)}, out) ==> Occurs(out, v)
    ensures Survives(v)
  {
    var out := FindingScan(v, text, i, j, p);
    assert Occurs(out, v);
  }

  lemma BorderedSpans(v: Bytes, text: Bytes)
    requires v != [] && Hits(text, v, 0) == [1]
    ensures KnownSpans(text, v, ONES) + {Span(0, 2, ZEROS)} == {Span(0, 2, ZEROS), Span(1, 1 + |v|, ONES)}
  {
    forall s ensures s in KnownSpans(text, v, ONES) <==> s == Span(1, 1 + |v|, ONES) {
      KnownSpansMembers(text, v, ONES, s);
    }
  }

  /** A bordered value survives a scan that finds the two bytes around the front of its first occurrence. */
  lemma BorderedSurvivesScan(v: Bytes)
    requires Bordered(v)
    ensures Survives(v)
  {
    var n :| 0 < n < |v| && v[..n] == v[|v| - n..];
    var input := WrappedPeriod(v, n);
    ForeignFront(input, v);
    AnotherPlaceholder(ONES);
    OnlyHit(input, v);
    BorderedSpans(v, input);
    forall out | IsRedaction(input, {Span(0, 2, ZEROS), Span(1, 1 + |v|, ONES)}, out) ensures Occurs(out, v) {
      BorderedSurvives(v, input, 1 + |v| - n, ZEROS, ONES, out);
    }
    FindingSurvives(v, input, 0, 2, ZEROS);
  }

  lemma ForeignFront(text: Bytes, v: Bytes)
    requires 2 <= |text| && 0 < |v| && text[0] != v[0]
    ensures text[0..2] != v
  {
    assert text[0..2][0] == text[0];
  }

  lemma NoKnownSpans(text: Bytes, v: Bytes, q: Bytes, s: Span)
    requires v != [] && Hits(text, v, 0) == []
    ensures KnownSpans(text, v, q) + {s} == {s}
  {
  }

  /** A value that agrees with part of a placeholder survives a scan that puts that placeholder between its remains. */
  lemma AgreeingSurvivesScan(v: Bytes, p: Bytes, i: int)
    requires v != [] && IsPlaceholder(p) && Agrees(v, p, i)
    ensures Survives(v)
  {
    var input, g := Squeezed(v, p, i);
    ForeignByte(input, g, v);
    NoKnownSpans(input, v, Another(p), Span(g, g + 1, p));
    forall out | IsRedaction(input, {Span(g, g + 1, p)}, out) ensures Occurs(out, v) {
      OneSpanAnswer(input, Span(g, g + 1, p), out);
    }
    FindingSurvives(v, input, g, g + 1, p);
  }

  lemma ForeignByte(text: Bytes, g: nat, v: Bytes)
    requires g < |text| && g < |v| && text[g] != v[g]
    ensures text[g..g + 1] != v
  {
    assert text[g..g + 1][0] == text[g];
  }

  // ---- Exactly

  ghost function AllPlaceholders(): iset<Bytes> {
    iset p: Bytes | IsPlaceholder(p)
  }

  lemma SafeVanishes(v: Bytes, input: Bytes, out: Bytes)
    requires v != [] && Safe(v, AllPlaceholders()) && ScannedTo(v, input, out)
    ensures !Occurs(out, v)
  {
    var mk, st, policy, s, values, t :| ScansKnowing(v, mk, st, policy, s, values, input, t, out);
    var found :| ScansWith(s, mk, st, policy, input, found, t, out);
    KnownValuesVanish(s, mk, st, policy, input, found, v, AllPlaceholders(), out);
  }

  /**
   * Exactly which known values are gone from the output of every scan, for all vaults, stages, policies, texts and
   * collision-free derivations: those that have no border and agree with no part of a placeholder.
   */
  lemma ScanSurvivalExactly(v: Bytes)
    requires v != []
    ensures Safe(v, AllPlaceholders()) <==> !Survives(v)
  {
    if Safe(v, AllPlaceholders()) {
      forall input, out | ScannedTo(v, input, out) ensures !Occurs(out, v) {
        SafeVanishes(v, input, out);
      }
    } else if Bordered(v) {
      BorderedSurvivesScan(v);
    } else {
      var p, i :| p in AllPlaceholders() && Agrees(v, p, i);
      AgreeingSurvivesScan(v, p, i);
    }
  }
}
