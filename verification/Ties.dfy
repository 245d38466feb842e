/** Exactly which vaults let the order of matches show in the output. */
module Ties {
  import opened ByteText
  import opened KnownValues
  import opened Entropy
  import opened Detector
  import opened Redaction
  import opened Redactors
  import opened Scanning
  import opened OrderIndependence
  import S = ScanSurvival
  import V = Vault

  // ---- Two kinds that do not share a key

  lemma HashTo(s: string, c: char, t: string, h: int)
    requires t == s + [c] && HashOf(s) == h && 0 <= h < 0x1000_0000_0000_00
    ensures HashOf(t) == h * 31 + c as int
  {
    assert t[..|t| - 1] == s && t[|t| - 1] == c;
  }

  lemma HashOfKnown()
    ensures HashOf("ac_exact") == 2759403149474
  {
    HashTo("", 'a', "a", 0);
    HashTo("a", 'c', "ac", 97);
    HashTo("ac", '_', "ac_", 3106);
    HashTo("ac_", 'e', "ac_e", 96381);
    HashTo("ac_e", 'x', "ac_ex", 2987912);
    HashTo("ac_ex", 'a', "ac_exa", 92625392);
    HashTo("ac_exa", 'c', "ac_exac", 2871387249);
    HashTo("ac_exac", 't', "ac_exact", 89013004818);
  }

  lemma HashOfKey()
    ensures HashOf("api_key") == 89394227898
  {
    HashTo("", 'a', "a", 0);
    HashTo("a", 'p', "ap", 97);
    HashTo("ap", 'i', "api", 3119);
    HashTo("api", '_', "api_", 96794);
    HashTo("api_", 'k', "api_k", 3000709);
    HashTo("api_k", 'e', "api_ke", 93022086);
    HashTo("api_ke", 'y', "api_key", 2883684767);
  }

  // ---- A text that is one known value, also found by the table

  lemma WholeTextAnswer(text: Bytes, spans: set<Span>, sp: Span)
    requires sp in spans && InBounds(spans, |text|) && sp.start == 0 && sp.end == |text|
    ensures IsRedaction(text, spans, sp.ph)
  {
    SpliceOne(text, sp);
    assert [sp][1..] == [] && text[..0] + sp.ph + text[|text|..] == sp.ph;
    assert IsGreedy([sp], spans, 0);
  }

  lemma KnownBears(s: V.State, mk: V.Derivation, st: Stages, policy: Policy, v: Bytes)
    requires v in V.ActiveValues(s) && v != [] && v !in policy.pass && mk(v) != []
    ensures Bears(s, mk, st, policy, v, Span(0, |v|, mk(v)))
  {
    var k := AcMatch(0, v);
    assert v[0..|v|] == v;
    assert OccursAt(v, v, 0);
    IndexFromIs(v, v, 0, 0);
    HitsStep(v, v, 0);
    assert InReport(V.ActiveValues(s), st, v, k) && SpanOfMatch(s, mk, policy, v, k, Span(0, |v|, mk(v)));
  }

  lemma TableBears(s: V.State, mk: V.Derivation, v: Bytes)
    requires v != [] && PlacedIn(s, mk, v) != []
    ensures Bears(s, mk, S.Finding(v, 0, |v|), S.REGISTERING, v, Span(0, |v|, PlacedIn(s, mk, v)))
  {
    var st, m := S.Finding(v, 0, |v|), Match(0, |v|, "api_key", "regex", 1.0);
    HashOfKnown();
    HashOfKey();
    assert v[0..|v|] == v && Others(st, v) == [m];
    assert First([m], Key(m)) == Some(m);
    assert InReport(V.ActiveValues(s), st, v, m) && SpanOfMatch(s, mk, S.REGISTERING, v, m, Span(0, |v|, PlacedIn(s, mk, v)));
  }

  /** One scan of v alone may answer either placeholder, as the sort happens to order the two matches. */
  lemma EitherAnswer(s: V.State, mk: V.Derivation, st: Stages, v: Bytes) returns (t: V.State)
    requires Placing(s) && Lawful(st) && v != []
    requires Bears(s, mk, st, S.REGISTERING, v, Span(0, |v|, mk(v)))
    requires Bears(s, mk, st, S.REGISTERING, v, Span(0, |v|, PlacedIn(s, mk, v)))
    ensures Scans(s, mk, st, S.REGISTERING, v, t, mk(v)) && Scans(s, mk, st, S.REGISTERING, v, t, PlacedIn(s, mk, v))
  {
    var out;
    t, out := ScanExists(s, mk, st, S.REGISTERING, v);
    var found :| ScansWith(s, mk, st, S.REGISTERING, v, found, t, out);
    AnswerOf(s, mk, st, S.REGISTERING, v, found, t, out, mk(v));
    AnswerOf(s, mk, st, S.REGISTERING, v, found, t, out, PlacedIn(s, mk, v));
  }

  lemma AnswerOf(s: V.State, mk: V.Derivation, st: Stages, policy: Policy, v: Bytes, found: seq<Match>, t: V.State, out: Bytes,
                 p: Bytes)
    requires Placing(s) && Lawful(st) && v != [] && ScansWith(s, mk, st, policy, v, found, t, out)
    requires Bears(s, mk, st, policy, v, Span(0, |v|, p))
    ensures Scans(s, mk, st, policy, v, t, p)
  {
    ScanInBounds(s, st, v, found);
    WiresInBounds(s, mk, policy, v, found);
    ScanBears(s, mk, st, policy, v, found, Span(0, |v|, p));
    WholeTextAnswer(v, BearingSpans(AssignedAll(s, mk, policy, v, found).1), Span(0, |v|, p));
    assert ScansWith(s, mk, st, policy, v, found, t, p);
  }

  /** Every lawful scan of every text under every policy has one output. */
  ghost predicate OneOutput(s: V.State, mk: V.Derivation) {
    forall st, policy, input, t1, t2, out1, out2 ::
      Lawful(st) && Scans(s, mk, st, policy, input, t1, out1) && Scans(s, mk, st, policy, input, t2, out2) ==> out1 == out2
  }

  /**
   * Exactly which vaults have one output for every scan: those whose active values carry their derived placeholders. A
   * value rotated in carries another one, and a scan that finds it both ways may answer either.
   */
  lemma OneOutputExactly(s: V.State, mk: V.Derivation)
    requires Placing(s) && (forall w :: mk(w) != []) && forall v :: v in s.byValue ==> s.byValue[v] != []
    ensures OneOutput(s, mk) <==> ActiveDerived(s, mk)
  {
    if ActiveDerived(s, mk) {
      forall st, policy, input, t1, t2, out1, out2
        | Lawful(st) && Scans(s, mk, st, policy, input, t1, out1) && Scans(s, mk, st, policy, input, t2, out2)
        ensures out1 == out2
      {
        DerivedTieFree(s, mk, st, policy, input);
        OutputUnique(s, mk, st, policy, policy, input, t1, t2, out1, out2);
      }
    } else {
      var v :| v in V.ActiveValues(s) && v != [] && PlacedIn(s, mk, v) != mk(v);
      KnownBears(s, mk, S.Finding(v, 0, |v|), S.REGISTERING, v);
      TableBears(s, mk, v);
      S.FindingLawful(v, 0, |v|);
      var t := EitherAnswer(s, mk, S.Finding(v, 0, |v|), v);
    }
  }

  /** So after one rotation: the text that is the rotated-in value has two outputs. */
  lemma RotationTies(mk: V.Derivation, a: Bytes, b: Bytes)
    requires a != b && b != [] && mk(a) != mk(b) && forall w :: mk(w) != []
    ensures !OneOutput(V.Run(V.EMPTY, [V.Register(a, "", "", []), V.Rotate(mk(a), b)], mk), mk)
  {
    var s := V.Run(V.EMPTY, [V.Register(a, "", "", []), V.Rotate(mk(a), b)], mk);
    RotatedValueUnresolvable(mk, a, b);
    assert V.Inverse(s) && b in s.byValue && s.byValue[b] in s.byPH;
    RotatedState(mk, a, b);
    OneOutputExactly(s, mk);
    assert PlacedIn(s, mk, b) != mk(b);
  }

  lemma RotatedState(mk: V.Derivation, a: Bytes, b: Bytes)
    requires a != b
    ensures var s := V.Run(V.EMPTY, [V.Register(a, "", "", []), V.Rotate(mk(a), b)], mk); !s.closed && s.byPH.Keys == {mk(a)}
  {
    var ops := [V.Register(a, "", "", []), V.Rotate(mk(a), b)];
    var s1 := V.Apply(V.EMPTY, ops[0], mk).0;
    assert ops[1..] == [ops[1]] && ops[1..][1..] == [];
    V.RunStep(V.EMPTY, ops, mk);
    V.RunStep(s1, ops[1..], mk);
  }
}
