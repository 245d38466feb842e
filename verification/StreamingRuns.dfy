/** Streams that differ from the same body scanned whole, with both outputs written out. */
module StreamingRuns {
  import opened ByteText
  import opened KnownValues
  import opened Entropy
  import opened Detector
  import opened Redaction
  import opened Scanning
  import opened Survival
  import opened OrderIndependence
  import opened Streaming
  import opened LiveStreaming
  import S = ScanSurvival
  import V = Vault

  // ---- What an earlier line registered

  // "abcd"
  const SECRET: Bytes := [97, 98, 99, 100]
  // "xabcd\n"
  const LATER: Bytes := [120, 97, 98, 99, 100, NEWLINE]

  /** Only the entropy stage, which scores the run "abcd" high and every other run low. */
  function ScoringOne(): Stages {
    Stages(Present, x => [], x => [], Stage(4, 1.0, run => if run == SECRET then 8.0 else 0.0), true)
  }

  lemma ScoringOneLawful()
    ensures Lawful(ScoringOne()) && LineLocalStages(ScoringOne())
  {
    LawfulMatcherExists();
    var st := ScoringOne();
    forall x ensures WithinInput(st.regex(x), |x|) && WithinInput(st.context(x), |x|) {}
    forall a, b | EndsLine(a) ensures Splits(st.regex(a + b), st.regex(a), st.regex(b), |a|) {}
  }

  /** The stage puts forward exactly the maximal runs "abcd". */
  lemma ScoringOneOthers(policy: Policy, x: Bytes, i: nat, j: nat)
    requires policy.register && policy.floor <= 0.9
    ensures OtherAt(ScoringOne(), policy, x, i, j) <==> IsMaximalRun(x, i, j) && x[i..j] == SECRET
  {
    var st := ScoringOne();
    var others := EntropyMatches(x, st.entropy);
    assert Others(st, x) == others;
    if m :| PutForward(st, policy, x, i, j, m) {
      FirstIs(others, Key(m));
      EntropyExact(x, st.entropy, m);
    }
    if IsMaximalRun(x, i, j) && x[i..j] == SECRET {
      var m := RunMatch(x, i, j, st.entropy);
      EntropyExact(x, st.entropy, m);
      FirstIs(others, Key(m));
      var first := First(others, Key(m)).value;
      EntropyExact(x, st.entropy, first);
      assert PutForward(st, policy, x, i, j, first);
    }
  }

  const PROXYING: Policy := Policy(true, 0.85, {}, "auto:proxy:")
  const FIRST_LINE: Bytes := SECRET + [NEWLINE]

  lemma SecretRuns(i: nat, j: nat)
    ensures IsMaximalRun(FIRST_LINE, i, j) && FIRST_LINE[i..j] == SECRET <==> i == 0 && j == 4
    ensures !(IsMaximalRun(LATER, i, j) && LATER[i..j] == SECRET)
  {
    assert |FIRST_LINE| == 5 && |SECRET| == 4 && FIRST_LINE[4] == NEWLINE && FIRST_LINE[0..4] == SECRET;
    RangeOf(FIRST_LINE, i, j, SECRET);
    RangeOf(LATER, i, j, SECRET);
  }

  lemma RangeOf(x: Bytes, i: nat, j: nat, v: Bytes)
    ensures i < j <= |x| && x[i..j] == v ==> j - i == |v| && x[i] == v[0]
  {
    if i < j <= |x| && x[i..j] == v {
      assert x[i..j][0] == x[i];
    }
  }

  lemma SecretHit(i: nat, j: nat)
    ensures KnownRange({SECRET}, LATER, i, j) <==> i == 1 && j == 5
  {
    assert LATER[1..5] == SECRET && OccursAt(LATER, SECRET, 1);
    DiffersAt(LATER, SECRET, 0, 0);
    IndexFromIs(LATER, SECRET, 0, 1);
    assert Hits(LATER, SECRET, 0) == [1] + Hits(LATER, SECRET, 5);
    IndexFromIsLeftmost(LATER, SECRET, 5);
  }

  lemma FirstLineSpans(mk: V.Derivation)
    requires forall w :: mk(w) != []
    ensures LiveSpans(mk, ScoringOne(), PROXYING, {}, FIRST_LINE) == {Span(0, 4, mk(SECRET))}
    ensures Fresh(ScoringOne(), PROXYING, {}, {}, FIRST_LINE) == {SECRET}
  {
    assert FIRST_LINE[0..4] == SECRET;
    forall i: nat, j: nat ensures LiveAt({}, ScoringOne(), PROXYING, FIRST_LINE, i, j) <==> i == 0 && j == 4 {
      ScoringOneOthers(PROXYING, FIRST_LINE, i, j);
      SecretRuns(i, j);
    }
    forall sp ensures sp in LiveSpans(mk, ScoringOne(), PROXYING, {}, FIRST_LINE) <==> sp == Span(0, 4, mk(SECRET)) {
      LiveSpansExactly(mk, ScoringOne(), PROXYING, {}, FIRST_LINE, sp);
    }
  }

  lemma LaterSpans(mk: V.Derivation)
    requires forall w :: mk(w) != []
    ensures LiveSpans(mk, ScoringOne(), PROXYING, {}, LATER) == {}
    ensures LiveSpans(mk, ScoringOne(), PROXYING, {SECRET}, LATER) == {Span(1, 5, mk(SECRET))}
  {
    assert LATER[1..5] == SECRET;
    forall sp ensures sp !in LiveSpans(mk, ScoringOne(), PROXYING, {}, LATER)
      ensures sp in LiveSpans(mk, ScoringOne(), PROXYING, {SECRET}, LATER) <==> sp == Span(1, 5, mk(SECRET))
    {
      LiveSpansExactly(mk, ScoringOne(), PROXYING, {}, LATER, sp);
      LiveSpansExactly(mk, ScoringOne(), PROXYING, {SECRET}, LATER, sp);
      ScoringOneOthers(PROXYING, LATER, sp.start, sp.end);
      SecretRuns(sp.start, sp.end);
      SecretHit(sp.start, sp.end);
    }
  }

  lemma WholeSpans(mk: V.Derivation)
    requires forall w :: mk(w) != []
    ensures LiveSpans(mk, ScoringOne(), PROXYING, {}, FIRST_LINE + LATER) == {Span(0, 4, mk(SECRET))}
  {
    ScoringOneLawful();
    FirstLineSpans(mk);
    LaterSpans(mk);
    assert EndsLine(FIRST_LINE);
    LineCuts(ScoringOne(), PROXYING, {}, FIRST_LINE, LATER);
    LiveSpansAcross(mk, ScoringOne(), PROXYING, {}, FIRST_LINE, LATER);
    assert ShiftAll({}, |FIRST_LINE|) == {};
  }

  lemma AllLiveIn(mk: V.Derivation, st: Stages, policy: Policy, active: set<Bytes>, x: Bytes, i: nat, j: nat)
    requires (forall w :: mk(w) != []) && i < j <= |x|
    requires LiveSpans(mk, st, policy, active, x) <= {Span(i, j, mk(x[i..j]))}
    ensures LiveIn(active, st, policy, x, iset{x[i..j]})
  {
    forall a: nat, b: nat | LiveAt(active, st, policy, x, a, b) ensures a == i && b == j {
      LiveSpansExactly(mk, st, policy, active, x, Span(a, b, mk(x[a..b])));
    }
  }

  /** A scan in which one span is live. */
  lemma OneSpanScan(s: V.State, mk: V.Derivation, st: Stages, policy: Policy, before: Bytes, v: Bytes, after: Bytes, x: Bytes)
    returns (t: V.State, out: Bytes)
    requires v != [] && x == before + v + after && Lawful(st) && Steady(s, mk, mk, iset{v}) && forall w :: mk(w) != []
    requires LiveSpans(mk, st, policy, V.ActiveValues(s), x) == {Span(|before|, |before + v|, mk(v))}
    ensures Scans(s, mk, st, policy, x, t, out) && out == before + mk(v) + after
    ensures Steady(t, mk, mk, iset{v}) && Knows(t, s, Fresh(st, policy, V.ActiveValues(s), s.byValue.Keys, x))
  {
    var i, j := |before|, |before + v|;
    assert x[i..j] == v && x[..i] == before && x[j..] == after;
    AllLiveIn(mk, st, policy, V.ActiveValues(s), x, i, j);
    t, out := ScanExists(s, mk, st, policy, x);
    SteadyPlaces(s, mk, mk, iset{v});
    ScanAnswers(s, mk, mk, st, policy, x, t, out);
    OneSpanAnswer(x, Span(i, j, mk(v)), out);
    ScanLearns(s, mk, mk, st, policy, x, t, out, iset{v});
  }

  lemma {:induction false} LineLengthOf(a: Bytes, b: Bytes)
    requires EndsLine(a) && NEWLINE !in a[..|a| - 1]
    ensures LineLength(a + b) == |a|
  {
    if |a| > 1 {
      assert a[0] == a[..|a| - 1][0] && (a + b)[1..] == a[1..] + b;
      assert a[1..][..|a| - 2] == a[..|a| - 1][1..];
      LineLengthOf(a[1..], b);
    }
  }

  lemma OneLineStream(s: V.State, mk: V.Derivation, st: Stages, policy: Policy, line: Bytes, t: V.State, out: Bytes)
    requires line != [] && LineLength(line) == |line| && Scans(s, mk, st, policy, line, t, out)
    ensures Streams(s, mk, st, policy, line, t, out)
  {
    assert line[..|line|] == line && line[|line|..] == [] && out + [] == out;
    assert StreamsBy(s, mk, st, policy, line, t, out, [], t);
  }

  lemma OneLineMore(s: V.State, mk: V.Derivation, st: Stages, policy: Policy, line: Bytes, body: Bytes,
                    u: V.State, first: Bytes, t: V.State, rest: Bytes)
    requires EndsLine(line) && NEWLINE !in line[..|line| - 1]
    requires Scans(s, mk, st, policy, line, u, first) && Streams(u, mk, st, policy, body, t, rest)
    ensures Streams(s, mk, st, policy, line + body, t, first + rest)
  {
    LineLengthOf(line, body);
    assert (line + body)[..|line|] == line && (line + body)[|line|..] == body;
    assert StreamsBy(s, mk, st, policy, line + body, u, first, rest, t);
  }

  lemma TextsSplit()
    ensures FIRST_LINE == [] + SECRET + [NEWLINE] && LATER == [120] + SECRET + [NEWLINE]
    ensures FIRST_LINE + LATER == [] + SECRET + ([NEWLINE] + LATER)
    ensures |[] + SECRET| == 4 && |[120] + SECRET| == 5
  {
  }

  lemma WholeDiffers(mk: V.Derivation, st: Stages, body: Bytes) returns (t: V.State, whole: Bytes)
    requires V.DerivesPlaceholders(mk) && st == ScoringOne() && body == FIRST_LINE + LATER
    ensures Scans(V.EMPTY, mk, st, PROXYING, body, t, whole) && whole == [] + mk(SECRET) + ([NEWLINE] + LATER)
  {
    ScoringOneLawful();
    WholeSpans(mk);
    EmptyKnowsNothing(mk, SECRET);
    TextsSplit();
    t, whole := OneSpanScan(V.EMPTY, mk, st, PROXYING, [], SECRET, [NEWLINE] + LATER, body);
  }

  lemma FirstLineScan(mk: V.Derivation, st: Stages, line: Bytes) returns (t: V.State, out: Bytes)
    requires V.DerivesPlaceholders(mk) && st == ScoringOne() && line == FIRST_LINE
    ensures Scans(V.EMPTY, mk, st, PROXYING, line, t, out) && out == [] + mk(SECRET) + [NEWLINE]
    ensures Steady(t, mk, mk, iset{SECRET}) && V.ActiveValues(t) == {SECRET}
  {
    ScoringOneLawful();
    FirstLineSpans(mk);
    EmptyKnowsNothing(mk, SECRET);
    TextsSplit();
    t, out := OneSpanScan(V.EMPTY, mk, st, PROXYING, [], SECRET, [NEWLINE], line);
  }

  lemma LaterScan(s: V.State, mk: V.Derivation, st: Stages, line: Bytes) returns (t: V.State, out: Bytes)
    requires V.DerivesPlaceholders(mk) && st == ScoringOne() && line == LATER
    requires Steady(s, mk, mk, iset{SECRET}) && V.ActiveValues(s) == {SECRET}
    ensures Scans(s, mk, st, PROXYING, line, t, out) && out == [120] + mk(SECRET) + [NEWLINE]
  {
    ScoringOneLawful();
    LaterSpans(mk);
    TextsSplit();
    t, out := OneSpanScan(s, mk, st, PROXYING, [120], SECRET, [NEWLINE], line);
  }

  lemma LaterIsLine()
    ensures LATER != [] && LineLength(LATER) == |LATER| && EndsLine(FIRST_LINE) && NEWLINE !in FIRST_LINE[..|FIRST_LINE| - 1]
  {
    LineLengthOf(LATER, []);
    assert LATER + [] == LATER;
  }

  lemma StreamedDiffers(mk: V.Derivation, st: Stages, line: Bytes, later: Bytes) returns (u: V.State, streamed: Bytes)
    requires V.DerivesPlaceholders(mk) && st == ScoringOne() && line == FIRST_LINE && later == LATER
    ensures Streams(V.EMPTY, mk, st, PROXYING, line + later, u, streamed)
    ensures streamed == ([] + mk(SECRET) + [NEWLINE]) + ([120] + mk(SECRET) + [NEWLINE])
  {
    var v, first := FirstLineScan(mk, st, line);
    var rest;
    u, rest := LaterScan(v, mk, st, later);
    LaterIsLine();
    OneLineStream(v, mk, st, PROXYING, later, u, rest);
    OneLineMore(V.EMPTY, mk, st, PROXYING, line, later, v, first, u, rest);
    streamed := first + rest;
  }

  lemma LengthsDiffer(p: Bytes)
    requires |p| == PLACEHOLDER_LEN
    ensures [] + p + ([NEWLINE] + LATER) != ([] + p + [NEWLINE]) + ([120] + p + [NEWLINE])
  {
    assert |[] + p + ([NEWLINE] + LATER)| == |p| + 7;
    assert |([] + p + [NEWLINE]) + ([120] + p + [NEWLINE])| == 2 * |p| + 3;
  }

  /**
   * Streaming does not equal buffering: "abcd", then "xabcd" on the next line, against an empty vault. Only the
   * first is scored high. Scanned whole, the second stays; streamed, the first line has made it a known value.
   */
  lemma StreamingDiffers(mk: V.Derivation) returns (t: V.State, whole: Bytes, u: V.State, streamed: Bytes)
    requires V.DerivesPlaceholders(mk)
    ensures Scans(V.EMPTY, mk, ScoringOne(), PROXYING, FIRST_LINE + LATER, t, whole)
    ensures Streams(V.EMPTY, mk, ScoringOne(), PROXYING, FIRST_LINE + LATER, u, streamed)
    ensures whole == [] + mk(SECRET) + ([NEWLINE] + LATER)
    ensures streamed == ([] + mk(SECRET) + [NEWLINE]) + ([120] + mk(SECRET) + [NEWLINE])
    ensures whole != streamed
  {
    t, whole := WholeDiffers(mk, ScoringOne(), FIRST_LINE + LATER);
    u, streamed := StreamedDiffers(mk, ScoringOne(), FIRST_LINE, LATER);
    LengthsDiffer(mk(SECRET));
  }

  lemma EmptyKnowsNothing(mk: V.Derivation, v: Bytes)
    ensures Steady(V.EMPTY, mk, mk, iset{v}) && V.ActiveValues(V.EMPTY) == {} && V.EMPTY.byValue.Keys == {}
  {
  }

  // ---- A range that runs over the end of a line

  lemma FindingBody(mk: V.Derivation, body: Bytes, i: nat, j: nat)
    requires V.DerivesPlaceholders(mk) && i < j <= |body|
    ensures LiveSpans(mk, S.Finding(body, i, j), PROXYING, {}, body) == {Span(i, j, mk(body[i..j]))}
  {
    forall sp ensures sp in LiveSpans(mk, S.Finding(body, i, j), PROXYING, {}, body) <==> sp == Span(i, j, mk(body[i..j])) {
      LiveSpansExactly(mk, S.Finding(body, i, j), PROXYING, {}, body, sp);
      S.FindingOthers(PROXYING, body, i, j, sp.start, sp.end);
    }
  }

  lemma NoMatches(body: Bytes, i: nat, j: nat, x: Bytes)
    requires x != body && i < j <= |body|
    ensures ValidHits([], S.Finding(body, i, j).acMatch([], x)) && AllMatches(S.Finding(body, i, j), [], x) == []
  {
    var st := S.Finding(body, i, j);
    S.FindingLawful(body, i, j);
    assert NamesPresent([], x, st.acMatch([], x));
    assert st.acMatch([], x) == [];
  }

  lemma OtherTextFound(st: Stages, body: Bytes, i: nat, j: nat, x: Bytes)
    requires x != [] && x != body && i < j <= |body| && st == S.Finding(body, i, j)
    ensures Scanned(V.EMPTY, st, x, [])
  {
    assert V.ActiveValues(V.EMPTY) == {};
    NoMatches(body, i, j, x);
    assert HoldsAndReports([], V.EMPTY, st, x, []);
  }

  /** A scan of another text leaves it, and the empty vault, as they are. */
  lemma OtherTextScan(mk: V.Derivation, st: Stages, body: Bytes, i: nat, j: nat, x: Bytes)
    requires x != [] && x != body && i < j <= |body| && st == S.Finding(body, i, j)
    ensures Scans(V.EMPTY, mk, st, PROXYING, x, V.EMPTY, x)
  {
    OtherTextFound(st, body, i, j, x);
    NothingReplaced(V.EMPTY, mk, PROXYING, x);
    assert ScansWith(V.EMPTY, mk, st, PROXYING, x, [], V.EMPTY, x);
  }

  /** Lines shorter than the body stream through as they are. */
  lemma {:induction false} OtherTextStream(mk: V.Derivation, st: Stages, body: Bytes, i: nat, j: nat, x: Bytes)
    requires i < j <= |body| && st == S.Finding(body, i, j)
    requires |x| <= |body| && (x != [] ==> LineLength(x) < |body|)
    ensures Streams(V.EMPTY, mk, st, PROXYING, x, V.EMPTY, x)
    decreases |x|
  {
    if x != [] {
      var n := LineLength(x);
      OtherTextScan(mk, st, body, i, j, x[..n]);
      OtherTextStream(mk, st, body, i, j, x[n..]);
      assert StreamsBy(V.EMPTY, mk, st, PROXYING, x, V.EMPTY, x[..n], x[n..], V.EMPTY);
      SplitAt(x, n);
    }
  }

  lemma {:induction false} LineEndsBy(x: Bytes, k: nat)
    requires k < |x| && x[k] == NEWLINE
    ensures LineLength(x) <= k + 1
  {
    if k > 0 && x[0] != NEWLINE {
      LineEndsBy(x[1..], k - 1);
    }
  }

  /** A placeholder holds no newline, so it is not the text it stands for. */
  lemma PlaceholderChanges(body: Bytes, i: nat, j: nat, k: nat, p: Bytes)
    requires IsPlaceholder(p) && i <= k < j <= |body| && body[k] == NEWLINE
    ensures body[..i] + p + body[j..] != body
  {
    var out := body[..i] + p + body[j..];
    assert InteriorAt(p, 1);
    if |p| == j - i {
      assert out[k] == p[k - i];
    } else {
      assert |out| != |body|;
    }
  }

  lemma WholeSecretBy(mk: V.Derivation, st: Stages, body: Bytes, i: nat, j: nat) returns (t: V.State, whole: Bytes)
    requires i < j <= |body| && Lawful(st) && forall w :: mk(w) != []
    requires LiveSpans(mk, st, PROXYING, {}, body) == {Span(i, j, mk(body[i..j]))}
    ensures Scans(V.EMPTY, mk, st, PROXYING, body, t, whole) && whole == body[..i] + mk(body[i..j]) + body[j..]
  {
    EmptyKnowsNothing(mk, body[i..j]);
    assert body == body[..i] + body[i..j] + body[j..];
    t, whole := OneSpanScan(V.EMPTY, mk, st, PROXYING, body[..i], body[i..j], body[j..], body);
  }

  lemma WholeSecretScan(mk: V.Derivation, body: Bytes, i: nat, j: nat) returns (t: V.State, whole: Bytes)
    requires V.DerivesPlaceholders(mk) && i < j <= |body|
    ensures Scans(V.EMPTY, mk, S.Finding(body, i, j), PROXYING, body, t, whole)
    ensures whole == body[..i] + mk(body[i..j]) + body[j..]
  {
    S.FindingLawful(body, i, j);
    FindingBody(mk, body, i, j);
    t, whole := WholeSecretBy(mk, S.Finding(body, i, j), body, i, j);
  }

  lemma StreamedSecret(mk: V.Derivation, body: Bytes, i: nat, j: nat, k: nat)
    requires i < j <= |body| && k + 1 < |body| && body[k] == NEWLINE
    ensures Streams(V.EMPTY, mk, S.Finding(body, i, j), PROXYING, body, V.EMPTY, body)
  {
    LineEndsBy(body, k);
    OtherTextStream(mk, S.Finding(body, i, j), body, i, j, body);
  }

  /**
   * A secret that runs over the end of a line, such as a private key in PEM form, is redacted when the body is
   * scanned whole; streamed, no line of it is found, and the body goes through as it is.
   */
  lemma SecretOverLines(mk: V.Derivation, body: Bytes, i: nat, j: nat, k: nat) returns (t: V.State, whole: Bytes)
    requires V.DerivesPlaceholders(mk) && i <= k && k + 1 < j <= |body| && body[k] == NEWLINE
    ensures Scans(V.EMPTY, mk, S.Finding(body, i, j), PROXYING, body, t, whole)
    ensures whole == body[..i] + mk(body[i..j]) + body[j..]
    ensures Streams(V.EMPTY, mk, S.Finding(body, i, j), PROXYING, body, V.EMPTY, body)
    ensures whole != body
  {
    PlaceholderChanges(body, i, j, k, mk(body[i..j]));
    t, whole := WholeSecretScan(mk, body, i, j);
    StreamedSecret(mk, body, i, j, k);
  }
}
