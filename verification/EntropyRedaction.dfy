/** Redaction by the entropy stage alone: streaming and idempotence. */
module EntropyRedaction {
  import opened ByteText
  import opened Entropy
  import opened Redaction
  import opened Streaming

  /**
   * The placeholder a run is given, if any. Passthrough tokens and the confidence floor depend on the
   * run's bytes only, so they are part of this choice.
   */
  type Choice = Bytes -> Option<Bytes>

  function SpansOf(text: Bytes, ms: seq<Match>, pick: Choice): set<Span> {
    if ms == [] then {}
    else
      var m := ms[0];
      var rest := SpansOf(text, ms[1..], pick);
      if m.start <= m.end <= |text| && pick(text[m.start..m.end]).Some?
      then {Span(m.start, m.end, pick(text[m.start..m.end]).value)} + rest else rest
  }

  function RunSpans(text: Bytes, st: Stage, pick: Choice): set<Span> {
    SpansOf(text, EntropyMatches(text, st), pick)
  }

  lemma {:induction false} SpansOfExactly(text: Bytes, ms: seq<Match>, pick: Choice, s: Span)
    ensures s in SpansOf(text, ms, pick) <==>
      s.start <= s.end <= |text| && pick(text[s.start..s.end]) == Some(s.ph)
      && exists m :: m in ms && m.start == s.start && m.end == s.end
  {
    if ms != [] {
      SpansOfExactly(text, ms[1..], pick, s);
      assert forall m :: m in ms <==> m == ms[0] || m in ms[1..];
    }
  }

  lemma RunSpansExactly(text: Bytes, st: Stage, pick: Choice, s: Span)
    ensures s in RunSpans(text, st, pick) <==>
      && st.Enabled() && IsMaximalRun(text, s.start, s.end) && st.Qualifies(text[s.start..s.end])
      && pick(text[s.start..s.end]) == Some(s.ph)
  {
    var ms := EntropyMatches(text, st);
    SpansOfExactly(text, ms, pick, s);
    if st.Enabled() && IsMaximalRun(text, s.start, s.end) {
      EntropyExact(text, st, RunMatch(text, s.start, s.end, st));
    }
    if s in RunSpans(text, st, pick) {
      var m :| m in ms && m.start == s.start && m.end == s.end;
      EntropyExact(text, st, m);
    }
  }

  /** s is a run of text that qualifies and is given a placeholder. */
  predicate IsRunSpan(text: Bytes, st: Stage, pick: Choice, s: Span) {
    && IsMaximalRun(text, s.start, s.end)
    && st.Qualifies(text[s.start..s.end]) && pick(text[s.start..s.end]) == Some(s.ph)
  }

  /** src reports exactly the runs that qualify and are given a placeholder. */
  ghost predicate FindsRuns(src: Source, st: Stage, pick: Choice) {
    forall x, s :: s in src(x) <==> IsRunSpan(x, st, pick, s)
  }

  lemma StageFindsRuns(st: Stage, pick: Choice)
    requires st.Enabled()
    ensures FindsRuns(x => RunSpans(x, st, pick), st, pick)
  {
    forall x, s ensures s in RunSpans(x, st, pick) <==> IsRunSpan(x, st, pick, s) {
      RunSpansExactly(x, st, pick, s);
    }
  }

  lemma RunAcrossLine(a: Bytes, b: Bytes, s: nat, e: nat)
    requires EndsLine(a)
    ensures s < |a| ==> (IsMaximalRun(a + b, s, e) <==> IsMaximalRun(a, s, e))
    ensures s < |a| && IsMaximalRun(a, s, e) ==> (a + b)[s..e] == a[s..e]
    ensures |a| <= s && |a| <= e ==> (IsMaximalRun(a + b, s, e) <==> IsMaximalRun(b, s - |a|, e - |a|))
    ensures |a| <= s && IsMaximalRun(a + b, s, e) ==> (a + b)[s..e] == b[s - |a|..e - |a|]
  {
    var x := a + b;
    var n := |a|;
    assert forall i :: 0 <= i < n ==> x[i] == a[i];
    assert forall i :: 0 <= i < |b| ==> b[i] == x[n + i];
    assert !IsTokenByte(x[n - 1]);
    if n <= s && n <= e {
      assert forall i :: n <= i < |x| ==> x[i] == b[i - n];
    } else if s < n {
      assert s <= n - 1 < e ==> !IsMaximalRun(x, s, e) && !IsMaximalRun(a, s, e);
    }
  }

  lemma RunsLineLocal(src: Source, st: Stage, pick: Choice)
    requires FindsRuns(src, st, pick)
    ensures LineLocal(src) && Bounded(src)
  {
    forall a, b | EndsLine(a) ensures src(a + b) == src(a) + ShiftAll(src(b), |a|) {
      forall s ensures s in src(a + b) <==> s in src(a) || ShiftedIn(s, |a|, src(b)) {
        RunSpanAcross(a, b, st, pick, s);
      }
      UnionShifted(src(a + b), src(a), src(b), |a|);
    }
  }

  lemma RunSpanAcross(a: Bytes, b: Bytes, st: Stage, pick: Choice, s: Span)
    requires EndsLine(a)
    ensures IsRunSpan(a + b, st, pick, s) <==>
      IsRunSpan(a, st, pick, s)
      || (|a| <= s.start && |a| <= s.end && IsRunSpan(b, st, pick, Span(s.start - |a|, s.end - |a|, s.ph)))
  {
    RunAcrossLine(a, b, s.start, s.end);
  }

  /** Entropy redaction of a streamed body, line by line, is entropy redaction of the whole body. */
  lemma EntropyStreams(body: Bytes, redact: Bytes -> Bytes, st: Stage, pick: Choice)
    requires st.Enabled() && Redacts(redact, x => RunSpans(x, st, pick))
    ensures Streamed(body, redact) == redact(body)
  {
    var src: Source := x => RunSpans(x, st, pick);
    StageFindsRuns(st, pick);
    RunsLineLocal(src, st, pick);
    StreamingEqualsBuffering(body, redact, src);
  }

  // ---- Idempotence

  /** Every kept span ends the token run on either side of it and carries a placeholder. */
  ghost predicate OfRuns(text: Bytes, kept: seq<Span>) {
    forall i :: 0 <= i < |kept| ==>
      && IsPlaceholder(kept[i].ph)
      && (0 < kept[i].start <= |text| ==> !IsTokenByte(text[kept[i].start - 1]))
      && (kept[i].end < |text| ==> !IsTokenByte(text[kept[i].end]))
  }

  ghost predicate AllTokens(run: Bytes) {
    forall i :: 0 <= i < |run| ==> IsTokenByte(run[i])
  }

  /** run stands at x[s..] and the bytes next to it are no token bytes. */
  ghost predicate Stands(x: Bytes, s: nat, run: Bytes) {
    && s + |run| <= |x| && x[s..s + |run|] == run
    && (0 < s ==> !IsTokenByte(x[s - 1]))
    && (s + |run| < |x| ==> !IsTokenByte(x[s + |run|]))
  }

  lemma MaximalStands(x: Bytes, s: nat, run: Bytes)
    requires run != []
    ensures IsMaximalRun(x, s, s + |run|) && x[s..s + |run|] == run <==> AllTokens(run) && Stands(x, s, run)
  {
    if s + |run| <= |x| && x[s..s + |run|] == run {
      assert forall i :: s <= i < s + |run| ==> x[i] == run[i - s];
      assert forall i :: 0 <= i < |run| ==> run[i] == x[s + i];
    }
  }

  lemma StandsInSuffix(x: Bytes, d: nat, s: nat, run: Bytes)
    requires Stands(x, s, run) && d <= s
    ensures Stands(x[d..], s - d, run)
  {
  }

  /** A run in the gap text[pos..q], which begins and ends next to bytes that are no token bytes. */
  lemma StandsInGap(out: Bytes, text: Bytes, pos: nat, q: nat, s: nat, run: Bytes)
    requires pos <= q <= |text| && text[pos..q] <= out && (q == |text| ==> |out| == q - pos)
    requires run != [] && AllTokens(run) && Stands(out, s, run) && s + |run| <= q - pos
    requires 0 < pos < |text| ==> !IsTokenByte(text[pos])
    requires pos < q < |text| ==> !IsTokenByte(text[q - 1])
    ensures Stands(text, pos + s, run)
  {
    assert forall i :: pos <= i < q ==> text[i] == out[i - pos];
    assert text[pos + s..pos + s + |run|] == out[s..s + |run|];
    assert run[0] == text[pos + s] && run[|run| - 1] == text[pos + s + |run| - 1];
  }

  /** A long run cannot meet a placeholder. */
  lemma RunMissesPlaceholder(out: Bytes, at: nat, s: nat, run: Bytes)
    requires at + 14 <= |out| && out[at] == AT && out[at + 13] == AT
    requires AllTokens(run) && |run| > 12 && Stands(out, s, run)
    ensures s + |run| <= at || at + 14 <= s
  {
    assert forall i :: s <= i < s + |run| ==> out[i] == run[i - s];
  }

  /** run is a run of text, at a, that no kept span touches. */
  ghost predicate LeftAlone(text: Bytes, kept: seq<Span>, a: nat, run: Bytes) {
    Stands(text, a, run) && forall i :: 0 <= i < |kept| ==> kept[i].end <= a || a + |run| <= kept[i].start
  }

  lemma LeftAloneWith(text: Bytes, kept: seq<Span>, a: nat, run: Bytes)
    requires kept != [] && LeftAlone(text, kept[1..], a, run) && kept[0].end <= a
    ensures LeftAlone(text, kept, a, run)
  {
    assert forall i :: 0 < i < |kept| ==> kept[i] == kept[1..][i - 1];
  }

  lemma PlaceholderStands(text: Bytes, kept: seq<Span>, pos: nat, out: Bytes)
    requires kept != [] && Fits(kept, pos, |text|) && OfRuns(text, kept) && out == Splice(text, kept, pos)
    ensures var gap := kept[0].start - pos;
      && text[pos..kept[0].start] <= out && gap + 14 <= |out| && out[gap] == AT && out[gap + 13] == AT
      && out[gap + 14..] == Splice(text, kept[1..], kept[0].end)
  {
    var gap, p, tail := text[pos..kept[0].start], kept[0].ph, Splice(text, kept[1..], kept[0].end);
    assert out == gap + p + tail && |gap + p| == |gap| + 14;
    assert gap + p + tail == gap + (p + tail);
    assert out[|gap|] == p[0] && out[|gap| + 13] == p[13];
  }

  /** The run lies in the first gap, or past the first placeholder. */
  lemma FirstStep(text: Bytes, kept: seq<Span>, pos: nat, out: Bytes, s: nat, run: Bytes)
    requires kept != [] && Fits(kept, pos, |text|) && OfRuns(text, kept) && out == Splice(text, kept, pos)
    requires 0 < pos < |text| ==> !IsTokenByte(text[pos])
    requires AllTokens(run) && |run| > 12 && Stands(out, s, run)
    ensures var d := kept[0].start - pos + 14;
      && (s < d ==> LeftAlone(text, kept, pos + s, run))
      && (d <= s ==> out[d..] == Splice(text, kept[1..], kept[0].end) && Stands(out[d..], s - d, run))
  {
    var d := kept[0].start - pos + 14;
    PlaceholderStands(text, kept, pos, out);
    RunMissesPlaceholder(out, d - 14, s, run);
    if s < d {
      StandsInGap(out, text, pos, kept[0].start, s, run);
      LaterSpans(kept, pos, |text|);
    } else {
      StandsInSuffix(out, d, s, run);
    }
  }

  /** A run longer than a placeholder's interior, found in redacted text, is a run of the original that was left alone. */
  lemma {:induction false} RunOfSplice(text: Bytes, kept: seq<Span>, pos: nat, out: Bytes, s: nat, run: Bytes) returns (a: nat)
    requires Fits(kept, pos, |text|) && OfRuns(text, kept) && out == Splice(text, kept, pos)
    requires 0 < pos < |text| ==> !IsTokenByte(text[pos])
    requires AllTokens(run) && |run| > 12 && Stands(out, s, run)
    ensures pos <= a && LeftAlone(text, kept, a, run)
    decreases |kept|
  {
    a := pos + s;
    if kept == [] {
      assert text[pos..|text|] == text[pos..];
      StandsInGap(out, text, pos, |text|, s, run);
    } else {
      var d := kept[0].start - pos + 14;
      FirstStep(text, kept, pos, out, s, run);
      if d <= s {
        assert OfRuns(text, kept[1..]) by { assert forall i :: 0 < i < |kept| ==> kept[i] == kept[1..][i - 1]; }
        a := RunOfSplice(text, kept[1..], kept[0].end, out[d..], s - d, run);
        LeftAloneWith(text, kept, a, run);
      }
    }
  }

  lemma {:induction false} LaterSpans(kept: seq<Span>, pos: nat, n: nat)
    requires kept != [] && Fits(kept, pos, n)
    ensures forall i :: 0 <= i < |kept| ==> kept[0].start <= kept[i].start
  {
    if |kept| > 1 {
      LaterSpans(kept[1..], kept[0].end, n);
    }
  }

  /**
   * Entropy redaction is idempotent for every scoring function and every choice of placeholders, once
   * the length floor exceeds the twelve token bytes inside a placeholder.
   */
  lemma EntropyIdempotent(text: Bytes, st: Stage, pick: Choice, out: Bytes, again: Bytes)
    requires st.minLen > 12 && st.Enabled() && forall run :: pick(run).Some? ==> IsPlaceholder(pick(run).value)
    requires IsRedaction(text, RunSpans(text, st, pick), out)
    requires IsRedaction(out, RunSpans(out, st, pick), again)
    ensures again == out
  {
    StageFindsRuns(st, pick);
    RedactedOnce(text, x => RunSpans(x, st, pick), st, pick, out, again);
  }

  lemma RedactedOnce(text: Bytes, src: Source, st: Stage, pick: Choice, out: Bytes, again: Bytes)
    requires FindsRuns(src, st, pick) && st.minLen > 12 && forall run :: pick(run).Some? ==> IsPlaceholder(pick(run).value)
    requires IsRedaction(text, src(text), out) && IsRedaction(out, src(out), again)
    ensures again == out
  {
    var kept: seq<Span> :| Fits(kept, 0, |text|) && IsGreedy(kept, src(text), 0) && out == Splice(text, kept, 0);
    NoRunLeft(text, src, st, pick, kept);
    var none: seq<Span> :| Fits(none, 0, |out|) && IsGreedy(none, src(out), 0) && again == Splice(out, none, 0);
    assert none == [];
  }

  /** Nothing is left to redact in the output. */
  lemma NoRunLeft(text: Bytes, src: Source, st: Stage, pick: Choice, kept: seq<Span>)
    requires FindsRuns(src, st, pick) && st.minLen > 12 && forall run :: pick(run).Some? ==> IsPlaceholder(pick(run).value)
    requires Fits(kept, 0, |text|) && IsGreedy(kept, src(text), 0)
    ensures src(Splice(text, kept, 0)) == {}
  {
    var out := Splice(text, kept, 0);
    GreedyOrdered(kept, src(text), 0, |text|);
    assert OfRuns(text, kept);
    forall s ensures s !in src(out) {
      NoSpanLeft(text, src, st, pick, kept, out, s);
    }
  }

  lemma NoSpanLeft(text: Bytes, src: Source, st: Stage, pick: Choice, kept: seq<Span>, out: Bytes, s: Span)
    requires FindsRuns(src, st, pick) && st.minLen > 12
    requires Fits(kept, 0, |text|) && IsGreedy(kept, src(text), 0) && OfRuns(text, kept) && out == Splice(text, kept, 0)
    ensures !IsRunSpan(out, st, pick, s)
  {
    if IsRunSpan(out, st, pick, s) {
      var run := out[s.start..s.end];
      MaximalStands(out, s.start, run);
      var a := RunOfSplice(text, kept, 0, out, s.start, run);
      NotLeftAlone(text, src, st, pick, kept, a, run, s.ph);
    }
  }

  /** A run that qualifies and is given a placeholder is never left alone. */
  lemma NotLeftAlone(text: Bytes, src: Source, st: Stage, pick: Choice, kept: seq<Span>, a: nat, run: Bytes, ph: Bytes)
    requires FindsRuns(src, st, pick) && IsGreedy(kept, src(text), 0)
    requires run != [] && AllTokens(run) && st.Qualifies(run) && pick(run) == Some(ph)
    ensures !LeftAlone(text, kept, a, run)
  {
    var t := Span(a, a + |run|, ph);
    MaximalStands(text, a, run);
    if LeftAlone(text, kept, a, run) {
      assert IsRunSpan(text, st, pick, t);
      GreedyMaximal(kept, src(text), 0, |text|, t);
    }
  }
}
