/** The entropy stage: maximal runs of token bytes that are long and scored high enough. */
module Entropy {
  import opened ByteText
  import opened Sequences

  /** A hit: byte range, category, producing stage, confidence. */
  datatype Match = Match(start: nat, end: nat, kind: string, source: string, confidence: real)

  /** Stage parameters; the score of a run is an arbitrary function of its bytes. */
  datatype Stage = Stage(minLen: int, threshold: real, score: Bytes -> real) {
    predicate Enabled() { 0 < minLen && 0.0 < threshold }

    predicate Qualifies(run: Bytes) { minLen <= |run| && threshold <= score(run) }
  }

  predicate IsTokenByte(b: byte) {
    65 <= b <= 90 || 97 <= b <= 122 || 48 <= b <= 57 || b == UNDERSCORE || b == 45 || b == 43 || b == 61
  }

  function Confidence(h: real): real {
    var c := 0.5 + (h - 4.0) / 4.0;
    if c < 0.5 then 0.5 else if c > 0.9 then 0.9 else c
  }

  function RunMatch(input: Bytes, s: nat, e: nat, st: Stage): Match
    requires s <= e <= |input|
  {
    Match(s, e, "high_entropy", "entropy", Confidence(st.score(input[s..e])))
  }

  /** input[s..e] is a run of token bytes that cannot be extended. */
  predicate IsMaximalRun(input: Bytes, s: nat, e: nat) {
    && s < e <= |input|
    && (forall i :: s <= i < e ==> IsTokenByte(input[i]))
    && (0 < s ==> !IsTokenByte(input[s - 1]))
    && (e < |input| ==> !IsTokenByte(input[e]))
  }

  /** Where the run of token bytes ending just before i starts; i itself when there is none. */
  function RunStart(input: Bytes, i: nat): (s: nat)
    requires i <= |input|
    ensures s <= i && forall j :: s <= j < i ==> IsTokenByte(input[j])
    ensures 0 < s ==> !IsTokenByte(input[s - 1])
  {
    if i == 0 || !IsTokenByte(input[i - 1]) then i else RunStart(input, i - 1)
  }

  /** What position i contributes: the run that ends there, if it qualifies. */
  function EmittedAt(input: Bytes, i: nat, st: Stage): seq<Match>
    requires i <= |input|
  {
    var s := RunStart(input, i);
    if s < i && (i == |input| || !IsTokenByte(input[i])) && st.Qualifies(input[s..i])
    then [RunMatch(input, s, i, st)] else []
  }

  function Emitted(input: Bytes, n: nat, st: Stage): seq<Match>
    requires n <= |input| + 1
  {
    if n == 0 then [] else Emitted(input, n - 1, st) + EmittedAt(input, n - 1, st)
  }

  function EntropyMatches(input: Bytes, st: Stage): seq<Match> {
    if st.Enabled() then Emitted(input, |input| + 1, st) else []
  }

  /** The scanning loop; start is -1 outside a run. */
  method ScanEntropy(input: Bytes, st: Stage) returns (out: seq<Match>)
    ensures out == EntropyMatches(input, st)
  {
    if st.minLen <= 0 || st.threshold <= 0.0 {
      return [];
    }
    out := [];
    var start: int := -1;
    var i := 0;
    while i <= |input|
      invariant 0 <= i <= |input| + 1
      invariant out == Emitted(input, i, st)
      invariant i <= |input| ==> start == if RunStart(input, i) == i then -1 else RunStart(input, i)
    {
      if i < |input| && IsTokenByte(input[i]) {
        if start < 0 {
          start := i;
        }
        InsideRun(input, i, st);
        i := i + 1;
        continue;
      }
      RunEnds(input, i, st);
      if start >= 0 {
        var runLen := i - start;
        if runLen >= st.minLen {
          var ent := st.score(input[start..i]);
          if ent >= st.threshold {
            out := out + [Match(start, i, "high_entropy", "entropy", Confidence(ent))];
          }
        }
        start := -1;
      }
      i := i + 1;
    }
  }

  lemma InsideRun(input: Bytes, i: nat, st: Stage)
    requires i < |input| && IsTokenByte(input[i])
    ensures Emitted(input, i + 1, st) == Emitted(input, i, st) && RunStart(input, i + 1) == RunStart(input, i)
  {
    assert EmittedAt(input, i, st) == [];
  }

  lemma RunEnds(input: Bytes, i: nat, st: Stage)
    requires i <= |input| && (i < |input| ==> !IsTokenByte(input[i]))
    ensures Emitted(input, i + 1, st) == Emitted(input, i, st) + EmittedAt(input, i, st)
    ensures i < |input| ==> RunStart(input, i + 1) == i + 1
  {
  }

  lemma {:induction false} RunStartThrough(input: Bytes, s: nat, i: nat)
    requires s <= i <= |input| && (0 < s ==> !IsTokenByte(input[s - 1]))
    requires forall j :: s <= j < i ==> IsTokenByte(input[j])
    ensures RunStart(input, i) == s
  {
    if s < i { RunStartThrough(input, s, i - 1); }
  }

  lemma {:induction false} EmittedExactly(input: Bytes, n: nat, st: Stage, m: Match)
    requires n <= |input| + 1
    ensures m in Emitted(input, n, st) <==>
      && m.end < n && IsMaximalRun(input, m.start, m.end)
      && st.Qualifies(input[m.start..m.end]) && m == RunMatch(input, m.start, m.end, st)
  {
    if n > 0 {
      EmittedExactly(input, n - 1, st, m);
      if m.end == n - 1 && IsMaximalRun(input, m.start, m.end) {
        RunStartThrough(input, m.start, m.end);
      }
    }
  }

  /** The stage reports exactly the maximal runs that qualify, a run at the end of input included. */
  lemma EntropyExact(input: Bytes, st: Stage, m: Match)
    requires st.Enabled()
    ensures m in EntropyMatches(input, st) <==>
      && IsMaximalRun(input, m.start, m.end)
      && st.Qualifies(input[m.start..m.end]) && m == RunMatch(input, m.start, m.end, st)
  {
    EmittedExactly(input, |input| + 1, st, m);
  }

  /** Which reports reach a confidence floor: those of runs scored 4 floor + 2 or more, none above 0.9, all up to 0.5. */
  lemma ConfidentExactly(input: Bytes, st: Stage, m: Match, floor: real)
    requires m in EntropyMatches(input, st)
    ensures m.start < m.end <= |input| && m.kind == "high_entropy" && m.source == "entropy"
    ensures m.confidence >= floor <==>
      floor <= 0.5 || (floor <= 0.9 && st.score(input[m.start..m.end]) >= 4.0 * floor + 2.0)
  {
    EntropyExact(input, st, m);
  }

  predicate TokenChar(c: char) {
    'A' <= c <= 'Z' || 'a' <= c <= 'z' || '0' <= c <= '9' || c == '_' || c == '-' || c == '+' || c == '='
  }

  /** Of the reports that meet a maximal run there is one, of the whole run, or none. */
  lemma RunReported(input: Bytes, s: nat, e: nat, st: Stage, m: Match)
    requires st.Enabled() && IsMaximalRun(input, s, e) && m.start < e && s < m.end
    ensures m in EntropyMatches(input, st) <==> st.Qualifies(input[s..e]) && m == RunMatch(input, s, e, st)
  {
    EntropyExact(input, st, m);
    if IsMaximalRun(input, m.start, m.end) {
      SameRun(input, s, e, m.start, m.end);
    }
  }

  /** A word of letters, digits, `_`, `-`, `+` and `=` with none of these beside it is reported whole or not at all. */
  lemma WordReported(before: Bytes, word: Bytes, after: Bytes, st: Stage, m: Match)
    requires st.Enabled() && word != [] && (forall i :: 0 <= i < |word| ==> TokenChar(word[i] as char))
    requires before != [] ==> !TokenChar(before[|before| - 1] as char)
    requires after != [] ==> !TokenChar(after[0] as char)
    requires m.start < |before| + |word| && |before| < m.end
    ensures m in EntropyMatches(before + word + after, st) <==>
      st.Qualifies(word) && m == Match(|before|, |before| + |word|, "high_entropy", "entropy", Confidence(st.score(word)))
  {
    WordIsRun(before, word, after);
    RunReported(before + word + after, |before|, |before| + |word|, st, m);
  }

  lemma TokenCharExactly(b: byte)
    ensures IsTokenByte(b) <==> TokenChar(b as char)
  {
  }

  lemma WordIsRun(before: Bytes, word: Bytes, after: Bytes)
    requires word != [] && (forall i :: 0 <= i < |word| ==> TokenChar(word[i] as char))
    requires before != [] ==> !TokenChar(before[|before| - 1] as char)
    requires after != [] ==> !TokenChar(after[0] as char)
    ensures IsMaximalRun(before + word + after, |before|, |before| + |word|)
    ensures (before + word + after)[|before|..|before| + |word|] == word
  {
    var input := before + word + after;
    forall i | |before| <= i < |before| + |word| ensures IsTokenByte(input[i]) {
      TokenCharExactly(word[i - |before|]);
    }
    if before != [] { TokenCharExactly(before[|before| - 1]); }
    if after != [] { TokenCharExactly(after[0]); }
  }

  /** Maximal runs that meet are one. */
  lemma SameRun(input: Bytes, s: nat, e: nat, from: nat, to: nat)
    requires IsMaximalRun(input, s, e) && IsMaximalRun(input, from, to) && from < e && s < to
    ensures s == from && e == to
  {
  }

  /** Reports come in order, separated by at least one non-token byte. */
  lemma {:induction false} EmittedSeparated(input: Bytes, n: nat, st: Stage, i: nat, j: nat)
    requires n <= |input| + 1 && i < j < |Emitted(input, n, st)|
    ensures var out := Emitted(input, n, st);
      out[i].end < out[j].start && out[i].end < |input| && !IsTokenByte(input[out[i].end])
  {
    var out, before := Emitted(input, n, st), Emitted(input, n - 1, st);
    if j < |before| {
      EmittedSeparated(input, n - 1, st, i, j);
    } else {
      assert out[i] == before[i] && before[i] in before;
      EmittedExactly(input, n - 1, st, out[i]);
    }
  }

  // ---- Cutting the input after a non-token byte

  function Shift(ms: seq<Match>, d: nat): (r: seq<Match>)
    ensures |r| == |ms| && forall i :: 0 <= i < |ms| ==> r[i] == ms[i].(start := ms[i].start + d, end := ms[i].end + d)
  {
    seq(|ms|, i requires 0 <= i < |ms| => ms[i].(start := ms[i].start + d, end := ms[i].end + d))
  }

  lemma {:induction false} RunStartLeft(a: Bytes, b: Bytes, i: nat)
    requires i <= |a|
    ensures RunStart(a + b, i) == RunStart(a, i)
  {
    if i > 0 { RunStartLeft(a, b, i - 1); }
  }

  lemma {:induction false} RunStartRight(a: Bytes, b: Bytes, i: nat)
    requires i <= |b| && (a != [] ==> !IsTokenByte(a[|a| - 1]))
    ensures RunStart(a + b, |a| + i) == |a| + RunStart(b, i)
  {
    if i > 0 { RunStartRight(a, b, i - 1); }
  }

  lemma {:induction false} EmittedLeft(a: Bytes, b: Bytes, n: nat, st: Stage)
    requires n <= |a|
    ensures Emitted(a + b, n, st) == Emitted(a, n, st)
  {
    if n > 0 {
      EmittedLeft(a, b, n - 1, st);
      EmittedAtLeft(a, b, n - 1, st);
    }
  }

  lemma EmittedAtLeft(a: Bytes, b: Bytes, i: nat, st: Stage)
    requires i < |a|
    ensures EmittedAt(a + b, i, st) == EmittedAt(a, i, st)
  {
    RunStartLeft(a, b, i);
    var s := RunStart(a, i);
    assert (a + b)[s..i] == a[s..i] && (a + b)[i] == a[i];
  }

  lemma EmittedAtRight(a: Bytes, b: Bytes, i: nat, st: Stage)
    requires i <= |b| && a != [] && !IsTokenByte(a[|a| - 1])
    ensures EmittedAt(a + b, |a| + i, st) == Shift(EmittedAt(b, i, st), |a|)
  {
    RunStartRight(a, b, i);
    var s := RunStart(b, i);
    assert (a + b)[|a| + s..|a| + i] == b[s..i];
  }

  lemma {:induction false} EmittedRight(a: Bytes, b: Bytes, n: nat, st: Stage)
    requires n <= |b| + 1 && a != [] && !IsTokenByte(a[|a| - 1])
    ensures Emitted(a + b, |a| + n, st) == Emitted(a, |a|, st) + Shift(Emitted(b, n, st), |a|)
  {
    if n == 0 {
      EmittedLeft(a, b, |a|, st);
    } else {
      var m := n - 1;
      var x, y := Emitted(b, m, st), EmittedAt(b, m, st);
      calc {
        Emitted(a + b, |a| + n, st);
        Emitted(a + b, |a| + m, st) + EmittedAt(a + b, |a| + m, st);
        { EmittedRight(a, b, m, st); EmittedAtRight(a, b, m, st); }
        (Emitted(a, |a|, st) + Shift(x, |a|)) + Shift(y, |a|);
        { Assoc(Emitted(a, |a|, st), Shift(x, |a|), Shift(y, |a|)); }
        Emitted(a, |a|, st) + (Shift(x, |a|) + Shift(y, |a|));
        { ShiftConcat(x, y, |a|); }
        Emitted(a, |a|, st) + Shift(x + y, |a|);
      }
    }
  }

  lemma ShiftConcat(x: seq<Match>, y: seq<Match>, d: nat)
    ensures Shift(x + y, d) == Shift(x, d) + Shift(y, d)
  {
  }

  /** The stage distributes over a cut that follows a non-token byte, such as a newline. */
  lemma EntropyCut(a: Bytes, b: Bytes, st: Stage)
    requires a != [] && !IsTokenByte(a[|a| - 1])
    ensures EntropyMatches(a + b, st) == EntropyMatches(a, st) + Shift(EntropyMatches(b, st), |a|)
  {
    if st.Enabled() {
      EmittedCut(a, b, st, |b| + 1);
    }
  }

  lemma EmittedCut(a: Bytes, b: Bytes, st: Stage, n: nat)
    requires a != [] && !IsTokenByte(a[|a| - 1]) && n == |b| + 1
    ensures Emitted(a + b, |a + b| + 1, st) == Emitted(a, |a| + 1, st) + Shift(Emitted(b, n, st), |a|)
  {
    EmittedRight(a, b, n, st);
    NothingAtEnd(a, st);
    assert |a + b| + 1 == |a| + n;
  }

  lemma NothingAtEnd(a: Bytes, st: Stage)
    requires a != [] && !IsTokenByte(a[|a| - 1])
    ensures Emitted(a, |a| + 1, st) == Emitted(a, |a|, st)
  {
    assert EmittedAt(a, |a|, st) == [];
  }
}
