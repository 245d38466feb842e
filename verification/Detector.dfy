/** The layered detector: known values, then the other stages, then deduplication. */
module Detector {
  import opened ByteText
  import opened KnownValues
  import opened Entropy

  /**
   * The stages whose code is not modelled: the Aho-Corasick matcher (dictionary and input to hit
   * indices), the regular-expression table and the context heuristics.
   */
  datatype Stages = Stages(
    acMatch: (seq<Bytes>, Bytes) -> seq<nat>,
    regex: Bytes -> seq<Match>,
    context: Bytes -> seq<Match>,
    entropy: Stage,
    disableContext: bool)

  predicate NoEmpty(dict: seq<Bytes>) {
    forall i :: 0 <= i < |dict| ==> dict[i] != []
  }

  predicate ValidHits(dict: seq<Bytes>, hits: seq<nat>) {
    forall i :: 0 <= i < |hits| ==> hits[i] < |dict|
  }

  ghost predicate Named(dict: seq<Bytes>, hits: seq<nat>, v: Bytes) {
    exists j :: 0 <= j < |hits| && hits[j] < |dict| && dict[hits[j]] == v
  }

  /** hits names exactly the dictionary values that occur in the input. */
  ghost predicate NamesPresent(dict: seq<Bytes>, input: Bytes, hits: seq<nat>) {
    && ValidHits(dict, hits)
    && (forall h :: h in hits ==> Occurs(input, dict[h]))
    && (forall v :: v in dict && Occurs(input, v) ==> Named(dict, hits, v))
  }

  ghost predicate MatcherLawful(acMatch: (seq<Bytes>, Bytes) -> seq<nat>) {
    forall dict, input :: NamesPresent(dict, input, acMatch(dict, input))
  }

  /** Matches of a stage other than the known values: in bounds, non-empty, and not labelled as known. */
  predicate WithinInput(ms: seq<Match>, n: nat) {
    forall i :: 0 <= i < |ms| ==> ms[i].start < ms[i].end <= n && ms[i].source != "ac"
  }

  ghost predicate StageLawful(scan: Bytes -> seq<Match>) {
    forall input :: WithinInput(scan(input), |input|)
  }

  ghost predicate Lawful(st: Stages) {
    MatcherLawful(st.acMatch) && StageLawful(st.regex) && StageLawful(st.context)
  }

  // ---- Deduplication

  function WrapInt64(x: int): int {
    (x + 0x8000_0000_0000_0000) % 0x1_0000_0000_0000_0000 - 0x8000_0000_0000_0000
  }

  function HashOf(s: string): int {
    if s == [] then 0 else WrapInt64(HashOf(s[..|s| - 1]) * 31 + s[|s| - 1] as int)
  }

  method HashKind(s: string) returns (h: int)
    ensures h == HashOf(s)
  {
    h := 0;
    for i := 0 to |s|
      invariant h == HashOf(s[..i])
    {
      assert s[..i + 1][..i] == s[..i];
      h := WrapInt64(h * 31 + s[i] as int);
    }
    assert s[..|s|] == s;
  }

  function Key(m: Match): (nat, nat, int) {
    (m.start, m.end, HashOf(m.kind))
  }

  function Deduped(s: seq<Match>, seen: set<(nat, nat, int)>): seq<Match> {
    if s == [] then []
    else if Key(s[0]) in seen then Deduped(s[1..], seen)
    else [s[0]] + Deduped(s[1..], seen + {Key(s[0])})
  }

  /** Compacts the slice in place, keeping the first match of every key. */
  method Dedup(a: array<Match>) returns (k: nat)
    modifies a
    ensures k <= a.Length && a[..k] == Deduped(old(a[..]), {})
  {
    ghost var s := a[..];
    if a.Length <= 1 {
      return a.Length;
    }
    var seen: set<(nat, nat, int)> := {};
    k := 0;
    for i := 0 to a.Length
      invariant k <= i && forall j :: i <= j < |s| ==> a[j] == s[j]
      invariant a[..k] + Deduped(s[i..], seen) == Deduped(s, {})
    {
      var m := a[i];
      var h := HashKind(m.kind);
      assert s[i..][1..] == s[i + 1..];
      if (m.start, m.end, h) in seen {
        continue;
      }
      seen := seen + {(m.start, m.end, h)};
      ghost var was := a[..k];
      a[k] := m;
      k := k + 1;
      assert a[..k] == was + [m];
    }
  }

  lemma {:induction false} DedupedSound(s: seq<Match>, seen: set<(nat, nat, int)>)
    ensures forall m :: m in Deduped(s, seen) ==> m in s && Key(m) !in seen
  {
    if s != [] {
      DedupedSound(s[1..], seen);
      DedupedSound(s[1..], seen + {Key(s[0])});
    }
  }

  /** Every span survives, carried by the first match of its key; the first holder of a key is never dropped. */
  lemma {:induction false} DedupedKeepsFirst(s: seq<Match>, seen: set<(nat, nat, int)>, i: nat) returns (j: nat)
    requires i < |s| && Key(s[i]) !in seen
    ensures j <= i && s[j] in Deduped(s, seen) && Key(s[j]) == Key(s[i])
  {
    if Key(s[0]) == Key(s[i]) {
      j := 0;
    } else if Key(s[0]) in seen {
      j := DedupedKeepsFirst(s[1..], seen, i - 1);
      j := j + 1;
    } else {
      j := DedupedKeepsFirst(s[1..], seen + {Key(s[0])}, i - 1);
      j := j + 1;
    }
  }

  /** Deduplication keeps the set of covered ranges. */
  lemma DedupKeepsSpans(s: seq<Match>, a: nat, b: nat)
    ensures (exists m :: m in s && m.start == a && m.end == b)
       <==> (exists m :: m in Deduped(s, {}) && m.start == a && m.end == b)
  {
    DedupedSound(s, {});
    if m :| m in s && m.start == a && m.end == b {
      var i :| 0 <= i < |s| && s[i] == m;
      var j := DedupedKeepsFirst(s, {}, i);
    }
  }

  // ---- Known-value matches

  function AcMatch(start: nat, v: Bytes): Match {
    Match(start, start + |v|, "ac_exact", "ac", 1.0)
  }

  function AcMatches(hits: seq<nat>, v: Bytes): seq<Match> {
    seq(|hits|, i requires 0 <= i < |hits| => AcMatch(hits[i], v))
  }

  lemma AcMatchesExactly(hits: seq<nat>, v: Bytes, m: Match)
    ensures m in AcMatches(hits, v) <==> m.start in hits && m == AcMatch(m.start, v)
  {
    var all := AcMatches(hits, v);
    if m.start in hits && m == AcMatch(m.start, v) {
      var i :| 0 <= i < |hits| && hits[i] == m.start;
      assert all[i] == m;
    }
  }

  function KnownMatches(input: Bytes, dict: seq<Bytes>, hits: seq<nat>): seq<Match>
    requires NoEmpty(dict) && ValidHits(dict, hits)
  {
    if hits == [] then []
    else
      var v := dict[hits[|hits| - 1]];
      KnownMatches(input, dict, hits[..|hits| - 1]) + AcMatches(Hits(input, v, 0), v)
  }

  /** m is a hit of the value that h names. */
  predicate HitOf(input: Bytes, dict: seq<Bytes>, h: nat, m: Match) {
    h < |dict| && dict[h] != [] && m.start in Hits(input, dict[h], 0)
    && m == Match(m.start, m.start + |dict[h]|, "ac_exact", "ac", 1.0)
  }

  lemma {:induction false} KnownMatchesExactly(input: Bytes, dict: seq<Bytes>, hits: seq<nat>, m: Match)
    requires NoEmpty(dict) && ValidHits(dict, hits)
    ensures m in KnownMatches(input, dict, hits) <==> exists h :: h in hits && HitOf(input, dict, h, m)
  {
    if hits != [] {
      var n := |hits| - 1;
      var v := dict[hits[n]];
      KnownMatchesExactly(input, dict, hits[..n], m);
      AcMatchesExactly(Hits(input, v, 0), v, m);
      assert forall h :: h in hits <==> h in hits[..n] || h == hits[n];
      assert HitOf(input, dict, hits[n], m) <==> m in AcMatches(Hits(input, v, 0), v);
    }
  }

  /** First position of needle, or -1; the empty needle is never found. */
  method IndexOf(haystack: Bytes, needle: Bytes) returns (r: int)
    ensures r == if needle == [] then -1 else IndexFrom(haystack, needle, 0)
  {
    if |needle| == 0 || |haystack| < |needle| {
      return -1;
    }
    var i := 0;
    while i + |needle| <= |haystack|
      invariant 0 <= i && IndexFrom(haystack, needle, 0) == IndexFrom(haystack, needle, i)
    {
      var found := true;
      var j := 0;
      while j < |needle|
        invariant 0 <= j <= |needle| && found && haystack[i..i + j] == needle[..j]
      {
        if haystack[i + j] != needle[j] {
          found := false;
          DiffersAt(haystack, needle, i, j);
          break;
        }
        j := j + 1;
        assert haystack[i..i + j] == haystack[i..i + j - 1] + [haystack[i + j - 1]];
        assert needle[..j] == needle[..j - 1] + [needle[j - 1]];
      }
      if found {
        return i;
      }
      i := i + 1;
    }
    return -1;
  }

  lemma {:induction false} IndexInSuffix(text: Bytes, v: Bytes, k: nat, from: nat)
    requires k + from <= |text| && 0 < |v|
    ensures var r := IndexFrom(text[k..], v, from); IndexFrom(text, v, k + from) == if r < 0 then -1 else k + r
    decreases |text| - from
  {
    if k + from + |v| <= |text| {
      assert text[k..][from..from + |v|] == text[k + from..k + from + |v|];
      if text[k + from..k + from + |v|] != v {
        IndexInSuffix(text, v, k, from + 1);
      }
    }
  }

  function NonEmpty(vs: seq<Bytes>): seq<Bytes> {
    if vs == [] then []
    else NonEmpty(vs[..|vs| - 1]) + if vs[|vs| - 1] == [] then [] else [vs[|vs| - 1]]
  }

  lemma {:induction false} NonEmptyExactly(vs: seq<Bytes>, v: Bytes)
    ensures v in NonEmpty(vs) <==> v in vs && v != []
  {
    if vs != [] {
      NonEmptyExactly(vs[..|vs| - 1], v);
      assert vs == vs[..|vs| - 1] + [vs[|vs| - 1]];
    }
  }

  /** Everything the stages report, known values first. */
  function AllMatches(st: Stages, dict: seq<Bytes>, input: Bytes): seq<Match>
    requires NoEmpty(dict) && ValidHits(dict, st.acMatch(dict, input))
  {
    KnownMatches(input, dict, st.acMatch(dict, input)) + st.regex(input)
      + EntropyMatches(input, st.entropy) + if st.disableContext then [] else st.context(input)
  }

  /** A position at which hits can still be found: rest lists the hits from there on. */
  ghost predicate HitsFrom(input: Bytes, v: Bytes, from: nat, rest: seq<nat>)
    requires v != []
  {
    rest == Hits(input, v, from)
  }

  /** The inner loop over one known value. */
  method ScanValue(input: Bytes, v: Bytes) returns (out: seq<Match>)
    requires v != []
    ensures out == AcMatches(Hits(input, v, 0), v)
  {
    out := [];
    var start := IndexOf(input, v);
    ghost var rest := NextHit(input, v, 0, start);
    ghost var whole := AcMatches(rest, v);
    while start >= 0
      invariant 0 <= start ==> rest != [] && rest[0] == start && start + |v| <= |input|
      invariant 0 <= start ==> HitsFrom(input, v, start + |v|, rest[1..])
      invariant start < 0 ==> rest == []
      invariant out + AcMatches(rest, v) == whole
      decreases |input| - start
    {
      var from := start + |v|;
      ReportStep(out, rest, v, whole);
      out := out + [Match(start, start + |v|, "ac_exact", "ac", 1.0)];
      var next := IndexOf(input[from..], v);
      rest := NextHit(input, v, from, next);
      if next < 0 {
        break;
      }
      start := from + next;
    }
  }

  lemma ReportStep(out: seq<Match>, rest: seq<nat>, v: Bytes, whole: seq<Match>)
    requires rest != [] && out + AcMatches(rest, v) == whole
    ensures out + [AcMatch(rest[0], v)] + AcMatches(rest[1..], v) == whole
  {
    assert AcMatches(rest, v) == [AcMatch(rest[0], v)] + AcMatches(rest[1..], v);
  }

  lemma NextHit(input: Bytes, v: Bytes, from: nat, next: int) returns (rest: seq<nat>)
    requires from <= |input| && v != [] && next == IndexFrom(input[from..], v, 0)
    ensures HitsFrom(input, v, from, rest)
    ensures next < 0 ==> rest == []
    ensures 0 <= next ==> rest != [] && rest[0] == from + next && from + next + |v| <= |input|
    ensures 0 <= next ==> HitsFrom(input, v, from + next + |v|, rest[1..])
  {
    IndexInSuffix(input, v, from, 0);
    rest := Hits(input, v, from);
  }

  /** The outer loop over the matcher's hits. */
  method ScanKnown(input: Bytes, dict: seq<Bytes>, hits: seq<nat>) returns (out: seq<Match>)
    requires NoEmpty(dict) && ValidHits(dict, hits)
    ensures out == KnownMatches(input, dict, hits)
  {
    out := [];
    for n := 0 to |hits|
      invariant out == KnownMatches(input, dict, hits[..n])
    {
      var found := ScanValue(input, dict[hits[n]]);
      assert hits[..n + 1][..n] == hits[..n];
      out := out + found;
    }
    assert hits[..|hits|] == hits;
  }

  class Detector {
    const stages: Stages
    var values: seq<Bytes>
    var ac: Option<seq<Bytes>>

    constructor (stages: Stages)
      ensures this.stages == stages && values == [] && ac == None && Valid()
    {
      this.stages := stages;
      values, ac := [], None;
    }

    /** The matcher was built from the current values, all non-empty. */
    predicate Valid()
      reads this
    {
      ac == (if values == [] then None else Some(values)) && NoEmpty(values)
    }

    method SetExactValues(vs: seq<Bytes>)
      modifies this
      ensures Valid() && values == NonEmpty(vs)
    {
      var bs := [];
      for i := 0 to |vs|
        invariant bs == NonEmpty(vs[..i]) && NoEmpty(bs)
      {
        assert vs[..i + 1][..i] == vs[..i];
        if vs[i] == [] {
          continue;
        }
        bs := bs + [vs[i]];
      }
      assert vs[..|vs|] == vs;
      values := bs;
      if |bs| == 0 {
        ac := None;
        return;
      }
      ac := Some(bs);
    }

    method Scan(input: Bytes) returns (out: seq<Match>)
      requires Valid() && Lawful(stages)
      ensures input == [] ==> out == []
      ensures input != [] ==> out == Deduped(AllMatches(stages, values, input), {})
    {
      if |input| == 0 {
        return [];
      }
      out := [];
      assert ValidHits(values, stages.acMatch(values, input));
      if ac.Some? {
        out := ScanKnown(input, values, stages.acMatch(ac.value, input));
      }
      out := out + stages.regex(input);
      var runs := ScanEntropy(input, stages.entropy);
      out := out + runs;
      if !stages.disableContext {
        out := out + stages.context(input);
      }
      assert out == AllMatches(stages, values, input);
      out := DedupSlice(out);
    }
  }

  method DedupSlice(s: seq<Match>) returns (out: seq<Match>)
    ensures out == Deduped(s, {})
  {
    var a := new Match[|s|](i requires 0 <= i < |s| => s[i]);
    assert a[..] == s;
    var k := Dedup(a);
    out := a[..k];
  }

  // ---- What a scan reports

  lemma KnownSound(input: Bytes, dict: seq<Bytes>, hits: seq<nat>, m: Match)
    requires NoEmpty(dict) && ValidHits(dict, hits) && m in KnownMatches(input, dict, hits)
    ensures m.start < m.end <= |input| && input[m.start..m.end] in dict
  {
    KnownMatchesExactly(input, dict, hits, m);
    var h :| h in hits && HitOf(input, dict, h, m);
    HitText(input, dict[h], m.start);
  }

  /** Matches are in bounds and non-empty, and an "ac" match covers a known value. */
  lemma ScanSound(st: Stages, dict: seq<Bytes>, input: Bytes, m: Match)
    requires Lawful(st) && NoEmpty(dict)
    requires m in Deduped(AllMatches(st, dict, input), {})
    ensures m.start < m.end <= |input|
    ensures m.source == "ac" ==> input[m.start..m.end] in dict
  {
    DedupedSound(AllMatches(st, dict, input), {});
    if m in KnownMatches(input, dict, st.acMatch(dict, input)) {
      KnownSound(input, dict, st.acMatch(dict, input), m);
    } else if m in EntropyMatches(input, st.entropy) {
      EntropyExact(input, st.entropy, m);
    } else if m in st.regex(input) {
    } else {
      assert m in st.context(input);
    }
  }

  lemma HitFor(st: Stages, dict: seq<Bytes>, input: Bytes, v: Bytes) returns (h: nat)
    requires MatcherLawful(st.acMatch) && v in dict && Occurs(input, v)
    ensures h < |st.acMatch(dict, input)| && ValidHits(dict, st.acMatch(dict, input))
    ensures dict[st.acMatch(dict, input)[h]] == v
  {
    var hits := st.acMatch(dict, input);
    assert NamesPresent(dict, input, hits) && Named(dict, hits, v);
    h :| 0 <= h < |hits| && hits[h] < |dict| && dict[hits[h]] == v;
  }

  /** A matcher that tries value after value meets the law, so stages with lawful matchers exist. */
  function Present(dict: seq<Bytes>, input: Bytes): seq<nat> {
    if dict == [] then []
    else
      var n := |dict| - 1;
      Present(dict[..n], input) + if IndexFrom(input, dict[n], 0) >= 0 then [n] else []
  }

  lemma {:induction false} PresentNames(dict: seq<Bytes>, input: Bytes)
    ensures NamesPresent(dict, input, Present(dict, input))
  {
    if dict != [] {
      var n := |dict| - 1;
      var hits, before := Present(dict, input), Present(dict[..n], input);
      PresentNames(dict[..n], input);
      IndexFromIsLeftmost(input, dict[n], 0);
      PresentNamesMore(dict, input, before, hits);
    }
  }

  lemma PresentNamesMore(dict: seq<Bytes>, input: Bytes, before: seq<nat>, hits: seq<nat>)
    requires dict != [] && NamesPresent(dict[..|dict| - 1], input, before)
    requires Occurs(input, dict[|dict| - 1]) ==> hits == before + [|dict| - 1]
    requires !Occurs(input, dict[|dict| - 1]) ==> hits == before
    ensures NamesPresent(dict, input, hits)
  {
    var n := |dict| - 1;
    forall h | h in hits ensures h < |dict| && Occurs(input, dict[h]) {
      assert h in before ==> dict[..n][h] == dict[h];
    }
    forall v | v in dict && Occurs(input, v) ensures Named(dict, hits, v) {
      if v in dict[..n] {
        NamedLonger(dict, before, hits, v);
      } else {
        assert dict[n] == v && hits[|before|] == n;
      }
    }
  }

  lemma NamedLonger(dict: seq<Bytes>, before: seq<nat>, hits: seq<nat>, v: Bytes)
    requires dict != [] && Named(dict[..|dict| - 1], before, v) && before <= hits
    ensures Named(dict, hits, v)
  {
    var j :| 0 <= j < |before| && before[j] < |dict| - 1 && dict[..|dict| - 1][before[j]] == v;
    assert hits[j] == before[j];
  }

  lemma LawfulMatcherExists()
    ensures MatcherLawful(Present)
  {
    forall dict, input ensures NamesPresent(dict, input, Present(dict, input)) {
      PresentNames(dict, input);
    }
  }

  /** Every hit of every known value is reported as an "ac" match: deduplication never drops it. */
  lemma ScanReportsKnown(st: Stages, dict: seq<Bytes>, input: Bytes, v: Bytes, q: nat)
    requires MatcherLawful(st.acMatch) && NoEmpty(dict) && v in dict && v != [] && q in Hits(input, v, 0)
    ensures ValidHits(dict, st.acMatch(dict, input))
    ensures AcMatch(q, v) in Deduped(AllMatches(st, dict, input), {})
  {
    HitsAreOccurrences(input, v, 0);
    assert OccursAt(input, v, q);
    var h := HitFor(st, dict, input, v);
    KnownKept(input, dict, st.acMatch(dict, input), h, q, AllMatches(st, dict, input));
  }

  lemma KnownKept(input: Bytes, dict: seq<Bytes>, hits: seq<nat>, h: nat, q: nat, all: seq<Match>)
    requires NoEmpty(dict) && ValidHits(dict, hits) && h < |hits| && q in Hits(input, dict[hits[h]], 0)
    requires KnownMatches(input, dict, hits) <= all
    ensures AcMatch(q, dict[hits[h]]) in Deduped(all, {})
  {
    var known, m := KnownMatches(input, dict, hits), AcMatch(q, dict[hits[h]]);
    assert HitOf(input, dict, hits[h], m);
    KnownMatchesExactly(input, dict, hits, m);
    var n :| 0 <= n < |known| && known[n] == m;
    var j := DedupedKeepsFirst(all, {}, n);
    assert all[n] == m && all[j] == known[j];
    KnownMatchesExactly(input, dict, hits, known[j]);
    assert known[j] == m;
  }

  // ---- The report is not sorted by position

  lemma OneHit(input: Bytes, v: Bytes, at: nat)
    requires v != [] && OccursAt(input, v, at) && at + |v| + |v| > |input| && forall i :: 0 <= i < at ==> !OccursAt(input, v, i)
    ensures Hits(input, v, 0) == [at]
  {
    IndexFromIs(input, v, 0, at);
    HitsStep(input, v, 0);
    assert Hits(input, v, at + |v|) == [];
  }

  lemma PresentBoth(text: Bytes, v: Bytes, w: Bytes)
    requires 0 <= IndexFrom(text, v, 0) && 0 <= IndexFrom(text, w, 0)
    ensures Present([v, w], text) == [0, 1]
  {
    assert [v, w][..1] == [v] && [v][..0] == [];
    assert Present([v], text) == [0];
  }

  lemma KnownBoth(text: Bytes, v: Bytes, w: Bytes, i: nat, j: nat)
    requires v != [] && w != [] && Hits(text, v, 0) == [i] && Hits(text, w, 0) == [j]
    ensures KnownMatches(text, [v, w], [0, 1]) == [AcMatch(i, v), AcMatch(j, w)]
  {
    assert [0, 1][..1] == [0] && [0][..0] == [];
    assert AcMatches([i], v) == [AcMatch(i, v)] && AcMatches([j], w) == [AcMatch(j, w)];
    assert KnownMatches(text, [v, w], [0]) == [AcMatch(i, v)];
  }

  lemma DedupedBoth(m: Match, n: Match)
    requires m.start != n.start
    ensures Deduped([m, n], {}) == [m, n]
  {
    assert [m, n][1..] == [n] && [n][1..] == [];
    assert {} + {Key(m)} == {Key(m)} && Key(n) !in {Key(m)};
    assert Deduped([n], {Key(m)}) == [n];
  }

  const ONLY_KNOWN: Stages := Stages(Present, x => [], x => [], Stage(0, 0.0, x => 0.0), true)

  lemma OnlyKnown(dict: seq<Bytes>, input: Bytes)
    requires NoEmpty(dict) && ValidHits(dict, ONLY_KNOWN.acMatch(dict, input))
    ensures AllMatches(ONLY_KNOWN, dict, input) == KnownMatches(input, dict, Present(dict, input))
  {
  }

  /** Known values are reported value by value: "b" before "a" in "ab", if the vault yields them in that order. */
  lemma ReportUnsorted()
    ensures var dict: seq<Bytes> := [[98], [97]];
      NoEmpty(dict) && ValidHits(dict, ONLY_KNOWN.acMatch(dict, [97, 98]))
      && Deduped(AllMatches(ONLY_KNOWN, dict, [97, 98]), {}) == [AcMatch(1, [98]), AcMatch(0, [97])]
  {
    var a: Bytes, b: Bytes, text: Bytes := [97], [98], [97, 98];
    DiffersAt(text, b, 0, 0);
    OneHit(text, b, 1);
    DiffersAt(text, a, 1, 0);
    FirstOnly(text, a);
    PresentBoth(text, b, a);
    KnownBoth(text, b, a, 1, 0);
    DedupedBoth(AcMatch(1, b), AcMatch(0, a));
    OnlyKnown([b, a], text);
  }

  lemma FirstOnly(text: Bytes, v: Bytes)
    requires |v| == 1 && |text| == 2 && OccursAt(text, v, 0) && !OccursAt(text, v, 1)
    ensures Hits(text, v, 0) == [0]
  {
    IndexFromIs(text, v, 0, 0);
    HitsStep(text, v, 0);
    IndexFromIsLeftmost(text, v, 1);
    assert Hits(text, v, 1) == [];
  }
}
