/** Line-by-line redaction of a streamed response against redaction of the whole body. */
module Streaming {
  import opened ByteText
  import opened Sequences
  import opened KnownValues
  import opened Redaction

  /** The placeholder-bearing spans a stage finds in a text. */
  type Source = Bytes -> set<Span>

  function Shifted(s: Span, d: nat): Span {
    Span(s.start + d, s.end + d, s.ph)
  }

  function ShiftAll(spans: set<Span>, d: nat): set<Span> {
    set s | s in spans :: Shifted(s, d)
  }

  ghost predicate ShiftedIn(s: Span, d: nat, spans: set<Span>) {
    d <= s.start && d <= s.end && Span(s.start - d, s.end - d, s.ph) in spans
  }

  lemma UnionShifted(all: set<Span>, a: set<Span>, b: set<Span>, d: nat)
    requires forall s :: s in all <==> s in a || ShiftedIn(s, d, b)
    ensures all == a + ShiftAll(b, d)
  {
    forall s ensures s in ShiftAll(b, d) <==> ShiftedIn(s, d, b) {
      if s in ShiftAll(b, d) {
        var t :| t in b && s == Shifted(t, d);
        assert t == Span(s.start - d, s.end - d, s.ph);
      }
      if ShiftedIn(s, d, b) {
        assert s == Shifted(Span(s.start - d, s.end - d, s.ph), d);
      }
    }
  }

  function ShiftKept(kept: seq<Span>, d: nat): seq<Span> {
    if kept == [] then [] else [Shifted(kept[0], d)] + ShiftKept(kept[1..], d)
  }

  predicate EndsLine(a: Bytes) {
    a != [] && a[|a| - 1] == NEWLINE
  }

  /** A stage whose findings before and after the end of a line are independent. */
  ghost predicate LineLocal(src: Source) {
    forall a, b {:trigger src(a + b)} :: EndsLine(a) ==> src(a + b) == src(a) + ShiftAll(src(b), |a|)
  }

  ghost predicate Bounded(src: Source) {
    forall x :: InBounds(src(x), |x|)
  }

  // ---- Redaction over a cut that no span crosses

  lemma {:induction false} GreedyShifted(kept: seq<Span>, after: set<Span>, g: nat, before: set<Span>, n: nat, f: nat)
    requires IsGreedy(kept, after, g) && (forall s :: s in before ==> s.start < f)
    requires forall s :: s in after ==> s.start < s.end && (g <= s.start <==> f <= s.start + n)
    ensures IsGreedy(ShiftKept(kept, n), before + ShiftAll(after, n), f)
  {
    var all := before + ShiftAll(after, n);
    if kept != [] {
      var k := ShiftKept(kept, n);
      assert k[1..] == ShiftKept(kept[1..], n);
      assert Shifted(kept[0], n) in ShiftAll(after, n);
      forall s | s in all && f <= s.start ensures !Less(s, k[0]) {
        var s' :| s' in after && s == Shifted(s', n);
        assert !Less(s', kept[0]);
      }
      GreedyShifted(kept[1..], after, kept[0].end, before, n, kept[0].end + n);
    }
  }

  lemma {:induction false} GreedyAcross(ka: seq<Span>, a: set<Span>, kb: seq<Span>, b: set<Span>, n: nat, m: nat, from: nat)
    requires IsGreedy(ka, a, from) && InBounds(a, n) && from <= n && IsGreedy(kb, b, 0) && InBounds(b, m)
    ensures IsGreedy(ka + ShiftKept(kb, n), a + ShiftAll(b, n), from)
  {
    if ka == [] {
      GreedyShifted(kb, b, 0, a, n, from);
      assert [] + ShiftKept(kb, n) == ShiftKept(kb, n);
    } else {
      var k, all := ka + ShiftKept(kb, n), a + ShiftAll(b, n);
      assert k[1..] == ka[1..] + ShiftKept(kb, n);
      GreedyAcross(ka[1..], a, kb, b, n, m, ka[0].end);
      forall s | s in all && from <= s.start ensures !Less(s, k[0]) {
        if s !in a { assert n <= s.start; }
      }
    }
  }

  lemma {:induction false} FitsShifted(kb: seq<Span>, d: nat, pos: nat, n: nat)
    requires Fits(kb, pos, n)
    ensures Fits(ShiftKept(kb, d), d + pos, d + n)
  {
    if kb != [] {
      FitsShifted(kb[1..], d, kb[0].end, n);
      assert ShiftKept(kb, d)[1..] == ShiftKept(kb[1..], d);
    }
  }

  lemma {:induction false} SpliceShifted(a: Bytes, b: Bytes, kb: seq<Span>, pos: nat)
    requires Fits(kb, pos, |b|)
    ensures Fits(ShiftKept(kb, |a|), |a| + pos, |a + b|)
    ensures Splice(a + b, ShiftKept(kb, |a|), |a| + pos) == Splice(b, kb, pos)
  {
    FitsShifted(kb, |a|, pos, |b|);
    if kb == [] {
      RightSuffix(a, b, pos);
    } else {
      SpliceShifted(a, b, kb[1..], kb[0].end);
      SpliceShiftedStep(a, b, kb, ShiftKept(kb, |a|), pos);
    }
  }

  lemma SpliceShiftedStep(a: Bytes, b: Bytes, kb: seq<Span>, k: seq<Span>, pos: nat)
    requires kb != [] && k != [] && Fits(kb, pos, |b|) && Fits(k, |a| + pos, |a + b|) && k[0] == Shifted(kb[0], |a|)
    requires Splice(a + b, k[1..], |a| + kb[0].end) == Splice(b, kb[1..], kb[0].end)
    ensures Splice(a + b, k, |a| + pos) == Splice(b, kb, pos)
  {
    var gap, rest := b[pos..kb[0].start], Splice(b, kb[1..], kb[0].end);
    RightSlice(a, b, pos, kb[0].start);
    SpliceIs(a + b, k, |a| + pos, gap, rest);
    SpliceIs(b, kb, pos, gap, rest);
  }

  lemma SpliceIs(text: Bytes, kept: seq<Span>, pos: nat, gap: Bytes, rest: Bytes)
    requires kept != [] && Fits(kept, pos, |text|) && gap == text[pos..kept[0].start]
    requires rest == Splice(text, kept[1..], kept[0].end)
    ensures Splice(text, kept, pos) == gap + kept[0].ph + rest
  {
  }

  lemma SpliceUnfold(text: Bytes, kept: seq<Span>, pos: nat)
    requires kept != [] && Fits(kept, pos, |text|)
    ensures Splice(text, kept, pos) == text[pos..kept[0].start] + kept[0].ph + Splice(text, kept[1..], kept[0].end)
  {
  }

  lemma RightSlice(a: Bytes, b: Bytes, i: nat, j: nat)
    requires i <= j <= |b|
    ensures (a + b)[|a| + i..|a| + j] == b[i..j]
  {
  }

  lemma RightSuffix(a: Bytes, b: Bytes, i: nat)
    requires i <= |b|
    ensures (a + b)[|a| + i..] == b[i..]
  {
  }

  lemma {:induction false} SpliceAcross(a: Bytes, b: Bytes, ka: seq<Span>, kb: seq<Span>, pos: nat)
    requires Fits(ka, pos, |a|) && Fits(kb, 0, |b|)
    ensures var k := ka + ShiftKept(kb, |a|);
      Fits(k, pos, |a + b|) && Splice(a + b, k, pos) == Splice(a, ka, pos) + Splice(b, kb, 0)
  {
    var k := ka + ShiftKept(kb, |a|);
    if ka == [] {
      SpliceShifted(a, b, kb, 0);
      GapBefore(a, b, ShiftKept(kb, |a|), pos);
      assert k == ShiftKept(kb, |a|);
    } else {
      assert k[1..] == ka[1..] + ShiftKept(kb, |a|);
      SpliceAcross(a, b, ka[1..], kb, ka[0].end);
      assert k[0] == ka[0] && (a + b)[pos..ka[0].start] == a[pos..ka[0].start];
      SpliceUnfold(a + b, k, pos);
      SpliceUnfold(a, ka, pos);
      Assoc(a[pos..ka[0].start] + ka[0].ph, Splice(a, ka[1..], ka[0].end), Splice(b, kb, 0));
    }
  }

  lemma GapBefore(a: Bytes, b: Bytes, kept: seq<Span>, pos: nat)
    requires pos <= |a| && Fits(kept, |a|, |a + b|)
    ensures Fits(kept, pos, |a + b|) && Splice(a + b, kept, pos) == a[pos..] + Splice(a + b, kept, |a|)
  {
    if kept == [] {
      assert (a + b)[pos..] == a[pos..] + (a + b)[|a|..];
    } else {
      var k := kept[0];
      assert (a + b)[pos..k.start] == a[pos..] + (a + b)[|a|..k.start];
      Regroup(a[pos..], (a + b)[|a|..k.start], k.ph, Splice(a + b, kept[1..], k.end));
    }
  }

  lemma RedactionAcross(a: Bytes, b: Bytes, sa: set<Span>, sb: set<Span>, oa: Bytes, ob: Bytes)
    requires InBounds(sa, |a|) && InBounds(sb, |b|) && IsRedaction(a, sa, oa) && IsRedaction(b, sb, ob)
    ensures IsRedaction(a + b, sa + ShiftAll(sb, |a|), oa + ob)
  {
    var ka :| Fits(ka, 0, |a|) && IsGreedy(ka, sa, 0) && oa == Splice(a, ka, 0);
    var kb :| Fits(kb, 0, |b|) && IsGreedy(kb, sb, 0) && ob == Splice(b, kb, 0);
    GreedyAcross(ka, sa, kb, sb, |a|, |b|, 0);
    SpliceAcross(a, b, ka, kb, 0);
  }

  // ---- Streaming

  /** The length of the first line, its newline included. */
  function LineLength(body: Bytes): (n: nat)
    ensures n <= |body| && (body != [] ==> 0 < n)
    ensures n < |body| ==> EndsLine(body[..n])
  {
    if body == [] then 0 else if body[0] == NEWLINE then 1 else 1 + LineLength(body[1..])
  }

  /** Redacting line by line and concatenating. */
  function Streamed(body: Bytes, redact: Bytes -> Bytes): Bytes {
    if body == [] then []
    else var n := LineLength(body); redact(body[..n]) + Streamed(body[n..], redact)
  }

  /** redact answers one of the redactions of the spans src finds. */
  ghost predicate Redacts(redact: Bytes -> Bytes, src: Source) {
    forall x :: IsRedaction(x, src(x), redact(x))
  }

  lemma {:induction false} StreamedIsRedaction(body: Bytes, redact: Bytes -> Bytes, src: Source)
    requires LineLocal(src) && Bounded(src) && Redacts(redact, src)
    ensures IsRedaction(body, src(body), Streamed(body, redact))
  {
    if body == [] {
      assert Fits([], 0, 0) && IsGreedy([], src([]), 0) && Splice([], [], 0) == [];
    } else {
      var n := LineLength(body);
      StreamedIsRedaction(body[n..], redact, src);
      if body[n..] == [] {
        assert body[..n] == body && redact(body) + [] == redact(body);
      } else {
        FirstLineThenRest(body[..n], body[n..], redact, src, Streamed(body[n..], redact));
        SplitAt(body, n);
      }
    }
  }

  lemma SplitAt(body: Bytes, n: nat)
    requires n <= |body|
    ensures body == body[..n] + body[n..]
  {
  }

  lemma FirstLineThenRest(line: Bytes, rest: Bytes, redact: Bytes -> Bytes, src: Source, out: Bytes)
    requires LineLocal(src) && Bounded(src) && Redacts(redact, src) && EndsLine(line) && IsRedaction(rest, src(rest), out)
    ensures IsRedaction(line + rest, src(line + rest), redact(line) + out)
  {
    assert InBounds(src(line), |line|) && InBounds(src(rest), |rest|) && IsRedaction(line, src(line), redact(line));
    RedactionAcross(line, rest, src(line), src(rest), redact(line), out);
  }

  /**
   * Streaming equals buffering: for line-local stages whose placeholders depend only on the bounds,
   * redacting line by line gives what redacting the whole body gives.
   */
  lemma StreamingEqualsBuffering(body: Bytes, redact: Bytes -> Bytes, src: Source)
    requires LineLocal(src) && Bounded(src) && Redacts(redact, src) && BoundsDetermine(src(body))
    ensures Streamed(body, redact) == redact(body)
  {
    StreamedIsRedaction(body, redact, src);
    RedactionDeterministic(body, src(body), Streamed(body, redact), redact(body));
  }

  // ---- The known-value stage

  function KnownSpans(text: Bytes, v: Bytes, ph: Bytes): set<Span>
    requires v != []
  {
    set q | q in Hits(text, v, 0) :: Span(q, q + |v|, ph)
  }

  function ShiftHits(hits: seq<nat>, d: nat): seq<nat> {
    if hits == [] then [] else [hits[0] + d] + ShiftHits(hits[1..], d)
  }

  lemma {:induction false} ShiftHitsMembers(hits: seq<nat>, d: nat, q: nat)
    ensures q in ShiftHits(hits, d) <==> d <= q && q - d in hits
  {
    if hits != [] {
      ShiftHitsMembers(hits[1..], d, q);
      assert hits == [hits[0]] + hits[1..];
    }
  }

  lemma IndexShifted(a: Bytes, b: Bytes, v: Bytes, from: nat)
    ensures var i := IndexFrom(b, v, from); IndexFrom(a + b, v, |a| + from) == if i < 0 then -1 else |a| + i
  {
    var i := IndexFrom(b, v, from);
    IndexFromIsLeftmost(b, v, from);
    IndexFromIsLeftmost(a + b, v, |a| + from);
    forall p: nat ensures OccursAt(a + b, v, |a| + p) <==> OccursAt(b, v, p) {}
    if 0 <= i {
      forall p | |a| + from <= p < |a| + i ensures !OccursAt(a + b, v, p) {
        assert !OccursAt(b, v, p - |a|);
      }
      IndexFromIs(a + b, v, |a| + from, |a| + i);
    } else {
      var r := IndexFrom(a + b, v, |a| + from);
      assert 0 <= r ==> OccursAt(b, v, r - |a|);
    }
  }

  lemma {:induction false} HitsShifted(a: Bytes, b: Bytes, v: Bytes, from: nat)
    requires v != []
    ensures Hits(a + b, v, |a| + from) == ShiftHits(Hits(b, v, from), |a|)
    decreases |b| - from
  {
    IndexShifted(a, b, v, from);
    var i := IndexFrom(b, v, from);
    if 0 <= i {
      HitsShifted(a, b, v, i + |v|);
      ShiftedStep(a, b, v, from, i);
    }
  }

  lemma ShiftedStep(a: Bytes, b: Bytes, v: Bytes, from: nat, i: nat)
    requires v != [] && i == IndexFrom(b, v, from) && |a| + i == IndexFrom(a + b, v, |a| + from)
    requires Hits(a + b, v, |a| + i + |v|) == ShiftHits(Hits(b, v, i + |v|), |a|)
    ensures Hits(a + b, v, |a| + from) == ShiftHits(Hits(b, v, from), |a|)
  {
    HitsStep(b, v, from);
    ShiftCons(i, Hits(b, v, i + |v|), |a|);
  }

  lemma ShiftCons(q: nat, rest: seq<nat>, d: nat)
    ensures ShiftHits([q] + rest, d) == [q + d] + ShiftHits(rest, d)
  {
    assert ([q] + rest)[1..] == rest;
  }

  /** No occurrence of v runs over the cut between a and b. */
  ghost predicate NoneAcross(a: Bytes, b: Bytes, v: Bytes) {
    forall p: nat :: p < |a| < p + |v| ==> !OccursAt(a + b, v, p)
  }

  /** No occurrence of a value without an inner newline runs over the end of a line. */
  lemma LineHolds(a: Bytes, b: Bytes, v: Bytes)
    requires v != [] && EndsLine(a) && NEWLINE !in v[..|v| - 1]
    ensures NoneAcross(a, b, v)
  {
    forall p: nat | p < |a| < p + |v| ensures !OccursAt(a + b, v, p) {
      var k := |a| - 1 - p;
      assert (a + b)[p + k] == NEWLINE && v[..|v| - 1][k] == v[k];
      DiffersAt(a + b, v, p, k);
    }
  }

  lemma IndexAcross(a: Bytes, b: Bytes, v: Bytes, from: nat)
    requires v != [] && from <= |a| && NoneAcross(a, b, v)
    ensures IndexFrom(a + b, v, from) == if IndexFrom(a, v, from) < 0 then IndexFrom(a + b, v, |a|) else IndexFrom(a, v, from)
    decreases |a| - from
  {
    if from < |a| {
      OccursBefore(a, b, v, from);
      if !OccursAt(a, v, from) { IndexAcross(a, b, v, from + 1); }
    }
  }

  lemma OccursBefore(a: Bytes, b: Bytes, v: Bytes, p: nat)
    requires p < |a| && NoneAcross(a, b, v)
    ensures OccursAt(a + b, v, p) <==> OccursAt(a, v, p)
  {
    if OccursAt(a + b, v, p) {
      forall j | 0 <= j < |v| ensures a[p + j] == v[j] { assert (a + b)[p + j] == v[j]; }
    }
    if OccursAt(a, v, p) {
      forall j | 0 <= j < |v| ensures (a + b)[p + j] == v[j] { assert a[p + j] == v[j]; }
    }
  }

  lemma {:induction false} HitsAcross(a: Bytes, b: Bytes, v: Bytes, from: nat)
    requires v != [] && from <= |a| && NoneAcross(a, b, v)
    ensures Hits(a + b, v, from) == Hits(a, v, from) + ShiftHits(Hits(b, v, 0), |a|)
    decreases |a| - from
  {
    IndexAcross(a, b, v, from);
    var i := IndexFrom(a, v, from);
    if 0 <= i {
      HitsAcross(a, b, v, i + |v|);
      OneHitMore(a, b, v, from, i);
    } else {
      HitsShifted(a, b, v, 0);
      SameHits(a + b, v, from, |a| + 0);
      assert Hits(a, v, from) == [];
    }
  }

  lemma OneHitMore(a: Bytes, b: Bytes, v: Bytes, from: nat, i: nat)
    requires v != [] && i == IndexFrom(a, v, from) == IndexFrom(a + b, v, from)
    requires Hits(a + b, v, i + |v|) == Hits(a, v, i + |v|) + ShiftHits(Hits(b, v, 0), |a|)
    ensures Hits(a + b, v, from) == Hits(a, v, from) + ShiftHits(Hits(b, v, 0), |a|)
  {
    HitsStep(a + b, v, from);
    HitsStep(a, v, from);
    Assoc([i], Hits(a, v, i + |v|), ShiftHits(Hits(b, v, 0), |a|));
  }

  lemma SameHits(text: Bytes, v: Bytes, f: nat, g: nat)
    requires v != [] && IndexFrom(text, v, f) == IndexFrom(text, v, g)
    ensures Hits(text, v, f) == Hits(text, v, g)
  {
  }

  /**
   * Exactly which known values redact the same line by line: those with no newline before their last byte.
   */
  lemma KnownLineLocalExactly(v: Bytes, ph: Bytes)
    requires v != []
    ensures LineLocal(x => KnownSpans(x, v, ph)) <==> NEWLINE !in v[..|v| - 1]
  {
    var src: Source := x => KnownSpans(x, v, ph);
    if NEWLINE !in v[..|v| - 1] {
      forall a, b | EndsLine(a) ensures src(a + b) == src(a) + ShiftAll(src(b), |a|) {
        LineHolds(a, b, v);
        KnownSpansAcross(a, b, v, ph);
      }
    } else {
      var k :| 0 <= k < |v| - 1 && v[..|v| - 1][k] == NEWLINE;
      var a, b := v[..k + 1], v[k + 1..];
      assert a + b == v && EndsLine(a);
      assert Hits(a, v, 0) == [] && Hits(b, v, 0) == [];
      assert src(a) == {} && src(b) == {} && ShiftAll(src(b), |a|) == {};
      assert Hits(v, v, 0) == [0] + Hits(v, v, |v|) && 0 in Hits(v, v, 0);
      assert Span(0, |v|, ph) in src(v);
      assert src(a + b) != src(a) + ShiftAll(src(b), |a|);
    }
  }

  lemma KnownSpansAcross(a: Bytes, b: Bytes, v: Bytes, ph: Bytes)
    requires v != [] && NoneAcross(a, b, v)
    ensures KnownSpans(a + b, v, ph) == KnownSpans(a, v, ph) + ShiftAll(KnownSpans(b, v, ph), |a|)
  {
    forall s ensures s in KnownSpans(a + b, v, ph) <==> s in KnownSpans(a, v, ph) || ShiftedIn(s, |a|, KnownSpans(b, v, ph)) {
      KnownSpanAcross(a, b, v, ph, s);
    }
    UnionShifted(KnownSpans(a + b, v, ph), KnownSpans(a, v, ph), KnownSpans(b, v, ph), |a|);
  }

  lemma HitAcross(a: Bytes, b: Bytes, v: Bytes, i: nat)
    requires v != [] && NoneAcross(a, b, v)
    ensures i in Hits(a + b, v, 0) <==> (i + |v| <= |a| && i in Hits(a, v, 0)) || (|a| <= i && i - |a| in Hits(b, v, 0))
  {
    HitsAcross(a, b, v, 0);
    ShiftHitsMembers(Hits(b, v, 0), |a|, i);
    if i in Hits(a, v, 0) {
      HitText(a, v, i);
    }
  }

  lemma KnownSpanAcross(a: Bytes, b: Bytes, v: Bytes, ph: Bytes, s: Span)
    requires v != [] && NoneAcross(a, b, v)
    ensures s in KnownSpans(a + b, v, ph) <==> s in KnownSpans(a, v, ph) || ShiftedIn(s, |a|, KnownSpans(b, v, ph))
  {
    HitAcross(a, b, v, s.start);
    KnownSpansMembers(a + b, v, ph, s);
    KnownSpansMembers(a, v, ph, s);
    if s.start in Hits(a, v, 0) {
      HitText(a, v, s.start);
    }
    if |a| <= s.start && |a| <= s.end {
      KnownSpansMembers(b, v, ph, Span(s.start - |a|, s.end - |a|, s.ph));
    }
  }

  lemma KnownSpansMembers(text: Bytes, v: Bytes, ph: Bytes, s: Span)
    requires v != []
    ensures s in KnownSpans(text, v, ph) <==> s.start in Hits(text, v, 0) && s == Span(s.start, s.start + |v|, ph)
  {
  }
}
