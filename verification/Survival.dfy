/** When a known value cannot survive redaction, whatever other spans are redacted with it. */
module Survival {
  import opened ByteText
  import opened KnownValues
  import opened Redaction

  /** Laid over v at offset i (possibly sticking out of it), p agrees with v on the bytes they share. */
  ghost predicate Agrees(v: Bytes, p: Bytes, i: int) {
    -|p| < i < |v| && forall k :: 0 <= k < |p| && 0 <= i + k < |v| ==> v[i + k] == p[k]
  }

  /** v has no border and no placeholder in use can supply a part of it. */
  ghost predicate Safe(v: Bytes, phs: iset<Bytes>) {
    !Bordered(v) && forall p, i :: p in phs ==> !Agrees(v, p, i)
  }

  /** Every hit of v that the detector enumerates is among the spans. */
  ghost predicate Reported(text: Bytes, v: Bytes, spans: set<Span>)
    requires 0 < |v|
  {
    forall q :: q in Hits(text, v, 0) ==> exists s :: s in spans && s.start == q && s.end == q + |v|
  }

  /** One redaction of a text in which v is a known value; the other spans are arbitrary. */
  ghost predicate RedactsWith(text: Bytes, v: Bytes, spans: set<Span>, phs: iset<Bytes>, out: Bytes)
    requires 0 < |v|
  {
    && InBounds(spans, |text|) && (forall s :: s in spans ==> s.ph in phs)
    && Reported(text, v, spans) && IsRedaction(text, spans, out)
  }

  /** text[a..b] meets no span of kept. */
  ghost predicate Untouched(kept: seq<Span>, a: int, b: int) {
    forall k :: k in kept ==> k.end <= a || b <= k.start
  }

  /**
   * A window of spliced output shares a byte with an inserted placeholder, or it is a window of the
   * input that no kept span touches.
   */
  lemma {:induction false} WindowOfSplice(text: Bytes, kept: seq<Span>, pos: nat, p: nat, v: Bytes) returns (a: int)
    requires Fits(kept, pos, |text|) && 0 < |v|
    requires OccursAt(Splice(text, kept, pos), v, p)
    requires forall k :: k in kept ==> k.ph != []
    ensures
      || (exists k, i :: k in kept && Agrees(v, k.ph, i))
      || (pos <= a && OccursAt(text, v, a) && Untouched(kept, a, a + |v|))
    decreases |kept|
  {
    a := pos + p;
    var out := Splice(text, kept, pos);
    if kept != [] {
      var k, rest := kept[0], kept[1..];
      var gap := k.start - pos;
      var tail := Splice(text, rest, k.end);
      assert out == text[pos..k.start] + k.ph + tail;
      if p >= gap + |k.ph| {
        InTail(text[pos..k.start] + k.ph, tail, p, v);
        a := WindowOfSplice(text, rest, k.end, p - gap - |k.ph|, v);
        if !(k.end <= a && OccursAt(text, v, a) && Untouched(rest, a, a + |v|)) {
          var k', i :| k' in rest && Agrees(v, k'.ph, i);
          assert k' in kept;
        }
      } else if p + |v| > gap {
        MeetsMiddle(text[pos..k.start], k.ph, tail, p, v);
        assert k in kept;
      } else {
        InGap(text, pos, k.start, k.ph + tail, p, v);
        assert out == text[pos..k.start] + (k.ph + tail);
        FitsAfter(kept, pos, |text|);
      }
    }
  }

  lemma InTail(head: Bytes, tail: Bytes, p: nat, v: Bytes)
    requires OccursAt(head + tail, v, p) && |head| <= p
    ensures OccursAt(tail, v, p - |head|)
  {
    forall k | 0 <= k < |v| ensures tail[p - |head| + k] == v[k] {
      assert (head + tail)[p + k] == v[k];
    }
  }

  lemma MeetsMiddle(gap: Bytes, ph: Bytes, tail: Bytes, p: nat, v: Bytes)
    requires OccursAt(gap + ph + tail, v, p) && |gap| - |v| < p < |gap| + |ph|
    ensures Agrees(v, ph, |gap| - p)
  {
    forall j | 0 <= j < |ph| && 0 <= |gap| - p + j < |v| ensures v[|gap| - p + j] == ph[j] {
      assert (gap + ph + tail)[p + (|gap| - p + j)] == v[|gap| - p + j];
    }
  }

  lemma InGap(text: Bytes, from: nat, to: nat, tail: Bytes, p: nat, v: Bytes)
    requires from <= to <= |text| && OccursAt(text[from..to] + tail, v, p) && p + |v| <= to - from
    ensures OccursAt(text, v, from + p)
  {
    forall k | 0 <= k < |v| ensures text[from + p + k] == v[k] {
      assert (text[from..to] + tail)[p + k] == v[k];
    }
  }

  lemma {:induction false} FitsAfter(kept: seq<Span>, pos: nat, n: nat)
    requires Fits(kept, pos, n)
    ensures forall k :: k in kept ==> pos <= k.start && kept[0].start <= k.start
  {
    if kept != [] {
      FitsAfter(kept[1..], kept[0].end, n);
    }
  }

  /** A safe known value occurs nowhere in the output, across splice points included. */
  lemma NoSurvival(text: Bytes, v: Bytes, spans: set<Span>, phs: iset<Bytes>, out: Bytes)
    requires 0 < |v| && Safe(v, phs) && [] !in phs
    requires RedactsWith(text, v, spans, phs, out)
    ensures !Occurs(out, v)
  {
    var kept :| Fits(kept, 0, |text|) && IsGreedy(kept, spans, 0) && out == Splice(text, kept, 0);
    GreedyOrdered(kept, spans, 0, |text|);
    if Occurs(out, v) {
      var p :| OccursAt(out, v, p);
      var a := WindowOfSplice(text, kept, 0, p, v);
      UnborderedHitsAreAll(text, v);
      var s :| s in spans && s.start == a && s.end == a + |v|;
      GreedyMaximal(kept, spans, 0, |text|, s);
    }
  }

  lemma OnlyHit(text: Bytes, v: Bytes)
    requires 0 < |v| && OccursAt(text, v, 1) && text[0] != v[0] && |text| <= 2 * |v|
    ensures Hits(text, v, 0) == [1]
  {
    DiffersAt(text, v, 0, 0);
    IndexFromIs(text, v, 0, 1);
    assert Hits(text, v, 1 + |v|) == [];
    assert Hits(text, v, 0) == [1] + Hits(text, v, 1 + |v|);
  }

  lemma NothingLater(kept: seq<Span>, spans: set<Span>, from: nat)
    requires IsGreedy(kept, spans, from) && forall s :: s in spans ==> s.start < from
    ensures kept == []
  {
  }

  /** A bordered value survives: its one hit is hidden behind a neighbour that reaches into it. */
  lemma BorderedSurvives(v: Bytes, text: Bytes, at: nat, p: Bytes, q: Bytes, out: Bytes)
    requires 0 < |v| && OccursAt(text, v, at) && 2 <= at && 1 + |v| <= |text|
    requires IsRedaction(text, {Span(0, 2, p), Span(1, 1 + |v|, q)}, out)
    ensures Occurs(out, v)
  {
    var spans := {Span(0, 2, p), Span(1, 1 + |v|, q)};
    var kept :| Fits(kept, 0, |text|) && IsGreedy(kept, spans, 0) && out == Splice(text, kept, 0);
    assert Span(0, 2, p) in spans;
    assert kept != [] && kept[0] == Span(0, 2, p);
    NothingLater(kept[1..], spans, 2);
    assert kept == [Span(0, 2, p)];
    SpliceOne(text, Span(0, 2, p));
    assert OccursAt(out, v, |p| + at - 2);
  }

  /** A byte foreign to v's front, one period of v, then v: v occurs at 1 and again one period later. */
  lemma WrappedPeriod(v: Bytes, n: nat) returns (text: Bytes)
    requires 0 < n < |v| && v[..n] == v[|v| - n..]
    ensures |text| == 1 + |v| - n + |v| && text[0] != v[0]
    ensures OccursAt(text, v, 1) && OccursAt(text, v, 1 + |v| - n)
  {
    var d := |v| - n;
    text := [if v[0] == 0 then 1 else 0] + v[..d] + v;
    forall k | 0 <= k < |v| ensures text[1 + k] == v[k] {
      if d <= k { assert text[1 + k] == v[..n][k - d] == v[d..][k - d]; }
    }
  }

  /** v with the part that p agrees with squeezed into one byte foreign to v; g says where. */
  lemma Squeezed(v: Bytes, p: Bytes, i: int) returns (text: Bytes, g: nat)
    requires 0 < |v| && p != [] && Agrees(v, p, i)
    ensures g < |text| && g < |v| && text[g] != v[g] && Hits(text, v, 0) == []
    ensures Occurs(text[..g] + p + text[g + 1..], v)
  {
    g := if i < 0 then 0 else i;
    var h := if i + |p| < |v| then i + |p| else |v|;
    var x: byte := if v[g] == 0 then 1 else 0;
    text := v[..g] + [x] + v[h..];
    DiffersAt(text, v, 0, g);
    IndexFromIsLeftmost(text, v, 0);
    assert IndexFrom(text, v, 0) == -1;
    assert text[..g] == v[..g] && text[g + 1..] == v[h..];
    CompletedBySplice(v, p, i, g, h);
  }

  lemma CompletedBySplice(v: Bytes, p: Bytes, i: int, g: nat, h: nat)
    requires 0 < |v| && p != [] && Agrees(v, p, i)
    requires g == (if i < 0 then 0 else i) && h == if i + |p| < |v| then i + |p| else |v|
    ensures g < |v| && h <= |v| && Occurs(v[..g] + p + v[h..], v)
  {
    var out := v[..g] + p + v[h..];
    assert OccursAt(out, v, g - i);
  }

  lemma OneSpanAnswer(text: Bytes, s: Span, out: Bytes)
    requires s.start < s.end <= |text| && IsRedaction(text, {s}, out)
    ensures out == text[..s.start] + s.ph + text[s.end..]
  {
    var kept :| Fits(kept, 0, |text|) && IsGreedy(kept, {s}, 0) && out == Splice(text, kept, 0);
    assert s in {s};
    assert kept != [] && kept[0] == s;
    NothingLater(kept[1..], {s}, s.end);
    assert kept == [s];
    SpliceOne(text, s);
  }

  /** For a value without `@`, agreement means lying inside a placeholder's interior. */
  lemma AtFreeSafe(v: Bytes, phs: iset<Bytes>)
    requires 0 < |v| && AT !in v && forall p :: p in phs ==> IsPlaceholder(p)
    ensures Safe(v, phs) <==> !Bordered(v) && forall p :: p in phs ==> !Occurs(Interior(p), v)
  {
    forall p, i | p in phs && Agrees(v, p, i) ensures OccursAt(Interior(p), v, -i - 1) {
      assert p[0] == AT && p[13] == AT && forall j :: 0 <= j < |v| ==> v[j] != AT;
      assert i < 0 && |v| <= i + 13;
      forall k | 0 <= k < |v| ensures Interior(p)[-i - 1 + k] == v[k] {
        assert v[i + (k - i)] == p[k - i];
      }
      assert Interior(p)[-i - 1..-i - 1 + |v|] == v;
    }
    forall p, j | p in phs && OccursAt(Interior(p), v, j) ensures Agrees(v, p, -j - 1) {
      forall k | 0 <= k < |p| && 0 <= -j - 1 + k < |v| ensures v[-j - 1 + k] == p[k] {
        assert v[-j - 1 + k] == Interior(p)[j..j + |v|][-j - 1 + k];
      }
    }
  }
}
