/** Overlap resolution and splicing, specified once for the daemon and the proxy. */
module Redaction {
  import opened ByteText

  datatype Span = Span(start: nat, end: nat, ph: Bytes)

  /** The bytes a span covers. */
  function Covered(text: Bytes, s: Span): Bytes {
    if s.start <= s.end <= |text| then text[s.start..s.end] else []
  }

  /** Earlier start first; at equal starts the longer span first. */
  predicate Less(a: Span, b: Span) {
    if a.start != b.start then a.start < b.start else a.end - a.start > b.end - b.start
  }

  ghost predicate InBounds(spans: set<Span>, n: nat) {
    forall s :: s in spans ==> s.start < s.end <= n
  }

  /** Spans with equal bounds carry equal placeholders. */
  ghost predicate BoundsDetermine(spans: set<Span>) {
    forall a, b :: a in spans && b in spans && a.start == b.start && a.end == b.end ==> a == b
  }

  /**
   * kept is what greedy overlap resolution selects from a set of spans: the first kept span is
   * least among those starting at or after from, and the rest is selected from its end on.
   */
  ghost predicate IsGreedy(kept: seq<Span>, spans: set<Span>, from: nat) {
    if kept == [] then forall s :: s in spans ==> s.start < from
    else
      && kept[0] in spans && from <= kept[0].start
      && (forall s :: s in spans && from <= s.start ==> !Less(s, kept[0]))
      && IsGreedy(kept[1..], spans, kept[0].end)
  }

  /** kept lies in text[pos..], in order and without overlap. */
  predicate Fits(kept: seq<Span>, pos: nat, n: nat) {
    pos <= n && (kept != [] ==> pos <= kept[0].start < kept[0].end <= n && Fits(kept[1..], kept[0].end, n))
  }

  /** The gaps of text[pos..] interleaved with the placeholders of kept. */
  function Splice(text: Bytes, kept: seq<Span>, pos: nat): Bytes
    requires Fits(kept, pos, |text|)
  {
    if kept == [] then text[pos..]
    else text[pos..kept[0].start] + kept[0].ph + Splice(text, kept[1..], kept[0].end)
  }

  lemma SpliceOne(text: Bytes, s: Span)
    requires s.start < s.end <= |text|
    ensures Fits([s], 0, |text|) && Splice(text, [s], 0) == text[..s.start] + s.ph + text[s.end..]
  {
    assert [s][1..] == [];
    assert Splice(text, [], s.end) == text[s.end..];
  }

  /** One step of a splicing loop: gap and placeholder move from the rest to what is written. */
  lemma SpliceStep(text: Bytes, kept: seq<Span>, pos: nat, out: Bytes)
    requires kept != [] && Fits(kept, pos, |text|)
    ensures (out + text[pos..kept[0].start] + kept[0].ph) + Splice(text, kept[1..], kept[0].end)
         == out + Splice(text, kept, pos)
  {
  }

  /** What a redactor may answer: it depends on the set of spans only, not on their order or number. */
  ghost predicate IsRedaction(text: Bytes, spans: set<Span>, out: Bytes) {
    exists kept :: Fits(kept, 0, |text|) && IsGreedy(kept, spans, 0) && out == Splice(text, kept, 0)
  }

  lemma NothingToRedact(text: Bytes, spans: set<Span>)
    requires spans == {}
    ensures IsRedaction(text, spans, text)
  {
    assert IsGreedy([], spans, 0) && Fits([], 0, |text|) && Splice(text, [], 0) == text;
  }

  // ---- Properties of greedy selection

  lemma {:induction false} GreedyFits(kept: seq<Span>, spans: set<Span>, from: nat, n: nat)
    requires IsGreedy(kept, spans, from) && InBounds(spans, n) && from <= n
    ensures Fits(kept, from, n)
  {
    if kept != [] {
      GreedyFits(kept[1..], spans, kept[0].end, n);
    }
  }

  lemma {:induction false} GreedyUnique(k1: seq<Span>, k2: seq<Span>, spans: set<Span>, from: nat)
    requires BoundsDetermine(spans) && IsGreedy(k1, spans, from) && IsGreedy(k2, spans, from)
    ensures k1 == k2
  {
    if k1 != [] && k2 != [] {
      assert k1[0].start == k2[0].start && k1[0].end == k2[0].end;
      GreedyUnique(k1[1..], k2[1..], spans, k1[0].end);
    }
  }

  /**
   * Two redactors handed the same set of spans, in any order and with any repetitions, answer the
   * same bytes when spans with equal bounds carry equal placeholders.
   */
  lemma RedactionDeterministic(text: Bytes, spans: set<Span>, out1: Bytes, out2: Bytes)
    requires BoundsDetermine(spans)
    requires IsRedaction(text, spans, out1) && IsRedaction(text, spans, out2)
    ensures out1 == out2
  {
    var k1 :| Fits(k1, 0, |text|) && IsGreedy(k1, spans, 0) && out1 == Splice(text, k1, 0);
    var k2 :| Fits(k2, 0, |text|) && IsGreedy(k2, spans, 0) && out2 == Splice(text, k2, 0);
    GreedyUnique(k1, k2, spans, 0);
  }

  lemma {:induction false} LeastFrom(spans: set<Span>, from: nat) returns (least: Span)
    requires exists s :: s in spans && from <= s.start
    ensures least in spans && from <= least.start && forall s :: s in spans && from <= s.start ==> !Less(s, least)
    decreases |spans|
  {
    least :| least in spans && from <= least.start;
    var rest := spans - {least};
    if exists s :: s in rest && from <= s.start {
      var other := LeastFrom(rest, from);
      if Less(other, least) {
        least := other;
      }
    }
  }

  lemma {:induction false} GreedyExists(spans: set<Span>, from: nat, n: nat) returns (kept: seq<Span>)
    requires InBounds(spans, n)
    ensures IsGreedy(kept, spans, from)
    decreases n - from
  {
    kept := [];
    if exists s :: s in spans && from <= s.start {
      var k := LeastFrom(spans, from);
      var rest := GreedyExists(spans, k.end, n);
      kept := [k] + rest;
      assert kept[1..] == rest;
    }
  }

  /** Every set of spans has an answer. */
  lemma RedactionExists(text: Bytes, spans: set<Span>) returns (out: Bytes)
    requires InBounds(spans, |text|)
    ensures IsRedaction(text, spans, out)
  {
    var kept := GreedyExists(spans, 0, |text|);
    GreedyFits(kept, spans, 0, |text|);
    out := Splice(text, kept, 0);
  }

  predicate Overlap(a: Span, b: Span) {
    a.start < b.end && b.start < a.end
  }

  /** Kept spans come from the set, start at or after from, and are in order and disjoint. */
  lemma {:induction false} GreedyOrdered(kept: seq<Span>, spans: set<Span>, from: nat, n: nat)
    requires IsGreedy(kept, spans, from) && InBounds(spans, n)
    ensures forall i :: 0 <= i < |kept| ==> kept[i] in spans && from <= kept[i].start
    ensures forall i, j :: 0 <= i < j < |kept| ==> kept[i].end <= kept[j].start
  {
    if kept != [] {
      GreedyOrdered(kept[1..], spans, kept[0].end, n);
    }
  }

  /**
   * Selection is maximal: a span is kept or overlaps a kept span that precedes it in the
   * (start, longest-first) order, so among spans with one start only a longest can be kept.
   */
  lemma {:induction false} GreedyMaximal(kept: seq<Span>, spans: set<Span>, from: nat, n: nat, s: Span)
    requires IsGreedy(kept, spans, from) && InBounds(spans, n)
    requires s in spans && from <= s.start
    ensures exists k :: k in kept && Overlap(k, s) && !Less(s, k)
  {
    if kept[0].end <= s.start {
      GreedyMaximal(kept[1..], spans, kept[0].end, n, s);
      var k :| k in kept[1..] && Overlap(k, s) && !Less(s, k);
      assert k in kept;
    } else {
      assert Overlap(kept[0], s);
    }
  }

  function KeptLength(kept: seq<Span>): int {
    if kept == [] then 0 else kept[0].end - kept[0].start + KeptLength(kept[1..])
  }

  /** |out| = |in| - replaced bytes + 14 per placeholder. */
  lemma {:induction false} SpliceLength(text: Bytes, kept: seq<Span>, pos: nat)
    requires Fits(kept, pos, |text|)
    requires forall k :: k in kept ==> |k.ph| == PLACEHOLDER_LEN
    ensures |Splice(text, kept, pos)| == |text| - pos - KeptLength(kept) + PLACEHOLDER_LEN * |kept|
  {
    if kept != [] {
      SpliceLength(text, kept[1..], kept[0].end);
    }
  }

  // ---- Exactly when order cannot matter

  ghost predicate OneAnswer(text: Bytes, spans: set<Span>) {
    forall out1, out2 :: IsRedaction(text, spans, out1) && IsRedaction(text, spans, out2) ==> out1 == out2
  }

  lemma OnlySpan(text: Bytes, a: Span, spans: set<Span>)
    requires a in spans && InBounds(spans, |text|) && forall s :: s in spans ==> s.start == a.start && s.end == a.end
    ensures IsRedaction(text, spans, text[..a.start] + a.ph + text[a.end..])
  {
    SpliceOne(text, a);
    assert [a][1..] == [];
    assert IsGreedy([a], spans, 0);
  }

  /**
   * Exactly when no selection of spans leaves the answer open: when spans with equal bounds carry
   * equal placeholders. The sort orders tied spans as it likes, and either placeholder may win.
   */
  lemma OneAnswerExactly(text: Bytes, spans: set<Span>)
    requires InBounds(spans, |text|)
    ensures BoundsDetermine(spans) <==> forall some :: some <= spans ==> OneAnswer(text, some)
  {
    if BoundsDetermine(spans) {
      forall some, out1, out2 | some <= spans && IsRedaction(text, some, out1) && IsRedaction(text, some, out2)
        ensures out1 == out2
      {
        RedactionDeterministic(text, some, out1, out2);
      }
    } else {
      var a, b :| a in spans && b in spans && a.start == b.start && a.end == b.end && a != b;
      OnlySpan(text, a, {a, b});
      OnlySpan(text, b, {a, b});
      if OneAnswer(text, {a, b}) {
        CancelGap(text[..a.start], a.ph, b.ph, text[a.end..]);
        assert false;
      }
      assert {a, b} <= spans;
    }
  }

  lemma CancelGap(before: Bytes, p: Bytes, q: Bytes, after: Bytes)
    requires before + p + after == before + q + after
    ensures p == q
  {
    var n := |before|;
    assert |p| == |q|;
    assert (before + p + after)[n..n + |p|] == p && (before + q + after)[n..n + |q|] == q;
  }

  // ---- The documented overlap policy

  /** Longest match wins: every span overlaps a kept one at least as long. */
  ghost predicate LongestWins(spans: set<Span>) {
    forall kept, s :: IsGreedy(kept, spans, 0) && s in spans ==>
      exists k :: k in kept && Overlap(k, s) && s.end - s.start <= k.end - k.start
  }

  /** Among two overlapping spans the earlier one is at least as long. */
  predicate EarlierIsLonger(spans: set<Span>) {
    forall a, b :: a in spans && b in spans && a.start < b.start < a.end ==> b.end - b.start <= a.end - a.start
  }

  /** Greedy selection by start meets that policy, on every selection of spans, exactly when earlier means longer. */
  lemma LongestWinsExactly(spans: set<Span>, n: nat)
    requires InBounds(spans, n)
    ensures EarlierIsLonger(spans) <==> forall some :: some <= spans ==> LongestWins(some)
  {
    if EarlierIsLonger(spans) {
      forall some, kept, s | some <= spans && IsGreedy(kept, some, 0) && s in some
        ensures exists k :: k in kept && Overlap(k, s) && s.end - s.start <= k.end - k.start
      {
        GreedyMaximal(kept, some, 0, n, s);
        GreedyOrdered(kept, some, 0, n);
      }
    } else {
      var a, b :| a in spans && b in spans && a.start < b.start < a.end && a.end - a.start < b.end - b.start;
      assert [a][1..] == [];
      assert IsGreedy([a], {a, b}, 0);
      assert b in {a, b} && !LongestWins({a, b});
      assert {a, b} <= spans;
    }
  }

  // ---- Sorting and filtering, as the loops do it

  predicate Sorted(s: seq<Span>) {
    forall i, j :: 0 <= i < j < |s| ==> !Less(s[j], s[i])
  }

  /** The filter loop: skip what carries no placeholder or starts before the cursor. */
  function Filtered(s: seq<Span>, cursor: int): seq<Span> {
    if s == [] then []
    else if s[0].ph == [] || s[0].start < cursor then Filtered(s[1..], cursor)
    else [s[0]] + Filtered(s[1..], s[0].end)
  }

  /** Filtering a sorted list is greedy selection from the set of its placeholder-bearing spans. */
  lemma {:induction false} FilteredIsGreedy(s: seq<Span>, spans: set<Span>, cursor: int, from: nat)
    requires Sorted(s) && (cursor == from || (cursor < 0 && from == 0))
    requires forall x :: x in s && x.ph != [] ==> x in spans && x.start < x.end
    requires forall x :: x in spans && from <= x.start ==> x in s && x.ph != []
    ensures IsGreedy(Filtered(s, cursor), spans, from)
  {
    if s != [] {
      if s[0].ph == [] || s[0].start < cursor {
        FilteredIsGreedy(s[1..], spans, cursor, from);
      } else {
        var kept := Filtered(s, cursor);
        assert kept[1..] == Filtered(s[1..], s[0].end);
        FilteredIsGreedy(s[1..], spans, s[0].end, s[0].end);
        forall x | x in spans && from <= x.start ensures !Less(x, kept[0]) {
          var j :| 0 <= j < |s| && s[j] == x;
        }
      }
    }
  }
}
