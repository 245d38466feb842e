/** The two redactors: the daemon's redactInPlace and the proxy's rewrite. */
module Redactors {
  import opened ByteText
  import opened Sequences
  import opened Redaction

  /** A match as the daemon reports it; placeholder is empty when none was assigned. */
  datatype WireMatch = WireMatch(
    start: nat, end: nat, kind: string, source: string, confidence: real, placeholder: Bytes)
  {
    function ToSpan(): Span { Span(start, end, placeholder) }
  }

  function Spans(ms: seq<WireMatch>): (spans: seq<Span>)
    ensures |spans| == |ms| && forall i :: 0 <= i < |ms| ==> spans[i] == ms[i].ToSpan()
  {
    seq(|ms|, i requires 0 <= i < |ms| => ms[i].ToSpan())
  }

  /** The spans a redactor acts on: those with a placeholder. */
  ghost function BearingSpans(ms: seq<WireMatch>): set<Span> {
    set m | m in ms && m.placeholder != [] :: m.ToSpan()
  }

  /**
   * Stands for sort.Slice, which is not stable: callers know only that the result is sorted and
   * holds the same matches, so what they prove holds for every way of breaking ties.
   */
  method SortSlice(ms: seq<WireMatch>) returns (sorted: seq<WireMatch>)
    ensures Sorted(Spans(sorted)) && multiset(sorted) == multiset(ms)
  {
    sorted := [];
    for i := 0 to |ms|
      invariant Sorted(Spans(sorted)) && multiset(sorted) == multiset(ms[..i])
    {
      sorted := InsertInto(sorted, ms[i]);
      assert ms[..i + 1] == ms[..i] + [ms[i]];
    }
    assert ms[..|ms|] == ms;
  }

  method InsertInto(before: seq<WireMatch>, m: WireMatch) returns (after: seq<WireMatch>)
    requires Sorted(Spans(before))
    ensures Sorted(Spans(after)) && multiset(after) == multiset(before) + multiset{m}
  {
    var j := |before|;
    while j > 0 && Less(m.ToSpan(), before[j - 1].ToSpan())
      invariant 0 <= j <= |before|
      invariant forall k :: j <= k < |before| ==> Less(m.ToSpan(), before[k].ToSpan())
    {
      j := j - 1;
    }
    after := before[..j] + [m] + before[j..];
    NotLessBefore(before, j, m);
    InsertSorted(before, j, m, after);
    InsertKeeps(before, j, m);
  }

  lemma NotLessBefore(before: seq<WireMatch>, j: nat, m: WireMatch)
    requires j <= |before| && Sorted(Spans(before)) && (j > 0 ==> !Less(m.ToSpan(), before[j - 1].ToSpan()))
    ensures forall k :: 0 <= k < j ==> !Less(m.ToSpan(), before[k].ToSpan())
  {
    forall k | 0 <= k < j ensures !Less(m.ToSpan(), before[k].ToSpan()) {
      assert k < j - 1 ==> !Less(Spans(before)[j - 1], Spans(before)[k]);
    }
  }

  lemma InsertKeeps(before: seq<WireMatch>, j: nat, m: WireMatch)
    requires j <= |before|
    ensures multiset(before[..j] + [m] + before[j..]) == multiset(before) + multiset{m}
  {
    assert before == before[..j] + before[j..];
  }

  lemma InsertSorted(before: seq<WireMatch>, j: nat, m: WireMatch, after: seq<WireMatch>)
    requires j <= |before| && after == before[..j] + [m] + before[j..] && Sorted(Spans(before))
    requires forall k :: 0 <= k < j ==> !Less(m.ToSpan(), before[k].ToSpan())
    requires forall k :: j <= k < |before| ==> Less(m.ToSpan(), before[k].ToSpan())
    ensures Sorted(Spans(after))
  {
    var s, t := Spans(before), Spans(after);
    forall x, y | 0 <= x < y < |t| ensures !Less(t[y], t[x]) {
      var x' := if x < j then x else x - 1;
      var y' := if y < j then y else y - 1;
      assert x != j ==> t[x] == s[x'];
      assert y != j ==> t[y] == s[y'];
    }
  }

  /** Daemon redactor: sort a copy, compact it in place onto the kept matches, splice. */
  method RedactInPlace(input: Bytes, matches: seq<WireMatch>) returns (out: Bytes)
    requires forall m :: m in matches ==> m.start < m.end <= |input|
    ensures IsRedaction(input, BearingSpans(matches), out)
  {
    if |matches| == 0 {
      assert IsGreedy([], BearingSpans(matches), 0) && Fits([], 0, |input|);
      assert input == Splice(input, [], 0);
      return input;
    }
    var s := SortSlice(matches);
    ghost var kept := Filtered(Spans(s), -1);
    KeptFacts(input, matches, s);
    var sorted := new WireMatch[|s|](i requires 0 <= i < |s| => s[i]);
    assert sorted[..] == s;
    var k := Compact(sorted);
    assert Spans(sorted[..k]) == kept;
    out := [];
    var pos: nat := 0;
    for i := 0 to k
      invariant Spans(sorted[..k]) == kept
      invariant Fits(kept[i..], pos, |input|)
      invariant out + Splice(input, kept[i..], pos) == Splice(input, kept, 0)
    {
      var m := sorted[i];
      assert Spans(sorted[..k])[i] == m.ToSpan() && kept[i..][1..] == kept[i + 1..];
      SpliceStep(input, kept[i..], pos, out);
      out := out + input[pos..m.start];
      out := out + m.placeholder;
      pos := m.end;
    }
    out := out + input[pos..];
  }

  /** The kept matches, written over the front of the slice they are read from. */
  method Compact(sorted: array<WireMatch>) returns (k: nat)
    modifies sorted
    ensures k <= sorted.Length
    ensures Spans(sorted[..k]) == Filtered(Spans(old(sorted[..])), -1)
  {
    k := 0;
    var cursor: int := -1;
    ghost var s := sorted[..];
    for i := 0 to sorted.Length
      invariant k <= i && forall j :: i <= j < |s| ==> sorted[j] == s[j]
      invariant Spans(sorted[..k]) + Filtered(Spans(s[i..]), cursor) == Filtered(Spans(s), -1)
    {
      var m := sorted[i];
      SpansStep(s, i);
      if m.placeholder == [] || m.start < cursor {
        continue;
      }
      ghost var was := sorted[..k];
      sorted[k] := m;
      k, cursor := k + 1, m.end;
      assert sorted[..k] == was + [m];
      SpansMore(was, m);
      Assoc(Spans(was), [m.ToSpan()], Filtered(Spans(s[i + 1..]), cursor));
    }
  }

  lemma SpansStep(s: seq<WireMatch>, i: nat)
    requires i < |s|
    ensures Spans(s[i..]) != [] && Spans(s[i..])[1..] == Spans(s[i + 1..]) && Spans(s[i..])[0] == s[i].ToSpan()
  {
  }

  lemma SpanOf(s: seq<WireMatch>, m: WireMatch)
    requires m in s
    ensures m.ToSpan() in Spans(s)
  {
    var i :| 0 <= i < |s| && s[i] == m;
    assert Spans(s)[i] == m.ToSpan();
  }

  lemma SpansMore(was: seq<WireMatch>, m: WireMatch)
    ensures Spans(was + [m]) == Spans(was) + [m.ToSpan()]
  {
  }

  lemma KeptFacts(input: Bytes, matches: seq<WireMatch>, s: seq<WireMatch>)
    requires forall m :: m in matches ==> m.start < m.end <= |input|
    requires Sorted(Spans(s)) && multiset(s) == multiset(matches)
    ensures var kept := Filtered(Spans(s), -1);
      IsGreedy(kept, BearingSpans(matches), 0) && Fits(kept, 0, |input|)
  {
    var spans := BearingSpans(matches);
    assert forall m :: m in matches <==> m in multiset(matches);
    assert forall m :: m in s <==> m in multiset(s);
    forall x | x in spans ensures x in Spans(s) && x.ph != [] && x.start < x.end <= |input| {
      var m :| m in matches && m.placeholder != [] && x == m.ToSpan();
      SpanOf(s, m);
    }
    FilteredIsGreedy(Spans(s), spans, -1, 0);
    GreedyFits(Filtered(Spans(s), -1), spans, 0, |input|);
  }

  /** The proxy's insertion sort. */
  method SortSpans(s: array<Span>)
    modifies s
    ensures Sorted(s[..]) && multiset(s[..]) == old(multiset(s[..]))
  {
    var i := 1;
    while i < s.Length
      invariant 1 <= i && multiset(s[..]) == old(multiset(s[..]))
      invariant forall a, b :: 0 <= a < b < i && b < s.Length ==> !Less(s[b], s[a])
    {
      SinkInto(s, i);
      i := i + 1;
    }
  }

  /** The inner loop: swap s[i] down past every greater predecessor. */
  method SinkInto(s: array<Span>, i: nat)
    requires i < s.Length && forall a, b :: 0 <= a < b < i ==> !Less(s[b], s[a])
    modifies s
    ensures multiset(s[..]) == old(multiset(s[..]))
    ensures forall a, b :: 0 <= a < b <= i ==> !Less(s[b], s[a])
  {
    var j := i;
    while j > 0 && Less(s[j], s[j - 1])
      invariant 0 <= j <= i && multiset(s[..]) == old(multiset(s[..]))
      invariant forall a, b :: 0 <= a < b <= i && b != j ==> !Less(s[b], s[a])
    {
      ghost var was := s[..];
      s[j], s[j - 1] := s[j - 1], s[j];
      SwapKeeps(was, s[..], j);
      SwapSinks(was, s[..], i, j);
      j := j - 1;
    }
  }

  lemma SwapKeeps(was: seq<Span>, now: seq<Span>, j: nat)
    requires 0 < j < |was| && now == was[j := was[j - 1]][j - 1 := was[j]]
    ensures multiset(now) == multiset(was)
  {
  }

  lemma SwapSinks(was: seq<Span>, now: seq<Span>, i: nat, j: nat)
    requires 0 < j <= i < |was| && now == was[j := was[j - 1]][j - 1 := was[j]] && Less(was[j], was[j - 1])
    requires forall a, b :: 0 <= a < b <= i && b != j ==> !Less(was[b], was[a])
    ensures forall a, b :: 0 <= a < b <= i && b != j - 1 ==> !Less(now[b], now[a])
  {
  }

  /** Proxy redactor: sort the spans in place, then filter and splice in one pass. */
  method Rewrite(input: Bytes, spans: array<Span>) returns (out: Bytes)
    requires forall s :: s in spans[..] ==> s.start < s.end <= |input| && s.ph != []
    modifies spans
    ensures multiset(spans[..]) == old(multiset(spans[..]))
    ensures IsRedaction(input, (set s | s in old(spans[..])), out)
  {
    SortSpans(spans);
    ghost var sorted := spans[..];
    ghost var kept := Filtered(sorted, -1);
    SortedKept(old(spans[..]), sorted, |input|);
    out := SpliceSorted(input, spans, kept);
  }

  /** The loop that resolves overlaps and splices in one pass. */
  method SpliceSorted(input: Bytes, spans: array<Span>, ghost kept: seq<Span>) returns (out: Bytes)
    requires (forall s :: s in spans[..] ==> s.ph != []) && kept == Filtered(spans[..], -1) && Fits(kept, 0, |input|)
    ensures out == Splice(input, kept, 0)
  {
    ghost var sorted := spans[..];
    var cursor: int := -1;
    var pos: nat := 0;
    out := [];
    ghost var rest := kept;
    assert sorted[0..] == sorted;
    for i := 0 to spans.Length
      invariant cursor == pos || (cursor == -1 && pos == 0)
      invariant rest == Filtered(sorted[i..], cursor)
      invariant Fits(rest, pos, |input|)
      invariant out + Splice(input, rest, pos) == Splice(input, kept, 0)
    {
      var sp := spans[i];
      FilteredStep(sorted, i, cursor);
      if sp.start < cursor {
        continue;
      }
      SpliceStep(input, rest, pos, out);
      out := out + input[pos..sp.start];
      out := out + sp.ph;
      pos, cursor := sp.end, sp.end;
      rest := rest[1..];
    }
    out := out + input[pos..];
  }

  lemma SortedKept(spans: seq<Span>, sorted: seq<Span>, n: nat)
    requires Sorted(sorted) && multiset(sorted) == multiset(spans)
    requires forall s :: s in spans ==> s.start < s.end <= n && s.ph != []
    ensures forall s :: s in sorted <==> s in spans
    ensures IsGreedy(Filtered(sorted, -1), (set s | s in spans), 0) && Fits(Filtered(sorted, -1), 0, n)
  {
    assert forall s :: s in sorted <==> s in multiset(sorted);
    assert forall s :: s in spans <==> s in multiset(spans);
    FilteredIsGreedy(sorted, (set s | s in spans), -1, 0);
    GreedyFits(Filtered(sorted, -1), (set s | s in spans), 0, n);
  }

  lemma FilteredStep(s: seq<Span>, i: nat, cursor: int)
    requires i < |s| && s[i].ph != []
    ensures s[i].start < cursor ==> Filtered(s[i..], cursor) == Filtered(s[i + 1..], cursor)
    ensures s[i].start >= cursor ==>
      Filtered(s[i..], cursor) != [] && Filtered(s[i..], cursor)[0] == s[i]
      && Filtered(s[i..], cursor)[1..] == Filtered(s[i + 1..], s[i].end)
  {
    assert s[i..][1..] == s[i + 1..];
  }
}
