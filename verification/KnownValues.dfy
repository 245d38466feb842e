/** The exact-match stage: where the detector finds a known value in the input. */
module KnownValues {
  import opened ByteText

  /** What the loop over indexOf reports: leftmost, then leftmost past the previous hit. */
  function Hits(text: Bytes, v: Bytes, from: nat): (hits: seq<nat>)
    requires 0 < |v|
    decreases |text| - from
  {
    var i := IndexFrom(text, v, from);
    if i < 0 then [] else [i] + Hits(text, v, i + |v|)
  }

  lemma HitsStep(text: Bytes, v: Bytes, from: nat)
    requires 0 < |v| && 0 <= IndexFrom(text, v, from)
    ensures var i := IndexFrom(text, v, from); Hits(text, v, from) == [i] + Hits(text, v, i + |v|)
  {
  }

  lemma HitText(text: Bytes, v: Bytes, q: nat)
    requires 0 < |v| && q in Hits(text, v, 0)
    ensures q + |v| <= |text| && text[q..q + |v|] == v
  {
    HitsAreOccurrences(text, v, 0);
  }

  /** v has a proper, non-empty prefix that is also its suffix. */
  ghost predicate Bordered(v: Bytes) {
    exists n :: 0 < n < |v| && v[..n] == v[|v| - n..]
  }

  lemma {:induction false} HitsAreOccurrences(text: Bytes, v: Bytes, from: nat)
    requires 0 < |v|
    ensures forall q :: q in Hits(text, v, from) ==> from <= q && OccursAt(text, v, q)
    decreases |text| - from
  {
    var i := IndexFrom(text, v, from);
    IndexFromIsLeftmost(text, v, from);
    if 0 <= i {
      HitsAreOccurrences(text, v, i + |v|);
      var rest := Hits(text, v, i + |v|);
      forall q | q in Hits(text, v, from) ensures from <= q && OccursAt(text, v, q) {
        assert q == i || q in rest;
      }
    }
  }

  /** No occurrence escapes the hits: it shares a byte with one that starts no later. */
  lemma {:induction false} HitCovers(text: Bytes, v: Bytes, from: nat, p: nat) returns (q: nat)
    requires 0 < |v| && from <= p && OccursAt(text, v, p)
    ensures q in Hits(text, v, from) && q <= p < q + |v|
    decreases |text| - from
  {
    IndexFromIsLeftmost(text, v, from);
    q := IndexFrom(text, v, from);
    if q + |v| <= p {
      q := HitCovers(text, v, q + |v|, p);
    }
  }

  /** Hits come in order and do not overlap. */
  lemma {:induction false} HitsDisjoint(text: Bytes, v: Bytes, from: nat, i: nat, j: nat)
    requires 0 < |v| && i < j < |Hits(text, v, from)|
    ensures var hits := Hits(text, v, from); hits[i] + |v| <= hits[j]
    decreases |text| - from
  {
    var first := IndexFrom(text, v, from);
    var rest := Hits(text, v, first + |v|);
    HitsAreOccurrences(text, v, first + |v|);
    if i == 0 {
      assert rest[j - 1] in rest;
    } else {
      HitsDisjoint(text, v, first + |v|, i - 1, j - 1);
    }
  }

  lemma OverlapIsBorder(text: Bytes, v: Bytes, p: int, q: int)
    requires OccursAt(text, v, p) && OccursAt(text, v, q) && p < q < p + |v|
    ensures Bordered(v)
  {
    var n := p + |v| - q;
    assert v[..n] == text[q..q + |v|][..n] == text[q..p + |v|];
    assert v[|v| - n..] == text[p..p + |v|][|v| - n..] == text[q..p + |v|];
  }

  /** For a value without a border, hits are exactly the occurrences. */
  lemma UnborderedHitsAreAll(text: Bytes, v: Bytes)
    requires 0 < |v| && !Bordered(v)
    ensures forall p: nat :: p in Hits(text, v, 0) <==> OccursAt(text, v, p)
  {
    HitsAreOccurrences(text, v, 0);
    forall p: nat | OccursAt(text, v, p) ensures p in Hits(text, v, 0) {
      var q := HitCovers(text, v, 0, p);
      if q < p {
        OverlapIsBorder(text, v, q, p);
      }
    }
  }
}
