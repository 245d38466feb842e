/** The hook that puts real values back: findPlaceholders and the substitution loop of preBash. */
module Restore {
  import opened ByteText
  import opened Sequences
  import opened Redaction

  // ---- Library functions

  /** The non-overlapping placeholders of s, leftmost first (regexp.FindAllString). */
  function FindAll(s: Bytes): seq<Bytes> {
    if |s| < PLACEHOLDER_LEN then []
    else if PlaceholderAt(s, 0) then [s[..PLACEHOLDER_LEN]] + FindAll(s[PLACEHOLDER_LEN..])
    else FindAll(s[1..])
  }

  /** s with the non-overlapping occurrences of p, leftmost first, replaced by x (strings.ReplaceAll). */
  function ReplaceAll(s: Bytes, p: Bytes, x: Bytes): Bytes
    requires p != []
  {
    if |s| < |p| then s
    else if s[..|p|] == p then x + ReplaceAll(s[|p|..], p, x)
    else [s[0]] + ReplaceAll(s[1..], p, x)
  }

  // ---- The hook

  /** The daemon's answer to one resolve request; Value of nothing stands for an absent result. */
  datatype Reply = CallFailed | NotBound | NotFound | OtherError | Value(v: Bytes)

  datatype Lookup = Found(v: Bytes) | Missing | Aborted

  datatype Result = Ok(out: Bytes) | Error

  /** Asks host after host: a value wins, an unbound host is skipped, an unknown placeholder ends the search. */
  function LookupOn(ph: Bytes, hosts: seq<Bytes>, resolve: (Bytes, Bytes) -> Reply): Lookup {
    if hosts == [] then Missing
    else match resolve(ph, hosts[0])
      case CallFailed => Aborted
      case OtherError => Aborted
      case NotFound => Missing
      case NotBound => LookupOn(ph, hosts[1..], resolve)
      case Value(v) => if v != [] then Found(v) else LookupOn(ph, hosts[1..], resolve)
  }

  function SubstituteEach(out: Bytes, phs: seq<Bytes>, hosts: seq<Bytes>, resolve: (Bytes, Bytes) -> Reply): Result
    requires forall i :: 0 <= i < |phs| ==> phs[i] != []
    decreases |phs|
  {
    if phs == [] then Ok(out)
    else match LookupOn(phs[0], hosts, resolve)
      case Aborted => Error
      case Missing => SubstituteEach(out, phs[1..], hosts, resolve)
      case Found(v) => SubstituteEach(ReplaceAll(out, phs[0], v), phs[1..], hosts, resolve)
  }

  lemma {:induction false} FoundArePlaceholders(s: Bytes, p: Bytes)
    requires p in FindAll(s)
    ensures IsPlaceholder(p)
  {
    if PlaceholderAt(s, 0) {
      if p != s[..PLACEHOLDER_LEN] {
        FoundArePlaceholders(s[PLACEHOLDER_LEN..], p);
      }
    } else {
      FoundArePlaceholders(s[1..], p);
    }
  }

  /** Distinct placeholders in order of first appearance, compacted over the list they are read from. */
  method FindPlaceholders(s: Bytes) returns (out: seq<Bytes>)
    ensures out == Distinct(FindAll(s), {})
  {
    var all := FindAll(s);
    if |all| == 0 {
      return [];
    }
    var a := new Bytes[|all|](i requires 0 <= i < |all| => all[i]);
    assert a[..] == all;
    var k := CompactDistinct(a);
    out := a[..k];
  }

  function DistinctPlaceholders(cmd: Bytes): (phs: seq<Bytes>)
    ensures forall i :: 0 <= i < |phs| ==> phs[i] != []
  {
    var phs := Distinct(FindAll(cmd), {});
    assert forall i :: 0 <= i < |phs| ==> phs[i] != [] by {
      forall i | 0 <= i < |phs| ensures phs[i] != [] {
        DistinctElements(FindAll(cmd), {}, phs[i]);
        FoundArePlaceholders(cmd, phs[i]);
      }
    }
    phs
  }

  /** The rewriting of a command: every placeholder the daemon resolves for one of the hosts is replaced. */
  function Substituted(cmd: Bytes, hosts: seq<Bytes>, resolve: (Bytes, Bytes) -> Reply): Result {
    if hosts == [] then Ok(cmd) else SubstituteEach(cmd, DistinctPlaceholders(cmd), hosts, resolve)
  }

  method PreBash(cmd: Bytes, hosts: seq<Bytes>, resolve: (Bytes, Bytes) -> Reply) returns (r: Result)
    ensures r == Substituted(cmd, hosts, resolve)
    ensures r == Error <==> exists ph, i: nat :: ph in FindAll(cmd) && AbortsAt(ph, hosts, i, resolve)
  {
    HookFailsExactly(cmd, hosts, resolve);
    var placeholders := FindPlaceholders(cmd);
    assert placeholders == DistinctPlaceholders(cmd);
    if |placeholders| == 0 {
      return Ok(cmd);
    }
    if |hosts| == 0 {
      return Ok(cmd);
    }
    var out := cmd;
    for n := 0 to |placeholders|
      invariant SubstituteEach(out, placeholders[n..], hosts, resolve) == SubstituteEach(cmd, placeholders, hosts, resolve)
    {
      var ph := placeholders[n];
      assert placeholders[n..][1..] == placeholders[n + 1..];
      var answer := FirstAnswer(ph, hosts, resolve);
      match answer {
        case Aborted => return Error;
        case Missing =>
        case Found(v) => out := ReplaceAll(out, ph, v);
      }
    }
    r := Ok(out);
  }

  /** The inner loop over hosts. */
  method FirstAnswer(ph: Bytes, hosts: seq<Bytes>, resolve: (Bytes, Bytes) -> Reply) returns (answer: Lookup)
    ensures answer == LookupOn(ph, hosts, resolve)
  {
    for h := 0 to |hosts|
      invariant LookupOn(ph, hosts[h..], resolve) == LookupOn(ph, hosts, resolve)
    {
      assert hosts[h..][1..] == hosts[h + 1..];
      match resolve(ph, hosts[h]) {
        case CallFailed => return Aborted;
        case OtherError => return Aborted;
        case NotBound =>
        case NotFound => return Missing;
        case Value(v) =>
          if v != [] {
            return Found(v);
          }
      }
    }
    return Missing;
  }

  // ---- Redact, then substitute

  /**
   * A `TOKEN_hhhhhh` in the original text that an inserted placeholder beside it could complete: it has a byte after it,
   * and before it a `@` or two bytes.
   */
  ghost predicate StrayAt(text: Bytes, i: nat) {
    InteriorAt(text, i) && i + 12 < |text| && (i > 1 || (i == 1 && text[0] == AT))
  }

  ghost predicate StrayFree(text: Bytes) {
    forall i: nat :: !StrayAt(text, i)
  }

  /** No half of a placeholder follows the first byte. */
  predicate NoHalfAtOne(text: Bytes) {
    !InteriorAt(text, 1) || |text| == 13
  }

  ghost predicate Labelled(kept: seq<Span>) {
    forall i :: 0 <= i < |kept| ==> IsPlaceholder(kept[i].ph)
  }

  /** s begins with what is missing of a placeholder after its first `@`. */
  ghost predicate Closes(s: Bytes) {
    InteriorAt(s, 0) && 12 < |s| && s[12] == AT
  }

  /** From the third byte on the spliced text does not go on so, nor from the second if the text has no half there. */
  lemma NothingCloses(text: Bytes, kept: seq<Span>, pos: nat)
    requires Fits(kept, pos, |text|) && Labelled(kept) && StrayFree(text) && 0 < pos && (pos == 1 ==> NoHalfAtOne(text))
    ensures !Closes(Splice(text, kept, pos))
  {
    var out := Splice(text, kept, pos);
    assert !StrayAt(text, pos);
    if Closes(out) {
      InteriorHasNoAt(out, 0);
      assert kept != [] ==> out[kept[0].start - pos] == kept[0].ph[0] == AT;
      forall j | pos <= j < pos + 12 ensures text[j] == out[j - pos] {}
      assert InteriorAt(text, pos);
      assert false;
    }
  }

  /** No placeholder starts in the gap before the first kept span. */
  lemma NoPlaceholderInGap(text: Bytes, kept: seq<Span>, pos: nat, i: nat)
    requires Fits(kept, pos, |text|) && Labelled(kept) && StrayFree(text)
    requires pos + i < if kept == [] then |text| else kept[0].start
    ensures !PlaceholderAt(Splice(text, kept, pos), i)
  {
    var out := Splice(text, kept, pos);
    assert !StrayAt(text, pos + i + 1);
    if PlaceholderAt(out, i) {
      InteriorHasNoAt(out, i + 1);
      assert kept != [] ==> out[kept[0].start - pos] == kept[0].ph[0] == AT;
      forall j | pos + i + 1 <= j < pos + i + 13 ensures text[j] == out[j - pos] {}
      assert InteriorAt(text, pos + i + 1);
      assert false;
    }
  }

  /** A placeholder followed by tail: only its own first byte starts a placeholder. */
  lemma NoPlaceholderInside(p: Bytes, tail: Bytes, i: nat)
    requires IsPlaceholder(p) && !Closes(tail) && 0 < i < PLACEHOLDER_LEN
    ensures !PlaceholderAt(p + tail, i)
  {
    InteriorHasNoAt(p, 1);
    assert forall j :: 0 <= j < |tail| ==> tail[j] == (p + tail)[14 + j];
  }

  lemma {:induction false} FindAllSkips(g: Bytes, rest: Bytes)
    requires forall i :: 0 <= i < |g| ==> !PlaceholderAt(g + rest, i)
    ensures FindAll(g + rest) == FindAll(rest)
  {
    if g == [] {
      assert g + rest == rest;
    } else {
      assert (g + rest)[1..] == g[1..] + rest;
      forall i | 0 <= i < |g[1..]| ensures !PlaceholderAt(g[1..] + rest, i) {
        assert !PlaceholderAt(g + rest, i + 1);
        SuffixPlaceholder(g + rest, i);
      }
      FindAllSkips(g[1..], rest);
    }
  }

  lemma SuffixPlaceholder(s: Bytes, i: nat)
    requires s != []
    ensures PlaceholderAt(s[1..], i) <==> PlaceholderAt(s, i + 1)
  {
    var t := s[1..];
    assert forall j :: 0 <= j < |t| ==> t[j] == s[j + 1];
    if i + 14 <= |t| {
      forall j | i + 1 <= j < i + 13 ensures t[j] == s[j + 1] && InteriorByte(j - i - 1, t[j]) == InteriorByte(j - i - 1, s[j + 1]) {}
      if InteriorAt(t, i + 1) {
        forall j | i + 2 <= j < i + 14 ensures InteriorByte(j - i - 2, s[j]) { assert s[j] == t[j - 1]; }
      }
    }
  }

  function Labels(kept: seq<Span>): seq<Bytes> {
    if kept == [] then [] else [kept[0].ph] + Labels(kept[1..])
  }

  /** The hook finds exactly the inserted placeholders, in order. */
  lemma {:induction false} FindAllInSplice(text: Bytes, kept: seq<Span>, pos: nat)
    requires Fits(kept, pos, |text|) && Labelled(kept) && StrayFree(text)
    ensures FindAll(Splice(text, kept, pos)) == Labels(kept)
  {
    var out := Splice(text, kept, pos);
    var gap := if kept == [] then text[pos..] else text[pos..kept[0].start];
    forall i | 0 <= i < |gap| ensures !PlaceholderAt(out, i) {
      NoPlaceholderInGap(text, kept, pos, i);
    }
    if kept == [] {
      assert out == gap + [];
      FindAllSkips(gap, []);
    } else {
      var p, tail := kept[0].ph, Splice(text, kept[1..], kept[0].end);
      assert out == gap + (p + tail);
      FindAllSkips(gap, p + tail);
      FindAllHead(p, tail);
      FindAllInSplice(text, kept[1..], kept[0].end);
    }
  }

  lemma FindAllHead(p: Bytes, tail: Bytes)
    requires IsPlaceholder(p)
    ensures FindAll(p + tail) == [p] + FindAll(tail)
  {
    assert forall j :: 0 <= j < |p| ==> (p + tail)[j] == p[j];
    assert (p + tail)[..PLACEHOLDER_LEN] == p && (p + tail)[PLACEHOLDER_LEN..] == tail;
  }

  lemma {:induction false} ReplaceAllSkips(g: Bytes, rest: Bytes, p: Bytes, x: Bytes)
    requires IsPlaceholder(p) && forall i :: 0 <= i < |g| ==> !PlaceholderAt(g + rest, i)
    ensures ReplaceAll(g + rest, p, x) == g + ReplaceAll(rest, p, x)
  {
    if g == [] {
      assert g + rest == rest;
    } else {
      var s := g + rest;
      assert s[1..] == g[1..] + rest;
      assert s[0] == g[0] && !PlaceholderAt(s, 0);
      assert |p| <= |s| ==> s[..|p|] != p by {
        if |p| <= |s| {
          assert forall j :: 0 <= j < |p| ==> s[..|p|][j] == s[j];
        }
      }
      forall i | 0 <= i < |g[1..]| ensures !PlaceholderAt(g[1..] + rest, i) {
        assert !PlaceholderAt(s, i + 1);
        SuffixPlaceholder(s, i);
      }
      ReplaceAllSkips(g[1..], rest, p, x);
    }
  }

  function Without(kept: seq<Span>, p: Bytes): seq<Span> {
    if kept == [] then []
    else if kept[0].ph == p then Without(kept[1..], p)
    else [kept[0]] + Without(kept[1..], p)
  }

  lemma {:induction false} WithoutFits(kept: seq<Span>, p: Bytes, pos: nat, n: nat)
    requires Fits(kept, pos, n)
    ensures Fits(Without(kept, p), pos, n)
  {
    if kept != [] {
      var rest := Without(kept[1..], p);
      WithoutFits(kept[1..], p, kept[0].end, n);
      if kept[0].ph == p {
        FitsEarlier(rest, pos, kept[0].end, n);
      } else {
        assert ([kept[0]] + rest)[1..] == rest;
      }
    }
  }

  lemma FitsEarlier(kept: seq<Span>, pos: nat, later: nat, n: nat)
    requires Fits(kept, later, n) && pos <= later
    ensures Fits(kept, pos, n)
  {
  }

  /** Dropping the first span puts its bytes back. */
  lemma SpliceEarlier(text: Bytes, kept: seq<Span>, pos: nat, later: nat)
    requires Fits(kept, later, |text|) && pos <= later
    ensures Fits(kept, pos, |text|) && Splice(text, kept, pos) == text[pos..later] + Splice(text, kept, later)
  {
    if kept == [] {
      assert text[pos..] == text[pos..later] + text[later..];
    } else {
      var k := kept[0];
      assert text[pos..k.start] == text[pos..later] + text[later..k.start];
      Regroup(text[pos..later], text[later..k.start], k.ph, Splice(text, kept[1..], k.end));
    }
  }

  /** Only what replaces the very first byte can be taken for the front of another placeholder: so p is its turn. */
  predicate FirstFirst(text: Bytes, kept: seq<Span>, p: Bytes) {
    kept != [] && kept[0].end == 1 ==> kept[0].ph == p || NoHalfAtOne(text)
  }

  /** Replacing every copy of one inserted placeholder by the bytes it stands for undoes just those spans. */
  lemma {:induction false} ReplaceUndoes(text: Bytes, kept: seq<Span>, pos: nat, p: Bytes, x: Bytes)
    requires Fits(kept, pos, |text|) && Labelled(kept) && StrayFree(text) && IsPlaceholder(p) && FirstFirst(text, kept, p)
    requires forall i :: 0 <= i < |kept| && kept[i].ph == p ==> Covered(text, kept[i]) == x
    ensures Fits(Without(kept, p), pos, |text|)
    ensures ReplaceAll(Splice(text, kept, pos), p, x) == Splice(text, Without(kept, p), pos)
  {
    WithoutFits(kept, p, pos, |text|);
    var out := Splice(text, kept, pos);
    var gap := if kept == [] then text[pos..] else text[pos..kept[0].start];
    forall i | 0 <= i < |gap| ensures !PlaceholderAt(out, i) {
      NoPlaceholderInGap(text, kept, pos, i);
    }
    if kept == [] {
      assert out == gap + [];
      ReplaceAllSkips(gap, [], p, x);
    } else {
      var k, rest := kept[0], kept[1..];
      var tail := Splice(text, rest, k.end);
      ReplaceUndoes(text, rest, k.end, p, x);
      assert out == gap + (k.ph + tail);
      ReplaceAllSkips(gap, k.ph + tail, p, x);
      if k.ph == p {
        ReplaceFirst(text, kept, pos, p, x, tail);
      } else {
        NothingCloses(text, rest, k.end);
        ReplacePast(text, kept, pos, p, x, tail);
      }
    }
  }

  /** The step of ReplaceUndoes at a span that carries p. */
  lemma ReplaceFirst(text: Bytes, kept: seq<Span>, pos: nat, p: Bytes, x: Bytes, tail: Bytes)
    requires kept != [] && Fits(kept, pos, |text|) && IsPlaceholder(p) && kept[0].ph == p && Covered(text, kept[0]) == x
    requires Fits(Without(kept[1..], p), kept[0].end, |text|)
    requires ReplaceAll(tail, p, x) == Splice(text, Without(kept[1..], p), kept[0].end)
    ensures Fits(Without(kept, p), pos, |text|)
    ensures text[pos..kept[0].start] + ReplaceAll(p + tail, p, x) == Splice(text, Without(kept, p), pos)
  {
    var k, left := kept[0], Without(kept[1..], p);
    assert (p + tail)[..|p|] == p && (p + tail)[|p|..] == tail;
    SpliceEarlier(text, left, pos, k.end);
    assert text[pos..k.start] + (x + Splice(text, left, k.end)) == text[pos..k.end] + Splice(text, left, k.end);
  }

  /** The step of ReplaceUndoes at a span that carries another placeholder. */
  lemma ReplacePast(text: Bytes, kept: seq<Span>, pos: nat, p: Bytes, x: Bytes, tail: Bytes)
    requires kept != [] && Fits(kept, pos, |text|) && IsPlaceholder(p) && IsPlaceholder(kept[0].ph) && kept[0].ph != p
    requires !Closes(tail) && Fits(Without(kept[1..], p), kept[0].end, |text|)
    requires ReplaceAll(tail, p, x) == Splice(text, Without(kept[1..], p), kept[0].end)
    ensures Fits(Without(kept, p), pos, |text|)
    ensures text[pos..kept[0].start] + ReplaceAll(kept[0].ph + tail, p, x) == Splice(text, Without(kept, p), pos)
  {
    var k, left := kept[0], Without(kept[1..], p);
    ReplaceAllOther(k.ph, tail, p, x);
    assert ([k] + left)[1..] == left;
    assert text[pos..k.start] + (k.ph + Splice(text, left, k.end)) == text[pos..k.start] + k.ph + Splice(text, left, k.end);
  }

  lemma ReplaceAllOther(q: Bytes, tail: Bytes, p: Bytes, x: Bytes)
    requires IsPlaceholder(q) && IsPlaceholder(p) && q != p && !Closes(tail)
    ensures ReplaceAll(q + tail, p, x) == q + ReplaceAll(tail, p, x)
  {
    var s := q + tail;
    assert s[..|p|] == q && s[0] == q[0];
    assert s[1..] == q[1..] + tail;
    forall i | 0 <= i < |q[1..]| ensures !PlaceholderAt(q[1..] + tail, i) {
      NoPlaceholderInside(q, tail, i + 1);
      SuffixPlaceholder(s, i);
    }
    ReplaceAllSkips(q[1..], tail, p, x);
  }

  lemma {:induction false} WithoutMembers(kept: seq<Span>, p: Bytes, i: nat) returns (j: nat)
    requires i < |Without(kept, p)|
    ensures j < |kept| && Without(kept, p)[i] == kept[j] && kept[j].ph != p
  {
    if kept[0].ph == p {
      j := WithoutMembers(kept[1..], p, i);
      j := j + 1;
    } else if i == 0 {
      j := 0;
    } else {
      j := WithoutMembers(kept[1..], p, i - 1);
      j := j + 1;
    }
  }

  /** Every inserted placeholder is looked up as the bytes it replaced. */
  ghost predicate Resolvable(text: Bytes, kept: seq<Span>, hosts: seq<Bytes>, resolve: (Bytes, Bytes) -> Reply) {
    forall i :: 0 <= i < |kept| ==> LookupOn(kept[i].ph, hosts, resolve) == Found(Covered(text, kept[i]))
  }

  /** Every inserted placeholder is looked up as the bytes it replaced, or not found. */
  ghost predicate PartlyResolvable(text: Bytes, kept: seq<Span>, hosts: seq<Bytes>, resolve: (Bytes, Bytes) -> Reply) {
    && (forall i :: 0 <= i < |kept| ==> LookupOn(kept[i].ph, hosts, resolve) in {Found(Covered(text, kept[i])), Missing})
    && (kept != [] && kept[0].end == 1 && LookupOn(kept[0].ph, hosts, resolve) == Missing ==> NoHalfAtOne(text))
  }

  /** The spans whose placeholders are not found. */
  function Unresolved(kept: seq<Span>, hosts: seq<Bytes>, resolve: (Bytes, Bytes) -> Reply): seq<Span> {
    if kept == [] then []
    else if LookupOn(kept[0].ph, hosts, resolve).Missing? then [kept[0]] + Unresolved(kept[1..], hosts, resolve)
    else Unresolved(kept[1..], hosts, resolve)
  }

  lemma {:induction false} UnresolvedFits(kept: seq<Span>, hosts: seq<Bytes>, resolve: (Bytes, Bytes) -> Reply, pos: nat, n: nat)
    requires Fits(kept, pos, n)
    ensures Fits(Unresolved(kept, hosts, resolve), pos, n)
  {
    if kept != [] {
      var rest := Unresolved(kept[1..], hosts, resolve);
      UnresolvedFits(kept[1..], hosts, resolve, kept[0].end, n);
      if LookupOn(kept[0].ph, hosts, resolve).Missing? {
        assert ([kept[0]] + rest)[1..] == rest;
      } else {
        FitsEarlier(rest, pos, kept[0].end, n);
      }
    }
  }

  lemma {:induction false} NoneResolved(kept: seq<Span>, hosts: seq<Bytes>, resolve: (Bytes, Bytes) -> Reply)
    requires forall i :: 0 <= i < |kept| ==> LookupOn(kept[i].ph, hosts, resolve).Missing?
    ensures Unresolved(kept, hosts, resolve) == kept
  {
    if kept != [] {
      NoneResolved(kept[1..], hosts, resolve);
    }
  }

  lemma {:induction false} AllResolved(kept: seq<Span>, hosts: seq<Bytes>, resolve: (Bytes, Bytes) -> Reply)
    requires forall i :: 0 <= i < |kept| ==> !LookupOn(kept[i].ph, hosts, resolve).Missing?
    ensures Unresolved(kept, hosts, resolve) == []
  {
    if kept != [] {
      AllResolved(kept[1..], hosts, resolve);
    }
  }

  lemma {:induction false} UnresolvedWithout(kept: seq<Span>, p: Bytes, hosts: seq<Bytes>, resolve: (Bytes, Bytes) -> Reply)
    requires !LookupOn(p, hosts, resolve).Missing?
    ensures Unresolved(Without(kept, p), hosts, resolve) == Unresolved(kept, hosts, resolve)
  {
    if kept != [] {
      UnresolvedWithout(kept[1..], p, hosts, resolve);
      assert kept[0].ph != p ==> Without(kept, p)[1..] == Without(kept[1..], p);
    }
  }

  lemma {:induction false} SubstituteUndoes(text: Bytes, kept: seq<Span>, phs: seq<Bytes>, hosts: seq<Bytes>,
                                            resolve: (Bytes, Bytes) -> Reply)
    requires Fits(kept, 0, |text|) && Labelled(kept) && StrayFree(text) && PartlyResolvable(text, kept, hosts, resolve)
    requires phs != [] ==> FirstFirst(text, kept, phs[0])
    requires forall i :: 0 <= i < |kept| ==> kept[i].ph in phs || LookupOn(kept[i].ph, hosts, resolve).Missing?
    requires forall i :: 0 <= i < |phs| ==> phs[i] != [] && IsPlaceholder(phs[i])
    requires forall i :: 0 <= i < |phs| ==> !LookupOn(phs[i], hosts, resolve).Aborted?
    ensures Fits(Unresolved(kept, hosts, resolve), 0, |text|)
    ensures SubstituteEach(Splice(text, kept, 0), phs, hosts, resolve) == Ok(Splice(text, Unresolved(kept, hosts, resolve), 0))
    decreases |phs|
  {
    UnresolvedFits(kept, hosts, resolve, 0, |text|);
    if phs == [] {
      NoneResolved(kept, hosts, resolve);
    } else if LookupOn(phs[0], hosts, resolve).Missing? {
      forall i | 0 <= i < |kept| && !LookupOn(kept[i].ph, hosts, resolve).Missing? ensures kept[i].ph in phs[1..] {
        InRest(phs, kept[i].ph);
      }
      SubstituteUndoes(text, kept, phs[1..], hosts, resolve);
    } else {
      var p, x := phs[0], LookupOn(phs[0], hosts, resolve).v;
      var left := Without(kept, p);
      ReplaceUndoes(text, kept, 0, p, x);
      UnresolvedWithout(kept, p, hosts, resolve);
      LeftResolvable(text, kept, phs, hosts, resolve);
      SubstituteUndoes(text, left, phs[1..], hosts, resolve);
    }
  }

  /** What is left once the first placeholder has been replaced meets the hypotheses again. */
  lemma LeftResolvable(text: Bytes, kept: seq<Span>, phs: seq<Bytes>, hosts: seq<Bytes>, resolve: (Bytes, Bytes) -> Reply)
    requires Fits(kept, 0, |text|) && Labelled(kept) && PartlyResolvable(text, kept, hosts, resolve)
    requires phs != [] && FirstFirst(text, kept, phs[0]) && LookupOn(phs[0], hosts, resolve).Found?
    requires forall i :: 0 <= i < |kept| ==> kept[i].ph in phs || LookupOn(kept[i].ph, hosts, resolve).Missing?
    ensures var left := Without(kept, phs[0]);
      && Labelled(left) && PartlyResolvable(text, left, hosts, resolve) && (left != [] && left[0].end == 1 ==> NoHalfAtOne(text))
      && forall i :: 0 <= i < |left| ==> left[i].ph in phs[1..] || LookupOn(left[i].ph, hosts, resolve).Missing?
  {
    var left := Without(kept, phs[0]);
    WithoutLater(kept, phs[0], |text|);
    forall i | 0 <= i < |left| ensures LookupOn(left[i].ph, hosts, resolve) in {Found(Covered(text, left[i])), Missing}
      ensures IsPlaceholder(left[i].ph) && (left[i].ph in phs[1..] || LookupOn(left[i].ph, hosts, resolve).Missing?)
    {
      var j := WithoutMembers(kept, phs[0], i);
      if !LookupOn(left[i].ph, hosts, resolve).Missing? {
        InRest(phs, kept[j].ph);
      }
    }
  }

  lemma InRest(phs: seq<Bytes>, x: Bytes)
    requires phs != [] && x in phs && x != phs[0]
    ensures x in phs[1..]
  {
    var i :| 0 <= i < |phs| && phs[i] == x;
    assert phs[1..][i - 1] == x;
  }

  /** Once p is replaced, what stands for the very first byte alone is another placeholder, which stood there before. */
  lemma WithoutLater(kept: seq<Span>, p: Bytes, n: nat)
    requires Fits(kept, 0, n)
    ensures Without(kept, p) != [] && Without(kept, p)[0].end == 1 ==> kept[0].ph != p && Without(kept, p)[0] == kept[0]
  {
    if kept != [] && kept[0].ph == p {
      WithoutFits(kept[1..], p, kept[0].end, n);
    }
  }

  lemma {:induction false} LabelsMembers(kept: seq<Span>)
    ensures |Labels(kept)| == |kept| && forall i :: 0 <= i < |kept| ==> Labels(kept)[i] == kept[i].ph
  {
    if kept != [] {
      LabelsMembers(kept[1..]);
    }
  }

  /**
   * Redaction followed by substitution, when the original contains no stray `TOKEN_hhhhhh`: what the daemon resolves, for
   * one of the hosts, to the bytes replaced comes back byte for byte, and what it does not keeps its placeholder.
   */
  lemma RestoresWhatResolves(text: Bytes, kept: seq<Span>, hosts: seq<Bytes>, resolve: (Bytes, Bytes) -> Reply)
    requires Fits(kept, 0, |text|) && Labelled(kept) && StrayFree(text) && PartlyResolvable(text, kept, hosts, resolve)
    ensures Fits(Unresolved(kept, hosts, resolve), 0, |text|)
    ensures Substituted(Splice(text, kept, 0), hosts, resolve) == Ok(Splice(text, Unresolved(kept, hosts, resolve), 0))
  {
    var out := Splice(text, kept, 0);
    FindAllInSplice(text, kept, 0);
    LabelsMembers(kept);
    UnresolvedFits(kept, hosts, resolve, 0, |text|);
    var phs := DistinctPlaceholders(out);
    if hosts == [] {
      NoneResolved(kept, hosts, resolve);
    } else {
      forall i | 0 <= i < |kept| ensures kept[i].ph in phs {
        assert Labels(kept)[i] in Labels(kept);
        DistinctElements(FindAll(out), {}, kept[i].ph);
      }
      forall i | 0 <= i < |phs| ensures IsPlaceholder(phs[i]) && !LookupOn(phs[i], hosts, resolve).Aborted? {
        DistinctElements(FindAll(out), {}, phs[i]);
        FoundArePlaceholders(out, phs[i]);
        var j :| 0 <= j < |Labels(kept)| && Labels(kept)[j] == phs[i];
        assert LookupOn(kept[j].ph, hosts, resolve) != Aborted;
      }
      SubstituteUndoes(text, kept, phs, hosts, resolve);
    }
  }

  /** When all of it resolves the original comes back. */
  lemma RestoreIdentity(text: Bytes, kept: seq<Span>, hosts: seq<Bytes>, resolve: (Bytes, Bytes) -> Reply)
    requires Fits(kept, 0, |text|) && Labelled(kept) && StrayFree(text) && Resolvable(text, kept, hosts, resolve)
    ensures Substituted(Splice(text, kept, 0), hosts, resolve) == Ok(text)
  {
    RestoresWhatResolves(text, kept, hosts, resolve);
    AllResolved(kept, hosts, resolve);
    assert text[0..] == text;
  }

  // ---- Where the hook fails, told by the daemon's replies

  /** The hosts before the i-th are skipped: each answers that the placeholder is not bound to it, or nothing. */
  ghost predicate Skips(ph: Bytes, hosts: seq<Bytes>, i: nat, resolve: (Bytes, Bytes) -> Reply) {
    i < |hosts| && forall j :: 0 <= j < i ==> resolve(ph, hosts[j]) in {NotBound, Value([])}
  }

  /** The call for the i-th host fails, or answers an error of another kind. */
  ghost predicate AbortsAt(ph: Bytes, hosts: seq<Bytes>, i: nat, resolve: (Bytes, Bytes) -> Reply) {
    Skips(ph, hosts, i, resolve) && resolve(ph, hosts[i]) in {CallFailed, OtherError}
  }

  ghost predicate AnswersAt(ph: Bytes, hosts: seq<Bytes>, i: nat, v: Bytes, resolve: (Bytes, Bytes) -> Reply) {
    Skips(ph, hosts, i, resolve) && resolve(ph, hosts[i]) == Value(v) && v != []
  }

  lemma SkipsMore(ph: Bytes, hosts: seq<Bytes>, i: nat, resolve: (Bytes, Bytes) -> Reply)
    requires hosts != [] && resolve(ph, hosts[0]) in {NotBound, Value([])}
    ensures Skips(ph, hosts, i + 1, resolve) <==> Skips(ph, hosts[1..], i, resolve)
  {
    assert forall j :: 0 <= j < |hosts| - 1 ==> hosts[1..][j] == hosts[j + 1];
    if Skips(ph, hosts, i + 1, resolve) {
      forall j | 0 <= j < i ensures resolve(ph, hosts[1..][j]) in {NotBound, Value([])} {
        assert hosts[1..][j] == hosts[j + 1];
      }
    }
    if Skips(ph, hosts[1..], i, resolve) {
      forall j | 0 <= j < i + 1 ensures resolve(ph, hosts[j]) in {NotBound, Value([])} {
        assert 0 < j ==> hosts[1..][j - 1] == hosts[j];
      }
    }
  }

  /** The host loop, by the replies alone: which value it finds and when it aborts. */
  lemma {:induction false} LookupExactly(ph: Bytes, hosts: seq<Bytes>, resolve: (Bytes, Bytes) -> Reply, v: Bytes)
    ensures LookupOn(ph, hosts, resolve).Aborted? <==> exists i: nat :: AbortsAt(ph, hosts, i, resolve)
    ensures LookupOn(ph, hosts, resolve) == Found(v) <==> exists i: nat :: AnswersAt(ph, hosts, i, v, resolve)
  {
    if hosts != [] {
      if resolve(ph, hosts[0]) in {NotBound, Value([])} {
        LookupExactly(ph, hosts[1..], resolve, v);
        forall i: nat ensures AbortsAt(ph, hosts, i + 1, resolve) <==> AbortsAt(ph, hosts[1..], i, resolve)
          ensures AnswersAt(ph, hosts, i + 1, v, resolve) <==> AnswersAt(ph, hosts[1..], i, v, resolve)
        {
          SkipsMore(ph, hosts, i, resolve);
        }
        LookupLater(ph, hosts, resolve, v);
      } else {
        forall i: nat | 0 < i ensures !Skips(ph, hosts, i, resolve) {
          assert resolve(ph, hosts[0]) !in {NotBound, Value([])};
        }
        assert Skips(ph, hosts, 0, resolve);
        assert AbortsAt(ph, hosts, 0, resolve) <==> resolve(ph, hosts[0]) in {CallFailed, OtherError};
        assert AnswersAt(ph, hosts, 0, v, resolve) <==> resolve(ph, hosts[0]) == Value(v) && v != [];
      }
    }
  }

  lemma LookupLater(ph: Bytes, hosts: seq<Bytes>, resolve: (Bytes, Bytes) -> Reply, v: Bytes)
    requires hosts != [] && resolve(ph, hosts[0]) in {NotBound, Value([])}
    requires forall i: nat :: AbortsAt(ph, hosts, i + 1, resolve) <==> AbortsAt(ph, hosts[1..], i, resolve)
    requires forall i: nat :: AnswersAt(ph, hosts, i + 1, v, resolve) <==> AnswersAt(ph, hosts[1..], i, v, resolve)
    ensures (exists i: nat :: AbortsAt(ph, hosts, i, resolve)) <==> exists i: nat :: AbortsAt(ph, hosts[1..], i, resolve)
    ensures (exists i: nat :: AnswersAt(ph, hosts, i, v, resolve)) <==> exists i: nat :: AnswersAt(ph, hosts[1..], i, v, resolve)
  {
    if i: nat :| AbortsAt(ph, hosts, i, resolve) { assert AbortsAt(ph, hosts[1..], i - 1, resolve); }
    if i: nat :| AnswersAt(ph, hosts, i, v, resolve) { assert AnswersAt(ph, hosts[1..], i - 1, v, resolve); }
    if i: nat :| AbortsAt(ph, hosts[1..], i, resolve) { assert AbortsAt(ph, hosts, i + 1, resolve); }
    if i: nat :| AnswersAt(ph, hosts[1..], i, v, resolve) { assert AnswersAt(ph, hosts, i + 1, v, resolve); }
  }

  lemma {:induction false} EachFailsExactly(out: Bytes, phs: seq<Bytes>, hosts: seq<Bytes>, resolve: (Bytes, Bytes) -> Reply)
    requires forall i :: 0 <= i < |phs| ==> phs[i] != []
    ensures SubstituteEach(out, phs, hosts, resolve).Error? <==> exists ph :: ph in phs && LookupOn(ph, hosts, resolve).Aborted?
    ensures (forall ph :: ph in phs ==> LookupOn(ph, hosts, resolve).Missing?) ==> SubstituteEach(out, phs, hosts, resolve) == Ok(out)
    decreases |phs|
  {
    if phs != [] {
      assert forall ph :: ph in phs <==> ph == phs[0] || ph in phs[1..];
      match LookupOn(phs[0], hosts, resolve) {
        case Aborted => assert phs[0] in phs;
        case Missing => EachFailsExactly(out, phs[1..], hosts, resolve);
        case Found(v) => EachFailsExactly(ReplaceAll(out, phs[0], v), phs[1..], hosts, resolve);
      }
    }
  }

  lemma AllFound(cmd: Bytes, ph: Bytes)
    ensures ph in DistinctPlaceholders(cmd) <==> ph in FindAll(cmd)
  {
    DistinctElements(FindAll(cmd), {}, ph);
  }

  /**
   * Exactly when the hook gives up on a command: when for some placeholder in it a call fails, or is answered by another
   * error, at a host before which all are skipped.
   */
  lemma HookFailsExactly(cmd: Bytes, hosts: seq<Bytes>, resolve: (Bytes, Bytes) -> Reply)
    ensures Substituted(cmd, hosts, resolve) == Error <==>
      exists ph, i: nat :: ph in FindAll(cmd) && AbortsAt(ph, hosts, i, resolve)
  {
    var phs := DistinctPlaceholders(cmd);
    forall ph ensures ph in phs <==> ph in FindAll(cmd) { AllFound(cmd, ph); }
    forall ph ensures LookupOn(ph, hosts, resolve).Aborted? <==> exists i: nat :: AbortsAt(ph, hosts, i, resolve) {
      LookupExactly(ph, hosts, resolve, []);
    }
    EachFailsExactly(cmd, phs, hosts, resolve);
  }

  /** Nothing can be substituted for the placeholder: no call fails and none answers a value. */
  ghost predicate Unanswered(ph: Bytes, hosts: seq<Bytes>, resolve: (Bytes, Bytes) -> Reply) {
    (forall i: nat :: !AbortsAt(ph, hosts, i, resolve)) && forall i: nat, v :: !AnswersAt(ph, hosts, i, v, resolve)
  }

  /** Then the command stays as it is. */
  lemma UnansweredStays(cmd: Bytes, hosts: seq<Bytes>, resolve: (Bytes, Bytes) -> Reply)
    requires forall ph :: ph in FindAll(cmd) ==> Unanswered(ph, hosts, resolve)
    ensures Substituted(cmd, hosts, resolve) == Ok(cmd)
  {
    var phs := DistinctPlaceholders(cmd);
    forall ph | ph in phs ensures LookupOn(ph, hosts, resolve).Missing? {
      AllFound(cmd, ph);
      UnansweredMissing(ph, hosts, resolve);
    }
    EachFailsExactly(cmd, phs, hosts, resolve);
  }

  lemma UnansweredMissing(ph: Bytes, hosts: seq<Bytes>, resolve: (Bytes, Bytes) -> Reply)
    requires Unanswered(ph, hosts, resolve)
    ensures LookupOn(ph, hosts, resolve).Missing?
  {
    LookupExactly(ph, hosts, resolve, if LookupOn(ph, hosts, resolve).Found? then LookupOn(ph, hosts, resolve).v else []);
  }

  lemma OneSubstitution(cmd: Bytes, p: Bytes, hosts: seq<Bytes>, resolve: (Bytes, Bytes) -> Reply)
    requires FindAll(cmd) == [p] && IsPlaceholder(p) && !LookupOn(p, hosts, resolve).Aborted?
    ensures Substituted(cmd, hosts, resolve) ==
      Ok(if LookupOn(p, hosts, resolve).Missing? then cmd else ReplaceAll(cmd, p, LookupOn(p, hosts, resolve).v))
  {
    DistinctOne(p);
    var phs := DistinctPlaceholders(cmd);
    assert phs == [p] && phs[1..] == [];
    match LookupOn(p, hosts, resolve) {
      case Missing => assert SubstituteEach(cmd, phs, hosts, resolve) == SubstituteEach(cmd, phs[1..], hosts, resolve);
      case Found(v) =>
        assert SubstituteEach(cmd, phs, hosts, resolve) == SubstituteEach(ReplaceAll(cmd, p, v), phs[1..], hosts, resolve);
    }
  }

  /** Why the original must be free of placeholders: one that the daemon knows is rewritten too. */
  lemma LiteralPlaceholderRewritten(p: Bytes, hosts: seq<Bytes>, resolve: (Bytes, Bytes) -> Reply)
    requires IsPlaceholder(p) && LookupOn(p, hosts, resolve).Found?
    ensures Substituted(Splice(p, [], 0), hosts, resolve) == Ok(LookupOn(p, hosts, resolve).v)
  {
    assert p[0..] == p && p + [] == p && p[PLACEHOLDER_LEN..] == [];
    FindAllHead(p, []);
    assert FindAll([]) == [] && FindAll(p) == [p];
    OneSubstitution(p, p, hosts, resolve);
    var v := LookupOn(p, hosts, resolve).v;
    assert p[..PLACEHOLDER_LEN] == p && v + [] == v && ReplaceAll([], p, v) == [];
  }

  /**
   * Why half a placeholder is enough to break the round trip: the opening delimiter of an inserted
   * placeholder closes it, the hook reads the wrong token and never finds the inserted one.
   */
  lemma StraddledPlaceholderLost(p: Bytes, q: Bytes, c: byte, hosts: seq<Bytes>, resolve: (Bytes, Bytes) -> Reply)
    requires IsPlaceholder(p) && IsPlaceholder(q) && LookupOn(p, hosts, resolve).Missing?
    ensures var text, kept := p[..13] + [c], [Span(13, 14, q)];
      Fits(kept, 0, |text|) && Substituted(Splice(text, kept, 0), hosts, resolve) != Ok(text)
  {
    var text, kept := p[..13] + [c], [Span(13, 14, q)];
    SpliceOne(text, kept[0]);
    var out := Splice(text, kept, 0);
    assert out == p + q[1..];
    FindAllHead(p, q[1..]);
    assert FindAll(q[1..]) == [];
    OneSubstitution(out, p, hosts, resolve);
    assert |out| == 27;
  }
}
