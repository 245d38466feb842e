/** Exactly which texts the hook restores, whatever was redacted in them: those with no stray half of a placeholder. */
module RestoreExactly {
  import opened ByteText
  import opened Sequences
  import opened Redaction
  import opened Restore

  ghost predicate RestoresAlways(text: Bytes) {
    forall kept, hosts, resolve :: Fits(kept, 0, |text|) && Labelled(kept) && Resolvable(text, kept, hosts, resolve) ==>
      Substituted(Splice(text, kept, 0), hosts, resolve) == Ok(text)
  }

  type Resolver = (Bytes, Bytes) -> Reply

  /** One host, so that an answer decides. */
  const HOSTS: seq<Bytes> := [[]]

  lemma OneHost(ph: Bytes, resolve: Resolver)
    ensures LookupOn(ph, HOSTS, resolve) == match resolve(ph, [])
      case CallFailed => Aborted
      case OtherError => Aborted
      case NotFound => Missing
      case NotBound => Missing
      case Value(v) => if v != [] then Found(v) else Missing
  {
    assert HOSTS[1..] == [];
  }

  // ---- Placeholders and where they stand

  function Digits(d: byte): Bytes {
    [AT] + TOKEN + [d, d, d, d, d, d] + [AT]
  }

  /** A placeholder that is neither p nor q. */
  function Third(p: Bytes, q: Bytes): Bytes {
    if Digits(48) != p && Digits(48) != q then Digits(48)
    else if Digits(49) != p && Digits(49) != q then Digits(49)
    else Digits(50)
  }

  lemma ThirdDiffers(p: Bytes, q: Bytes)
    ensures IsPlaceholder(Third(p, q)) && Third(p, q) != p && Third(p, q) != q
  {
    assert Digits(48)[7] == 48 && Digits(49)[7] == 49 && Digits(50)[7] == 50;
  }

  lemma SamePlaceholder(s: Bytes, a: nat, t: Bytes, b: nat)
    requires a + 14 <= |s| && b + 14 <= |t| && s[a..a + 14] == t[b..b + 14]
    ensures PlaceholderAt(s, a) <==> PlaceholderAt(t, b)
  {
    var x := s[a..a + 14];
    assert s[a] == x[0] == t[b] && s[a + 13] == x[13] == t[b + 13];
    if InteriorAt(s, a + 1) {
      forall j | b + 1 <= j < b + 13 ensures InteriorByte(j - b - 1, t[j]) { assert t[j] == x[j - b] == s[a + (j - b)]; }
    }
    if InteriorAt(t, b + 1) {
      forall j | a + 1 <= j < a + 13 ensures InteriorByte(j - a - 1, s[j]) { assert s[j] == x[j - a] == t[b + (j - a)]; }
    }
  }

  lemma {:induction false} FoundAt(s: Bytes, e: Bytes) returns (k: nat)
    requires e in FindAll(s)
    ensures k + 14 <= |s| && PlaceholderAt(s, k) && s[k..k + 14] == e
  {
    if PlaceholderAt(s, 0) {
      if e == s[..14] {
        k := 0;
      } else {
        k := FoundAt(s[14..], e);
        SamePlaceholder(s[14..], k, s, k + 14);
        k := k + 14;
      }
    } else {
      k := FoundAt(s[1..], e);
      SamePlaceholder(s[1..], k, s, k + 1);
      k := k + 1;
    }
  }

  lemma {:induction false} FindAllFinds(s: Bytes, i: nat)
    requires PlaceholderAt(s, i)
    ensures FindAll(s) != []
  {
    if !PlaceholderAt(s, 0) {
      SuffixPlaceholder(s, i - 1);
      FindAllFinds(s[1..], i - 1);
    }
  }

  lemma PlaceholdersAre(cmd: Bytes)
    ensures forall i :: 0 <= i < |DistinctPlaceholders(cmd)| ==> IsPlaceholder(DistinctPlaceholders(cmd)[i])
  {
    var phs := DistinctPlaceholders(cmd);
    forall i | 0 <= i < |phs| ensures IsPlaceholder(phs[i]) {
      DistinctElements(FindAll(cmd), {}, phs[i]);
      FoundArePlaceholders(cmd, phs[i]);
    }
  }

  // ---- A literal placeholder

  lemma {:induction false} ReplaceShrinks(s: Bytes, p: Bytes, x: Bytes)
    requires |x| == 1 && |p| == 14
    ensures |ReplaceAll(s, p, x)| <= |s|
  {
    if |p| <= |s| {
      ReplaceShrinks(if s[..|p|] == p then s[|p|..] else s[1..], p, x);
    }
  }

  lemma {:induction false} ReplaceShrinksAt(s: Bytes, p: Bytes, x: Bytes, k: nat)
    requires |x| == 1 && |p| == 14 && k + 14 <= |s| && s[k..k + 14] == p
    ensures |ReplaceAll(s, p, x)| < |s|
  {
    if s[..14] == p {
      ReplaceShrinks(s[14..], p, x);
    } else {
      assert s[1..][k - 1..k - 1 + 14] == p;
      ReplaceShrinksAt(s[1..], p, x, k - 1);
    }
  }

  lemma {:induction false} SubstituteShrinks(out: Bytes, phs: seq<Bytes>, resolve: Resolver)
    requires forall i :: 0 <= i < |phs| ==> phs[i] != [] && IsPlaceholder(phs[i])
    requires forall ph :: resolve(ph, []) == Value([AT])
    ensures var r := SubstituteEach(out, phs, HOSTS, resolve); r.Ok? && |r.out| <= |out|
    decreases |phs|
  {
    if phs != [] {
      OneHost(phs[0], resolve);
      ReplaceShrinks(out, phs[0], [AT]);
      SubstituteShrinks(ReplaceAll(out, phs[0], [AT]), phs[1..], resolve);
    }
  }

  lemma LiteralLost(text: Bytes, i: nat)
    requires PlaceholderAt(text, i)
    ensures !RestoresAlways(text)
  {
    var resolve: Resolver := (ph, host) => Value([AT]);
    var phs := DistinctPlaceholders(text);
    FindAllFinds(text, i);
    PlaceholdersAre(text);
    assert phs[0] == FindAll(text)[0];
    var k := FoundAt(text, phs[0]);
    OneHost(phs[0], resolve);
    ReplaceShrinksAt(text, phs[0], [AT], k);
    SubstituteShrinks(ReplaceAll(text, phs[0], [AT]), phs[1..], resolve);
    assert Splice(text, [], 0) == text;
    assert Fits([], 0, |text|) && Labelled([]) && Resolvable(text, [], HOSTS, resolve);
  }

  // ---- Half a placeholder before a redacted byte

  lemma {:induction false} NoneReplaced(out: Bytes, phs: seq<Bytes>, resolve: Resolver)
    requires forall i :: 0 <= i < |phs| ==> phs[i] != [] && IsPlaceholder(phs[i]) && resolve(phs[i], []) == NotBound
    ensures SubstituteEach(out, phs, HOSTS, resolve) == Ok(out)
    decreases |phs|
  {
    if phs != [] {
      OneHost(phs[0], resolve);
      NoneReplaced(out, phs[1..], resolve);
    }
  }

  /** Of the redacted text q[1..] + rest no placeholder is q. */
  lemma NotFoundAgain(q: Bytes, rest: Bytes)
    requires IsPlaceholder(q) && (forall k: nat :: !PlaceholderAt(rest, k)) && (|rest| >= 13 ==> [AT] + rest[..13] != q)
    ensures q !in FindAll(q[1..] + rest)
  {
    var s := q[1..] + rest;
    if q in FindAll(s) {
      var k := FoundAt(s, q);
      OnlyAtJoint(q, rest, k);
      JointText(q, rest);
    }
  }

  lemma OnlyAtJoint(q: Bytes, rest: Bytes, k: nat)
    requires IsPlaceholder(q) && (forall k: nat :: !PlaceholderAt(rest, k)) && PlaceholderAt(q[1..] + rest, k)
    ensures k == 12
  {
    var s := q[1..] + rest;
    InteriorHasNoAt(q, 1);
    if k >= 13 {
      assert s[k..k + 14] == rest[k - 13..k - 13 + 14];
      SamePlaceholder(s, k, rest, k - 13);
    } else {
      assert s[k] == q[k + 1];
    }
  }

  lemma JointText(q: Bytes, rest: Bytes)
    requires |q| == 14 && q[13] == AT && |rest| >= 13
    ensures (q[1..] + rest)[12..26] == [AT] + rest[..13]
  {
  }

  lemma NothingBefore(text: Bytes, s: Bytes, m: nat, k: nat)
    requires m <= |text| && m <= |s| && s[..m] == text[..m] && k + 14 <= m && !PlaceholderAt(text, k)
    ensures !PlaceholderAt(s, k)
  {
    assert s[k..k + 14] == s[..m][k..k + 14] == text[k..k + 14];
    SamePlaceholder(s, k, text, k);
  }

  lemma StraddledParts(text: Bytes, i: nat, q: Bytes) returns (p: Bytes)
    requires 1 <= i && InteriorAt(text, i) && text[i - 1] == AT && i + 12 < |text| && |q| == 14 && q[0] == AT
    ensures IsPlaceholder(p) && p == text[i - 1..i + 12] + [AT]
    ensures text[..i + 12] + q + text[i + 13..] == text[..i - 1] + (p + (q[1..] + text[i + 13..]))
  {
    p := text[i - 1..i + 12] + [AT];
    forall j | 1 <= j < 13 ensures InteriorByte(j - 1, p[j]) { assert p[j] == text[i - 1 + j]; }
    assert q == [AT] + q[1..];
    assert text[..i + 12] == text[..i - 1] + text[i - 1..i + 12];
  }

  lemma StraddleNotFound(text: Bytes, i: nat, q: Bytes)
    requires 1 <= i && InteriorAt(text, i) && text[i - 1] == AT && i + 12 < |text| && IsPlaceholder(q)
    requires forall k: nat :: !PlaceholderAt(text, k)
    requires q != text[i - 1..i + 12] + [AT] && (|text| >= i + 26 ==> q != [AT] + text[i + 13..i + 26])
    ensures q !in FindAll(text[..i + 12] + q + text[i + 13..])
  {
    var out, rest := text[..i + 12] + q + text[i + 13..], text[i + 13..];
    var p := StraddledParts(text, i, q);
    forall k: nat | k < i - 1 ensures !PlaceholderAt(out, k) {
      NothingBefore(text, out, i + 12, k);
    }
    FindAllSkips(text[..i - 1], p + (q[1..] + rest));
    FindAllHead(p, q[1..] + rest);
    forall k: nat ensures !PlaceholderAt(rest, k) {
      if k + 14 <= |rest| {
        assert rest[k..k + 14] == text[i + 13 + k..i + 13 + k + 14];
        SamePlaceholder(rest, k, text, i + 13 + k);
      }
    }
    assert |rest| >= 13 ==> rest[..13] == text[i + 13..i + 26];
    NotFoundAgain(q, rest);
  }

  lemma StraddleLost(text: Bytes, i: nat)
    requires 1 <= i && InteriorAt(text, i) && text[i - 1] == AT && i + 12 < |text|
    requires forall k: nat :: !PlaceholderAt(text, k)
    ensures !RestoresAlways(text)
  {
    var p, z := text[i - 1..i + 12] + [AT], if |text| >= i + 26 then [AT] + text[i + 13..i + 26] else [];
    var q := Third(p, z);
    ThirdDiffers(p, z);
    StraddleNotFound(text, i, q);
    OneSpanLost(text, Span(i + 12, i + 13, q));
  }

  /** A placeholder that is not found again stays in the text. */
  lemma OneSpanLost(text: Bytes, s: Span)
    requires s.start < s.end <= |text| && s.end == s.start + 1 && IsPlaceholder(s.ph)
    requires s.ph !in FindAll(text[..s.start] + s.ph + text[s.end..])
    ensures !RestoresAlways(text)
  {
    var resolve: Resolver := (ph, host) => if ph == s.ph then Value(text[s.start..s.end]) else NotBound;
    SpliceOne(text, s);
    var out := Splice(text, [s], 0);
    OnlyOther(out, s.ph, resolve);
    OneHost(s.ph, resolve);
    assert Labelled([s]) && Resolvable(text, [s], HOSTS, resolve);
    assert |out| == |text| + 13;
  }

  lemma OnlyOther(out: Bytes, q: Bytes, resolve: Resolver)
    requires q !in FindAll(out) && forall ph :: ph != q ==> resolve(ph, []) == NotBound
    ensures Substituted(out, HOSTS, resolve) == Ok(out)
  {
    var phs := DistinctPlaceholders(out);
    PlaceholdersAre(out);
    forall n | 0 <= n < |phs| ensures phs[n] != q {
      DistinctElements(FindAll(out), {}, phs[n]);
    }
    NoneReplaced(out, phs, resolve);
  }

  // ---- A placeholder completed by the placeholders on both sides

  /** Whatever follows, no placeholder starts in g. */
  ghost predicate Inert(g: Bytes) {
    forall rest: Bytes, k: nat :: k < |g| ==> !PlaceholderAt(g + rest, k)
  }

  lemma {:induction false} InertStays(g: Bytes, rest: Bytes, phs: seq<Bytes>, resolve: Resolver)
    requires Inert(g) && forall i :: 0 <= i < |phs| ==> phs[i] != [] && IsPlaceholder(phs[i])
    ensures var r := SubstituteEach(g + rest, phs, HOSTS, resolve); r.Ok? ==> g <= r.out
    decreases |phs|
  {
    if phs != [] {
      match LookupOn(phs[0], HOSTS, resolve) {
        case Aborted =>
        case Missing => InertStays(g, rest, phs[1..], resolve);
        case Found(v) =>
          ReplaceAllSkips(g, rest, phs[0], v);
          InertStays(g, ReplaceAll(rest, phs[0], v), phs[1..], resolve);
      }
    }
  }

  /** No half placeholder with a byte after it stands in the text behind a `@`. */
  ghost predicate NoLead(text: Bytes) {
    forall k: nat :: 1 <= k && InteriorAt(text, k) && k + 12 < |text| ==> text[k - 1] != AT
  }

  /** In front of an `@` that follows the first m bytes of text nothing starts. */
  lemma LeadFree(text: Bytes, s: Bytes, m: nat, k: nat)
    requires NoLead(text) && m < |text| && m < |s| && s[..m] == text[..m] && s[m] == AT && k < m
    ensures !PlaceholderAt(s, k)
  {
    if PlaceholderAt(s, k) {
      InteriorHasNoAt(s, k + 1);
      assert k + 13 <= m;
      forall j | k + 1 <= j < k + 13 ensures text[j] == s[j] { assert text[..m][j] == s[..m][j]; }
      assert text[..m][k] == s[..m][k];
      assert InteriorAt(text, k + 1);
      assert false;
    }
  }

  /** x, T and the `@` of y, where p is `@T@`: p stands between them, over the last byte of x. */
  lemma Recompleted(x: Bytes, p: Bytes, y: Bytes, r: Bytes, a: Bytes)
    requires IsPlaceholder(x) && IsPlaceholder(p) && IsPlaceholder(y) && x != p
    ensures ReplaceAll(x + (p[1..13] + (y + r)), p, a) == x[..13] + (a + ReplaceAll(y[1..] + r, p, a))
  {
    var s, u := x + (p[1..13] + (y + r)), y[1..] + r;
    assert p == [AT] + p[1..13] + [AT] && y == [AT] + y[1..] && x == x[..13] + [AT];
    assert s == x[..13] + (p + u);
    assert s[..14] == x && s[1..] == x[1..13] + (p + u) && s[0] == x[0];
    forall k | 0 <= k < 12 ensures !PlaceholderAt(x[1..13] + (p + u), k) {
      InteriorHasNoAt(x, 1);
      assert (x[1..13] + (p + u))[k] == x[k + 1];
    }
    ReplaceAllSkips(x[1..13], p + u, p, a);
    assert (p + u)[..14] == p && (p + u)[14..] == u;
    assert x[..13] == [x[0]] + x[1..13];
  }

  /** The spans: the bytes from j on stand for p, the byte before T for x, the byte after T for y. */
  function Around(i: nat, j: nat, p: Bytes, x: Bytes, y: Bytes): seq<Span>
    requires j + 1 < i
  {
    [Span(j, i - 1, p)] + [Span(i - 1, i, x), Span(i + 12, i + 13, y)]
  }

  lemma OneMoreSpan(text: Bytes, k: Span, rest: seq<Span>, pos: nat)
    requires pos <= k.start < k.end <= |text| && Fits(rest, k.end, |text|)
    ensures Fits([k] + rest, pos, |text|)
    ensures Splice(text, [k] + rest, pos) == text[pos..k.start] + (k.ph + Splice(text, rest, k.end))
  {
    assert ([k] + rest)[1..] == rest;
    Assoc(text[pos..k.start], k.ph, Splice(text, rest, k.end));
  }

  /** The text with the three placeholders in place. */
  function Marked(text: Bytes, i: nat, j: nat, p: Bytes, x: Bytes, y: Bytes): Bytes
    requires j + 1 < i && i + 12 < |text|
  {
    text[..j] + (p + (x + (text[i..i + 12] + (y + text[i + 13..]))))
  }

  lemma AroundSplice(text: Bytes, i: nat, j: nat, p: Bytes, x: Bytes, y: Bytes)
    requires j + 1 < i && i + 12 < |text|
    ensures Fits(Around(i, j, p, x, y), 0, |text|) && Splice(text, Around(i, j, p, x, y), 0) == Marked(text, i, j, p, x, y)
  {
    MiddleSplice(text, i, x, y);
    OneMoreSpan(text, Span(j, i - 1, p), [Span(i - 1, i, x), Span(i + 12, i + 13, y)], 0);
  }

  lemma LastSplice(text: Bytes, i: nat, y: Bytes)
    requires i + 12 < |text|
    ensures Fits([Span(i + 12, i + 13, y)], i, |text|)
    ensures Splice(text, [Span(i + 12, i + 13, y)], i) == text[i..i + 12] + (y + text[i + 13..])
  {
    OneMoreSpan(text, Span(i + 12, i + 13, y), [], i);
    assert [Span(i + 12, i + 13, y)] + [] == [Span(i + 12, i + 13, y)];
  }

  lemma MiddleSplice(text: Bytes, i: nat, x: Bytes, y: Bytes)
    requires 1 <= i && i + 12 < |text|
    ensures Fits([Span(i - 1, i, x), Span(i + 12, i + 13, y)], i - 1, |text|)
    ensures Splice(text, [Span(i - 1, i, x), Span(i + 12, i + 13, y)], i - 1) == x + (text[i..i + 12] + (y + text[i + 13..]))
  {
    var last := [Span(i + 12, i + 13, y)];
    LastSplice(text, i, y);
    OneMoreSpan(text, Span(i - 1, i, x), last, i - 1);
    assert [Span(i - 1, i, x)] + last == [Span(i - 1, i, x), Span(i + 12, i + 13, y)];
    assert text[i - 1..i - 1] == [] && [] + (x + Splice(text, last, i)) == x + Splice(text, last, i);
  }

  function Answers(text: Bytes, i: nat, j: nat, p: Bytes, x: Bytes, y: Bytes): Resolver
    requires j + 1 < i && i + 12 < |text|
  {
    (ph, host) =>
      if ph == p then Value(text[j..i - 1]) else if ph == x then Value(text[i - 1..i])
      else if ph == y then Value(text[i + 12..i + 13]) else NotBound
  }

  lemma AroundResolvable(text: Bytes, i: nat, j: nat, p: Bytes, x: Bytes, y: Bytes)
    requires j + 1 < i && i + 12 < |text| && p != x && p != y && x != y
    requires IsPlaceholder(p) && IsPlaceholder(x) && IsPlaceholder(y)
    ensures Labelled(Around(i, j, p, x, y)) && Resolvable(text, Around(i, j, p, x, y), HOSTS, Answers(text, i, j, p, x, y))
  {
    OneHost(p, Answers(text, i, j, p, x, y));
    OneHost(x, Answers(text, i, j, p, x, y));
    OneHost(y, Answers(text, i, j, p, x, y));
  }

  /** p is the first placeholder found, and replacing it leaves this. */
  lemma FirstStep(text: Bytes, i: nat, j: nat, p: Bytes, x: Bytes, y: Bytes)
    requires j + 1 < i && i + 12 < |text| && InteriorAt(text, i) && NoLead(text)
    requires IsPlaceholder(p) && IsPlaceholder(x) && IsPlaceholder(y) && p[1..13] == text[i..i + 12] && x != p
    ensures var out, a, u := Marked(text, i, j, p, x, y), text[j..i - 1], x + (p[1..13] + (y + text[i + 13..]));
      && FindAll(out) == [p] + FindAll(u)
      && ReplaceAll(out, p, a) == text[..j] + (a + (x[..13] + (a + ReplaceAll(y[1..] + text[i + 13..], p, a))))
  {
    var u := x + (p[1..13] + (y + text[i + 13..]));
    var out, a := text[..j] + (p + u), text[j..i - 1];
    forall k: nat | k < j ensures !PlaceholderAt(out, k) {
      assert out[..j] == text[..j] && out[j] == p[0];
      LeadFree(text, out, j, k);
    }
    FindAllSkips(text[..j], p + u);
    FindAllHead(p, u);
    ReplaceAllSkips(text[..j], p + u, p, a);
    assert (p + u)[..14] == p && (p + u)[14..] == u;
    Recompleted(x, p, y, text[i + 13..], a);
  }

  /** Behind its placeholders the text would have to go on as it began. */
  lemma FrontInert(text: Bytes, i: nat, j: nat, x: Bytes)
    requires j + 1 < i && i + 12 < |text| && NoLead(text) && text[j] != AT && IsPlaceholder(x)
    ensures Inert(text[..i - 1] + x[..13] + [text[j]])
  {
    var g := text[..i - 1] + x[..13] + [text[j]];
    InteriorHasNoAt(x, 1);
    forall rest: Bytes, k: nat | k < |g| ensures !PlaceholderAt(g + rest, k) {
      var s := g + rest;
      assert s[..i - 1] == text[..i - 1] && s[i - 1] == x[0] == AT;
      if k < i - 1 {
        LeadFree(text, s, i - 1, k);
      } else if k == i - 1 {
        assert s[k + 13] == text[j];
      } else if k < i + 12 {
        assert s[k] == x[k - (i - 1)];
      } else {
        assert s[k] == text[j];
      }
    }
  }

  lemma FirstOfDistinct(p: Bytes, more: seq<Bytes>)
    ensures Distinct([p] + more, {}) != [] && Distinct([p] + more, {})[0] == p
  {
  }

  lemma CompletedLost(text: Bytes, i: nat, j: nat)
    requires j + 1 < i && InteriorAt(text, i) && i + 12 < |text| && NoLead(text) && text[j] != AT && text[i - 1] != AT
    ensures !RestoresAlways(text)
  {
    var p, x, y := Tokens(text, i);
    var resolve := Answers(text, i, j, p, x, y);
    var out, a := Marked(text, i, j, p, x, y), text[j..i - 1];
    AroundSplice(text, i, j, p, x, y);
    AroundResolvable(text, i, j, p, x, y);
    FirstStep(text, i, j, p, x, y);
    var phs := DistinctPlaceholders(out);
    FirstOfDistinct(p, FindAll(x + (p[1..13] + (y + text[i + 13..]))));
    PlaceholdersAre(out);
    OneHost(p, resolve);
    var more := ReplaceAll(y[1..] + text[i + 13..], p, a);
    var g := text[..i - 1] + x[..13] + [text[j]];
    FrontInert(text, i, j, x);
    FrontText(text, i, j, x, more);
    InertStays(g, a[1..] + more, phs[1..], resolve);
    assert g[i - 1] == AT;
  }

  lemma FrontText(text: Bytes, i: nat, j: nat, x: Bytes, more: Bytes)
    requires j + 1 < i <= |text| && |x| == 14
    ensures var a := text[j..i - 1];
      text[..j] + (a + (x[..13] + (a + more))) == (text[..i - 1] + x[..13] + [text[j]]) + (a[1..] + more)
  {
    var a := text[j..i - 1];
    assert text[..i - 1] == text[..j] + a && a == [text[j]] + a[1..];
  }

  // ---- ... when all bytes before it but the last are `@`

  ghost predicate AllAt(s: Bytes) {
    forall k :: 0 <= k < |s| ==> s[k] == AT
  }

  /** Replacing p leaves x whole again; replacing x then leaves the interior of y where T was. */
  lemma SecondStep(l: Bytes, x: Bytes, y: Bytes, w: Bytes, b: Bytes)
    requires AllAt(l) && l != [] && IsPlaceholder(x) && IsPlaceholder(y)
    ensures ReplaceAll(l + (x + (y[1..13] + w)), x, b) == l + (b + (y[1..13] + ReplaceAll(w, x, b)))
  {
    var tail := y[1..13] + w;
    InteriorHasNoAt(y, 1);
    forall k: nat | k < |l| ensures !PlaceholderAt(l + (x + tail), k) {
      NoStartInAts(l, x + tail, k);
    }
    ReplaceAllSkips(l, x + tail, x, b);
    assert (x + tail)[..14] == x && (x + tail)[14..] == tail;
    forall k | 0 <= k < 12 ensures !PlaceholderAt(tail, k) {
      assert tail[k] == y[k + 1];
    }
    ReplaceAllSkips(y[1..13], w, x, b);
  }

  /** Between an `@` and another `@` nothing starts. */
  lemma NoStartInAts(l: Bytes, rest: Bytes, k: nat)
    requires AllAt(l) && k < |l| && rest != [] && rest[0] == AT
    ensures !PlaceholderAt(l + rest, k)
  {
    assert (l + rest)[k + 1] == AT;
  }

  lemma AtsInert(l: Bytes, b: byte, y: Bytes)
    requires AllAt(l) && IsPlaceholder(y) && b != AT
    ensures Inert(l + ([b] + y[1..13]))
  {
    var g := l + ([b] + y[1..13]);
    InteriorHasNoAt(y, 1);
    forall rest: Bytes, k: nat | k < |g| ensures !PlaceholderAt(g + rest, k) {
      var s := g + rest;
      if k + 1 < |l| {
        assert s[k + 1] == AT;
      } else if k + 1 == |l| {
        assert s[k + 2] == y[1] == TOKEN[0];
        assert InteriorAt(s, k + 1) ==> InteriorByte(k + 2 - (k + 1), s[k + 2]);
      } else if k == |l| {
        assert s[k] == b;
      } else {
        assert s[k] == y[k - |l|];
      }
    }
  }

  lemma FirstTwoOfDistinct(p: Bytes, x: Bytes, more: seq<Bytes>)
    requires p != x
    ensures var d := Distinct([p] + ([x] + more), {}); |d| >= 2 && d[0] == p && d[1] == x
  {
    var s := [p] + ([x] + more);
    assert s[1..] == [x] + more;
  }

  lemma KeptInterior(y: Bytes, r: Bytes, p: Bytes, a: Bytes)
    requires IsPlaceholder(y) && IsPlaceholder(p)
    ensures ReplaceAll(y[1..] + r, p, a) == y[1..13] + ReplaceAll([AT] + r, p, a)
  {
    InteriorHasNoAt(y, 1);
    assert y[1..] + r == y[1..13] + ([AT] + r);
    forall k | 0 <= k < 12 ensures !PlaceholderAt(y[1..13] + ([AT] + r), k) {
      assert (y[1..13] + ([AT] + r))[k] == y[k + 1];
    }
    ReplaceAllSkips(y[1..13], [AT] + r, p, a);
  }

  /** What the first replacement leaves, told again. */
  lemma XWhole(l: Bytes, x: Bytes, u: Bytes)
    requires |x| == 14 && x[13] == AT
    ensures l + ([AT] + (x[..13] + ([AT] + u))) == (l + [AT]) + (x + u)
  {
    assert x == x[..13] + [AT];
  }

  lemma SecondText(l: Bytes, b: byte, yi: Bytes, w: Bytes)
    ensures l + ([b] + (yi + w)) == (l + ([b] + yi)) + w
  {
  }

  /** Before T: only @, the last of them redacted, and then the byte before T. */
  ghost predicate OnlyAts(text: Bytes, i: nat) {
    2 <= i && InteriorAt(text, i) && i + 12 < |text| && NoLead(text) && AllAt(text[..i - 1]) && text[i - 1] != AT
  }

  lemma BeforeInterior(text: Bytes, i: nat)
    requires OnlyAts(text, i)
    ensures text[..i - 2] + [AT] == text[..i - 1] && text[i - 2..i - 1] == [AT] && text[i - 1..i] == [text[i - 1]]
    ensures AllAt(text[..i - 2] + [AT])
  {
    assert text[..i - 1][i - 2] == AT;
  }

  /** What the first two replacements leave: T has become the inside of y. */
  lemma FirstTwoLeave(text: Bytes, i: nat, p: Bytes, x: Bytes, y: Bytes)
    requires OnlyAts(text, i) && IsPlaceholder(p) && IsPlaceholder(x) && IsPlaceholder(y) && x != p
    requires p[1..13] == text[i..i + 12]
    ensures var w := ReplaceAll([AT] + text[i + 13..], p, [AT]);
      ReplaceAll(ReplaceAll(Marked(text, i, i - 2, p, x, y), p, [AT]), x, [text[i - 1]])
        == text[..i - 1] + ([text[i - 1]] + y[1..13]) + ReplaceAll(w, x, [text[i - 1]])
  {
    var l, r := text[..i - 2] + [AT], text[i + 13..];
    var w := ReplaceAll([AT] + r, p, [AT]);
    BeforeInterior(text, i);
    FirstStep(text, i, i - 2, p, x, y);
    KeptInterior(y, r, p, [AT]);
    XWhole(text[..i - 2], x, y[1..13] + w);
    SecondStep(l, x, y, w, [text[i - 1]]);
    SecondText(l, text[i - 1], y[1..13], ReplaceAll(w, x, [text[i - 1]]));
  }

  /** And they are the first two of the hook. */
  lemma FirstTwoDone(text: Bytes, i: nat, p: Bytes, x: Bytes, y: Bytes)
    requires OnlyAts(text, i) && IsPlaceholder(p) && IsPlaceholder(x) && IsPlaceholder(y) && x != p
    requires p[1..13] == text[i..i + 12]
    ensures var out, resolve := Marked(text, i, i - 2, p, x, y), Answers(text, i, i - 2, p, x, y);
      && |DistinctPlaceholders(out)| >= 2
      && Substituted(out, HOSTS, resolve) == SubstituteEach(
           ReplaceAll(ReplaceAll(out, p, [AT]), x, [text[i - 1]]), DistinctPlaceholders(out)[2..], HOSTS, resolve)
  {
    var out, resolve, u := Marked(text, i, i - 2, p, x, y), Answers(text, i, i - 2, p, x, y), p[1..13] + (y + text[i + 13..]);
    BeforeInterior(text, i);
    FirstStep(text, i, i - 2, p, x, y);
    FindAllHead(x, u);
    FirstTwoOfDistinct(p, x, FindAll(u));
    PlaceholdersAre(out);
    OneHost(p, resolve);
    OneHost(x, resolve);
    TwoSteps(out, DistinctPlaceholders(out), p, x, [AT], [text[i - 1]], resolve);
  }

  lemma AtsLost(text: Bytes, i: nat)
    requires OnlyAts(text, i)
    ensures !RestoresAlways(text)
  {
    var p, x, y := Tokens(text, i);
    var out, resolve := Marked(text, i, i - 2, p, x, y), Answers(text, i, i - 2, p, x, y);
    AroundSplice(text, i, i - 2, p, x, y);
    AroundResolvable(text, i, i - 2, p, x, y);
    FirstTwoDone(text, i, p, x, y);
    FirstTwoLeave(text, i, p, x, y);
    var g := text[..i - 1] + ([text[i - 1]] + y[1..13]);
    AtsInert(text[..i - 1], text[i - 1], y);
    PlaceholdersAre(out);
    InertStays(g, ReplaceAll(ReplaceAll([AT] + text[i + 13..], p, [AT]), x, [text[i - 1]]),
               DistinctPlaceholders(out)[2..], resolve);
    OtherInterior(text, i, p, y);
  }

  /** The hook's first two replacements. */
  lemma TwoSteps(out: Bytes, phs: seq<Bytes>, p: Bytes, x: Bytes, a: Bytes, b: Bytes, resolve: Resolver)
    requires |phs| >= 2 && phs[0] == p && phs[1] == x && forall i :: 0 <= i < |phs| ==> phs[i] != [] && IsPlaceholder(phs[i])
    requires LookupOn(p, HOSTS, resolve) == Found(a) && LookupOn(x, HOSTS, resolve) == Found(b)
    ensures SubstituteEach(out, phs, HOSTS, resolve) ==
      SubstituteEach(ReplaceAll(ReplaceAll(out, p, a), x, b), phs[2..], HOSTS, resolve)
  {
    assert phs[1..][0] == x && phs[1..][1..] == phs[2..];
  }

  lemma OtherInterior(text: Bytes, i: nat, p: Bytes, y: Bytes)
    requires 1 <= i && i + 12 <= |text| && IsPlaceholder(p) && IsPlaceholder(y) && p != y && p[1..13] == text[i..i + 12]
    ensures !(text[..i - 1] + ([text[i - 1]] + y[1..13]) <= text)
  {
    var g := text[..i - 1] + ([text[i - 1]] + y[1..13]);
    assert p == [AT] + p[1..13] + [AT] && y == [AT] + y[1..13] + [AT];
    assert text[..i - 1] + [text[i - 1]] == text[..i];
    assert g == text[..i] + y[1..13] && g[i..] == y[1..13];
    assert text[..i + 12][i..] == text[i..i + 12];
  }

  /** The placeholder that T completes, and two others. */
  lemma Tokens(text: Bytes, i: nat) returns (p: Bytes, x: Bytes, y: Bytes)
    requires InteriorAt(text, i)
    ensures IsPlaceholder(p) && p[1..13] == text[i..i + 12]
    ensures IsPlaceholder(x) && IsPlaceholder(y) && x != p && y != p && x != y
  {
    p := [AT] + text[i..i + 12] + [AT];
    forall k | 1 <= k < 13 ensures InteriorByte(k - 1, p[k]) { assert p[k] == text[i + (k - 1)]; }
    x := Third(p, p);
    ThirdDiffers(p, p);
    y := Third(p, x);
    ThirdDiffers(p, x);
  }

  // ---- Exactly

  /** Every stray token has a redaction of its text that the hook does not undo. */
  lemma StrayLost(text: Bytes, i: nat)
    requires StrayAt(text, i)
    ensures !RestoresAlways(text)
  {
    if k: nat :| PlaceholderAt(text, k) {
      LiteralLost(text, k);
    } else if k: nat :| 1 <= k && InteriorAt(text, k) && k + 12 < |text| && text[k - 1] == AT {
      StraddleLost(text, k);
    } else if j: nat :| j + 1 < i && text[j] != AT {
      CompletedLost(text, i, j);
    } else {
      AtsLost(text, i);
    }
  }

  /**
   * Exactly which texts the hook restores whatever was redacted in them and whatever placeholders stand for it, as long as
   * they resolve: those with no stray token.
   */
  lemma RestoresExactly(text: Bytes)
    ensures StrayFree(text) <==> RestoresAlways(text)
  {
    if StrayFree(text) {
      forall kept, hosts, resolve | Fits(kept, 0, |text|) && Labelled(kept) && Resolvable(text, kept, hosts, resolve)
        ensures Substituted(Splice(text, kept, 0), hosts, resolve) == Ok(text)
      {
        RestoreIdentity(text, kept, hosts, resolve);
      }
    } else {
      var i: nat :| StrayAt(text, i);
      StrayLost(text, i);
    }
  }
}
