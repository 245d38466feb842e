/**
 * A response streamed line by line through scanAndRedact, each line scanned against the vault that the
 * lines before it left behind, compared with one scan of the whole body.
 */
module LiveStreaming {
  import opened ByteText
  import opened Entropy
  import opened Detector
  import opened Redaction
  import opened Scanning
  import opened OrderIndependence
  import opened Streaming
  import V = Vault

  /** Scanning body line by line from vault s may leave vault t and write out. */
  ghost predicate Streams(s: V.State, mk: V.Derivation, st: Stages, policy: Policy, body: Bytes, t: V.State, out: Bytes)
    decreases |body|
  {
    if body == [] then t == s && out == []
    else exists u, first, rest :: StreamsBy(s, mk, st, policy, body, u, first, rest, t) && out == first + rest
  }

  ghost predicate StreamsBy(s: V.State, mk: V.Derivation, st: Stages, policy: Policy, body: Bytes,
                            u: V.State, first: Bytes, rest: Bytes, t: V.State)
    requires body != []
    decreases |body|, 0
  {
    var n := LineLength(body);
    Scans(s, mk, st, policy, body[..n], u, first) && |body[n..]| < |body| && Streams(u, mk, st, policy, body[n..], t, rest)
  }

  // ---- Stages that find nothing across the end of a line

  function Moved(m: Option<Match>, n: nat): Option<Match> {
    match m
    case None => None
    case Some(m) => Some(m.(start := m.start + n, end := m.end + n))
  }

  /** What is first in a slot of two lines: what is first in the line the slot lies in. */
  function FirstAcross(left: seq<Match>, right: seq<Match>, n: nat, k: Slot): Option<Match> {
    if k.1 <= n then First(left, k)
    else if n <= k.0 then Moved(First(right, (k.0 - n, k.1 - n, k.2)), n)
    else None
  }

  ghost predicate Splits(whole: seq<Match>, left: seq<Match>, right: seq<Match>, n: nat) {
    forall k: Slot :: First(whole, k) == FirstAcross(left, right, n, k)
  }

  ghost predicate StageLineLocal(scan: Bytes -> seq<Match>) {
    forall a, b {:trigger scan(a + b)} :: EndsLine(a) ==> Splits(scan(a + b), scan(a), scan(b), |a|)
  }

  ghost predicate LineLocalStages(st: Stages) {
    StageLineLocal(st.regex) && (st.disableContext || StageLineLocal(st.context))
  }

  lemma SplitsConcat(w: seq<Match>, l: seq<Match>, r: seq<Match>, w': seq<Match>, l': seq<Match>, r': seq<Match>, n: nat)
    requires Splits(w, l, r, n) && Splits(w', l', r', n)
    ensures Splits(w + w', l + l', r + r', n)
  {
    forall k: Slot ensures First(w + w', k) == FirstAcross(l + l', r + r', n, k) {
      FirstConcat(w, w', k);
      FirstConcat(l, l', k);
      if n <= k.0 && n < k.1 {
        FirstConcat(r, r', (k.0 - n, k.1 - n, k.2));
      }
    }
  }

  lemma {:induction false} FirstShift(ms: seq<Match>, n: nat, k: Slot)
    ensures First(Shift(ms, n), k) == if n <= k.0 && n <= k.1 then Moved(First(ms, (k.0 - n, k.1 - n, k.2)), n) else None
  {
    if ms != [] {
      assert Shift(ms, n)[1..] == Shift(ms[1..], n);
      FirstShift(ms[1..], n, k);
    }
  }

  lemma EntropySplits(a: Bytes, b: Bytes, st: Stage)
    requires EndsLine(a)
    ensures Splits(EntropyMatches(a + b, st), EntropyMatches(a, st), EntropyMatches(b, st), |a|)
  {
    var l, r := EntropyMatches(a, st), EntropyMatches(b, st);
    EntropyCut(a, b, st);
    forall k: Slot ensures First(l + Shift(r, |a|), k) == FirstAcross(l, r, |a|, k) {
      FirstConcat(l, Shift(r, |a|), k);
      FirstShift(r, |a|, k);
      EntropySlot(a, st, k);
      if |a| <= k.0 && |a| <= k.1 { EntropySlot(b, st, (k.0 - |a|, k.1 - |a|, k.2)); }
    }
  }

  lemma EntropySlot(x: Bytes, st: Stage, k: Slot)
    ensures First(EntropyMatches(x, st), k).Some? ==> k.0 < k.1 <= |x|
  {
    FirstIs(EntropyMatches(x, st), k);
    if First(EntropyMatches(x, st), k).Some? {
      EntropyExact(x, st, First(EntropyMatches(x, st), k).value);
    }
  }

  lemma OthersSplit(st: Stages, a: Bytes, b: Bytes)
    requires LineLocalStages(st) && EndsLine(a)
    ensures Splits(Others(st, a + b), Others(st, a), Others(st, b), |a|)
  {
    EntropySplits(a, b, st.entropy);
    var c := (x: Bytes) => if st.disableContext then [] else st.context(x);
    assert Splits(st.regex(a + b), st.regex(a), st.regex(b), |a|);
    assert Splits(c(a + b), c(a), c(b), |a|);
    SplitsConcat(st.regex(a + b), st.regex(a), st.regex(b),
                 EntropyMatches(a + b, st.entropy), EntropyMatches(a, st.entropy), EntropyMatches(b, st.entropy), |a|);
    SplitsConcat(st.regex(a + b) + EntropyMatches(a + b, st.entropy), st.regex(a) + EntropyMatches(a, st.entropy),
                 st.regex(b) + EntropyMatches(b, st.entropy), c(a + b), c(a), c(b), |a|);
  }

  lemma OtherAcross(st: Stages, policy: Policy, a: Bytes, b: Bytes, i: nat, j: nat)
    requires Splits(Others(st, a + b), Others(st, a), Others(st, b), |a|) && i < j
    ensures OtherAt(st, policy, a + b, i, j) <==>
      (j <= |a| && OtherAt(st, policy, a, i, j)) || (|a| <= i && OtherAt(st, policy, b, i - |a|, j - |a|))
  {
    if policy.register {
      if m :| PutForward(st, policy, a + b, i, j, m) {
        OtherFromWhole(st, policy, a, b, i, j, m);
      }
      if j <= |a| {
        if m :| PutForward(st, policy, a, i, j, m) {
          assert PutForward(st, policy, a + b, i, j, m);
        }
      } else if |a| <= i {
        var from, to := i - |a|, j - |a|;
        if m :| PutForward(st, policy, b, from, to, m) {
          assert PutForward(st, policy, a + b, i, j, Moved(Some(m), |a|).value);
        }
      }
    }
  }

  lemma OtherFromWhole(st: Stages, policy: Policy, a: Bytes, b: Bytes, i: nat, j: nat, m: Match)
    requires Splits(Others(st, a + b), Others(st, a), Others(st, b), |a|) && i < j && PutForward(st, policy, a + b, i, j, m)
    ensures (j <= |a| && PutForward(st, policy, a, i, j, m))
         || (|a| <= i && PutForward(st, policy, b, i - |a|, j - |a|, m.(start := i - |a|, end := j - |a|)))
  {
    assert FirstAcross(Others(st, a), Others(st, b), |a|, Key(m)) == Some(m);
    if |a| < j {
      FirstIs(Others(st, b), (i - |a|, j - |a|, HashOf(m.kind)));
    }
  }

  // ---- Known values

  ghost predicate NoKnownAcross(active: set<Bytes>, a: Bytes, b: Bytes) {
    forall v :: v in active && v != [] ==> NoneAcross(a, b, v)
  }

  ghost predicate WithinLines(active: set<Bytes>) {
    forall v :: v in active && v != [] ==> NEWLINE !in v[..|v| - 1]
  }

  lemma KnownAcross(active: set<Bytes>, a: Bytes, b: Bytes, i: nat, j: nat)
    requires NoKnownAcross(active, a, b) && i < j
    ensures KnownRange(active, a + b, i, j) <==>
      (j <= |a| && KnownRange(active, a, i, j)) || (|a| <= i && KnownRange(active, b, i - |a|, j - |a|))
  {
    if j <= |a + b| {
      var v := (a + b)[i..j];
      if v in active {
        HitAcross(a, b, v, i);
        RangeText(a, b, i, j);
      } else {
        RangeText(a, b, i, j);
      }
    }
  }

  lemma RangeText(a: Bytes, b: Bytes, i: nat, j: nat)
    requires i < j <= |a + b|
    ensures j <= |a| ==> a[i..j] == (a + b)[i..j]
    ensures |a| <= i ==> b[i - |a|..j - |a|] == (a + b)[i..j]
  {
  }

  // ---- The live spans of two lines

  /** What is live in a + b is what is live in a alone and in b alone. */
  ghost predicate CutsAt(st: Stages, policy: Policy, active: set<Bytes>, a: Bytes, b: Bytes) {
    forall i: nat, j: nat :: LiveAt(active, st, policy, a + b, i, j) <==> LiveBeside(st, policy, active, a, b, i, j)
  }

  ghost predicate LiveBeside(st: Stages, policy: Policy, active: set<Bytes>, a: Bytes, b: Bytes, i: nat, j: nat) {
    (j <= |a| && LiveAt(active, st, policy, a, i, j)) || (|a| <= i && |a| <= j && LiveAt(active, st, policy, b, i - |a|, j - |a|))
  }

  /** So it is when the other stages' findings split at the cut and no known value runs over it. */
  lemma SplitsCut(st: Stages, policy: Policy, active: set<Bytes>, a: Bytes, b: Bytes)
    requires Splits(Others(st, a + b), Others(st, a), Others(st, b), |a|) && NoKnownAcross(active, a, b)
    ensures CutsAt(st, policy, active, a, b)
  {
    forall i: nat, j: nat ensures LiveAt(active, st, policy, a + b, i, j) <==> LiveBeside(st, policy, active, a, b, i, j) {
      if i < j <= |a + b| {
        KnownAcross(active, a, b, i, j);
        OtherAcross(st, policy, a, b, i, j);
        RangeText(a, b, i, j);
      }
    }
  }

  lemma LiveSpansAcross(mk: V.Derivation, st: Stages, policy: Policy, active: set<Bytes>, a: Bytes, b: Bytes)
    requires CutsAt(st, policy, active, a, b)
    ensures LiveSpans(mk, st, policy, active, a + b)
         == LiveSpans(mk, st, policy, active, a) + ShiftAll(LiveSpans(mk, st, policy, active, b), |a|)
  {
    CutRangesBeside(st, policy, active, a, b);
    RangeSpansBeside(mk, a, b, LiveRanges(st, policy, active, a), LiveRanges(st, policy, active, b));
    LiveIsRange(mk, st, policy, active, a + b);
    LiveIsRange(mk, st, policy, active, a);
    LiveIsRange(mk, st, policy, active, b);
  }

  lemma CutRangesBeside(st: Stages, policy: Policy, active: set<Bytes>, a: Bytes, b: Bytes)
    requires CutsAt(st, policy, active, a, b)
    ensures LiveRanges(st, policy, active, a + b)
         == Beside(LiveRanges(st, policy, active, a), LiveRanges(st, policy, active, b), |a|)
  {
    var w, l, r := LiveRanges(st, policy, active, a + b), LiveRanges(st, policy, active, a), LiveRanges(st, policy, active, b);
    forall p: (nat, nat) ensures p in w <==> p in Beside(l, r, |a|) {
      assert LiveAt(active, st, policy, a + b, p.0, p.1) <==> LiveBeside(st, policy, active, a, b, p.0, p.1);
    }
  }

  // ---- Ranges and their spans

  type Ranges = iset<(nat, nat)>

  ghost predicate Within(b: Ranges, n: nat) {
    forall p :: p in b ==> p.0 < p.1 <= n
  }

  /** The ranges redacted in a text scanned with active known. */
  ghost function LiveRanges(st: Stages, policy: Policy, active: set<Bytes>, x: Bytes): Ranges {
    iset p: (nat, nat) | LiveAt(active, st, policy, x, p.0, p.1)
  }

  /** Ranges of a text of length n, and of what follows it. */
  ghost function Beside(l: Ranges, r: Ranges, n: nat): Ranges {
    iset p: (nat, nat) | (p.1 <= n && p in l) || (n <= p.0 && n <= p.1 && (p.0 - n, p.1 - n) in r)
  }

  ghost function RangeSpans(mk: V.Derivation, b: Ranges, x: Bytes): set<Span> {
    set i: nat, j: nat | i < j <= |x| && mk(x[i..j]) != [] && (i, j) in b :: Span(i, j, mk(x[i..j]))
  }

  lemma RangeSpansAt(mk: V.Derivation, b: Ranges, x: Bytes, sp: Span)
    ensures sp in RangeSpans(mk, b, x) <==> IsLiveSpan(mk, x, sp) && (sp.start, sp.end) in b
  {
  }

  lemma RangeSpansDetermined(mk: V.Derivation, b: Ranges, x: Bytes)
    ensures InBounds(RangeSpans(mk, b, x), |x|) && BoundsDetermine(RangeSpans(mk, b, x))
  {
  }

  lemma LiveIsRange(mk: V.Derivation, st: Stages, policy: Policy, active: set<Bytes>, x: Bytes)
    ensures LiveSpans(mk, st, policy, active, x) == RangeSpans(mk, LiveRanges(st, policy, active, x), x)
  {
  }

  lemma RangeSpansBeside(mk: V.Derivation, a: Bytes, b: Bytes, l: Ranges, r: Ranges)
    requires Within(l, |a|)
    ensures RangeSpans(mk, Beside(l, r, |a|), a + b) == RangeSpans(mk, l, a) + ShiftAll(RangeSpans(mk, r, b), |a|)
  {
    var w, ls, rs := RangeSpans(mk, Beside(l, r, |a|), a + b), RangeSpans(mk, l, a), RangeSpans(mk, r, b);
    forall sp ensures sp in w <==> sp in ls || ShiftedIn(sp, |a|, rs) {
      RangeSpansAt(mk, Beside(l, r, |a|), a + b, sp);
      RangeSpansAt(mk, l, a, sp);
      SpanTextAcross(mk, a, b, sp);
      if |a| <= sp.start && |a| <= sp.end {
        RangeSpansAt(mk, r, b, Span(sp.start - |a|, sp.end - |a|, sp.ph));
      }
    }
    UnionShifted(w, ls, rs, |a|);
  }

  /** Ranges of a text are told by their spans. */
  lemma RangeSpansTell(mk: V.Derivation, b: Ranges, c: Ranges, x: Bytes)
    requires (forall w :: mk(w) != []) && Within(b, |x|) && Within(c, |x|) && RangeSpans(mk, b, x) == RangeSpans(mk, c, x)
    ensures b == c
  {
    forall p: (nat, nat) ensures p in b <==> p in c {
      if p.0 < p.1 <= |x| {
        RangeSpansAt(mk, b, x, Span(p.0, p.1, mk(x[p.0..p.1])));
        RangeSpansAt(mk, c, x, Span(p.0, p.1, mk(x[p.0..p.1])));
      }
    }
  }

  lemma SpanTextAcross(mk: V.Derivation, a: Bytes, b: Bytes, sp: Span)
    ensures sp.end <= |a| ==> (IsLiveSpan(mk, a + b, sp) <==> IsLiveSpan(mk, a, sp))
    ensures |a| <= sp.start && |a| <= sp.end ==>
      (IsLiveSpan(mk, a + b, sp) <==> IsLiveSpan(mk, b, Span(sp.start - |a|, sp.end - |a|, sp.ph)))
  {
    if sp.start < sp.end <= |a + b| {
      RangeText(a, b, sp.start, sp.end);
    }
  }

  // ---- Vaults in which a scan can register without collision

  /**
   * The vault's indexes agree, its active values carry their derived placeholders, and those of values it does
   * not hold are free and distinct; ph tells how it places a text.
   */
  ghost predicate Steady(s: V.State, mk: V.Derivation, ph: V.Derivation, values: iset<Bytes>) {
    && V.Inverse(s) && !s.closed && ActiveDerived(s, mk) && Places(s, mk, ph)
    && (forall v :: v in values && v !in s.byValue ==> mk(v) !in s.byPH)
    && (forall v, w :: v in values && w in values && v !in s.byValue && w !in s.byValue && mk(v) == mk(w) ==> v == w)
  }

  lemma SoundSteady(s: V.State, mk: V.Derivation, values: iset<Bytes>)
    requires Sound(s, mk, values)
    ensures Steady(s, mk, mk, values)
  {
    SoundPlaces(s, mk);
    forall v | v in values && v !in s.byValue ensures mk(v) !in s.byPH {
      assert mk(v) in s.byPH ==> mk(s.byPH[mk(v)].value) == mk(v);
    }
  }

  lemma SteadyPlaces(s: V.State, mk: V.Derivation, ph: V.Derivation, values: iset<Bytes>)
    requires Steady(s, mk, ph, values)
    ensures Placing(s)
  {
  }

  // ---- What a line adds to the vault

  /** The texts a line redacts that the vault did not hold: they are registered. */
  ghost function Fresh(st: Stages, policy: Policy, active: set<Bytes>, held: set<Bytes>, line: Bytes): set<Bytes> {
    set i: nat, j: nat | i < j <= |line| && LiveAt(active, st, policy, line, i, j) && line[i..j] !in held :: line[i..j]
  }

  function Learned(policy: Policy, input: Bytes, ms: seq<Match>, held: set<Bytes>): set<Bytes> {
    if ms == [] then {}
    else
      var n := |ms| - 1;
      Learned(policy, input, ms[..n], held)
        + if Chosen(policy, input, ms[n]) && Text(input, ms[n]) !in held then {Text(input, ms[n])} else {}
  }

  /** Vault t knows what s knows, and news. */
  ghost predicate Knows(t: V.State, s: V.State, news: set<Bytes>) {
    V.ActiveValues(t) == V.ActiveValues(s) + news && t.byValue.Keys == s.byValue.Keys + news
  }

  lemma SameActive(s: V.State, t: V.State)
    requires s.byPH.Keys == t.byPH.Keys
    requires forall p :: p in s.byPH ==> s.byPH[p].value == t.byPH[p].value && s.byPH[p].status == t.byPH[p].status
    ensures V.ActiveValues(s) == V.ActiveValues(t)
  {
    forall v ensures v in V.ActiveValues(s) <==> v in V.ActiveValues(t) {}
  }

  lemma OneMoreActive(s: V.State, t: V.State, ph: Bytes, v: Bytes)
    requires ph !in s.byPH && ph in t.byPH && t.byPH == s.byPH[ph := t.byPH[ph]]
    requires t.byPH[ph].value == v && t.byPH[ph].status == V.PendingReview
    ensures V.ActiveValues(t) == V.ActiveValues(s) + {v}
  {
    forall w ensures w in V.ActiveValues(t) <==> w in V.ActiveValues(s) + {v} {
      if w in V.ActiveValues(s) {
        var p :| p in s.byPH && !s.byPH[p].status.Rejected? && !s.byPH[p].status.Archived? && s.byPH[p].value == w;
        assert p in t.byPH && t.byPH[p] == s.byPH[p];
      }
      assert t.byPH[ph].value == v;
    }
  }

  lemma AssignedKnows(s: V.State, mk: V.Derivation, ph: V.Derivation, policy: Policy, input: Bytes, m: Match, values: iset<Bytes>)
    requires Steady(s, mk, ph, values) && (Chosen(policy, input, m) ==> Text(input, m) in values)
    requires m.source == "ac" ==> Text(input, m) in s.byValue
    ensures Knows(Assigned(s, mk, policy, input, m).0, s,
                  if Chosen(policy, input, m) && Text(input, m) !in s.byValue then {Text(input, m)} else {})
    ensures Steady(Assigned(s, mk, policy, input, m).0, mk, ph, values)
  {
    var val := Text(input, m);
    if Chosen(policy, input, m) && val !in s.byValue {
      RegisterKnows(s, mk, val, m.kind, policy.origin + m.source);
      RegisterSteady(s, mk, ph, val, m.kind, policy.origin + m.source, values);
    } else {
      NothingLearned(s, mk, policy, input, m);
      KeepsSteady(s, Assigned(s, mk, policy, input, m).0, mk, ph, values);
    }
  }

  lemma RegisterSteady(s: V.State, mk: V.Derivation, ph: V.Derivation, val: Bytes, kind: string, source: string,
                       values: iset<Bytes>)
    requires Steady(s, mk, ph, values) && val in values && val !in s.byValue
    ensures Steady(V.Apply(s, V.Register(val, kind, source, []), mk).0, mk, ph, values)
  {
    var t := V.Apply(s, V.Register(val, kind, source, []), mk).0;
    RegisterKnows(s, mk, val, kind, source);
    RegisterInverse(s, mk, val, kind, source);
    SteadyMore(s, t, mk, ph, val, values);
  }

  lemma RegisterInverse(s: V.State, mk: V.Derivation, val: Bytes, kind: string, source: string)
    requires V.Inverse(s) && !s.closed && val !in s.byValue && mk(val) !in s.byPH
    ensures var t := V.Apply(s, V.Register(val, kind, source, []), mk).0;
      V.Inverse(t) && !t.closed && t.byValue == s.byValue[val := mk(val)] && t.byPH.Keys == s.byPH.Keys + {mk(val)}
  {
  }

  lemma SteadyMore(s: V.State, t: V.State, mk: V.Derivation, ph: V.Derivation, val: Bytes, values: iset<Bytes>)
    requires Steady(s, mk, ph, values) && val in values && val !in s.byValue && Knows(t, s, {val})
    requires V.Inverse(t) && !t.closed && t.byValue == s.byValue[val := mk(val)] && t.byPH.Keys == s.byPH.Keys + {mk(val)}
    ensures Steady(t, mk, ph, values)
  {
  }

  /** The same values under the same placeholders. */
  ghost predicate SameIndexes(s: V.State, t: V.State) {
    && t.byValue == s.byValue && t.closed == s.closed && t.byPH.Keys == s.byPH.Keys
    && forall p :: p in s.byPH ==> t.byPH[p].value == s.byPH[p].value && t.byPH[p].placeholder == s.byPH[p].placeholder
  }

  lemma KeepsSteady(s: V.State, t: V.State, mk: V.Derivation, ph: V.Derivation, values: iset<Bytes>)
    requires Steady(s, mk, ph, values) && SameIndexes(s, t) && V.ActiveValues(t) == V.ActiveValues(s)
    ensures Steady(t, mk, ph, values)
  {
  }

  lemma RegisterKnows(s: V.State, mk: V.Derivation, val: Bytes, kind: string, source: string)
    requires !s.closed && val !in s.byValue && mk(val) !in s.byPH
    ensures Knows(V.Apply(s, V.Register(val, kind, source, []), mk).0, s, {val})
  {
    OneMoreActive(s, V.Apply(s, V.Register(val, kind, source, []), mk).0, mk(val), val);
  }

  lemma NothingLearned(s: V.State, mk: V.Derivation, policy: Policy, input: Bytes, m: Match)
    requires V.Inverse(s) && !s.closed && (Chosen(policy, input, m) ==> Text(input, m) in s.byValue)
    ensures Knows(Assigned(s, mk, policy, input, m).0, s, {}) && SameIndexes(s, Assigned(s, mk, policy, input, m).0)
  {
    var val := Text(input, m);
    if Chosen(policy, input, m) {
      if m.source == "ac" {
        UseLearnsNothing(s, mk(val), mk);
      } else {
        HeldLearnsNothing(s, val, m.kind, policy.origin + m.source, mk);
      }
    }
  }

  lemma UseLearnsNothing(s: V.State, ph: Bytes, mk: V.Derivation)
    ensures Knows(V.Apply(s, V.MarkUse(ph), mk).0, s, {}) && SameIndexes(s, V.Apply(s, V.MarkUse(ph), mk).0)
  {
    if ph in s.byPH {
      EntryReplaced(s, ph, s.byPH[ph].(uses := s.byPH[ph].uses + 1));
    }
  }

  lemma HeldLearnsNothing(s: V.State, val: Bytes, kind: string, source: string, mk: V.Derivation)
    requires !s.closed && val in s.byValue && s.byValue[val] in s.byPH
    ensures var t := V.RegisterIn(s, val, kind, source, [], mk).0; Knows(t, s, {}) && SameIndexes(s, t)
  {
    var ph := s.byValue[val];
    EntryReplaced(s, ph, s.byPH[ph].(bindings := V.Merged(s.byPH[ph].bindings, [])));
  }

  lemma EntryReplaced(s: V.State, ph: Bytes, e: V.Entry)
    requires ph in s.byPH && e.value == s.byPH[ph].value && e.status == s.byPH[ph].status
    ensures Knows(s.(byPH := s.byPH[ph := e]), s, {})
  {
    SameActive(s, s.(byPH := s.byPH[ph := e]));
  }

  lemma KnowsMore(s: V.State, t: V.State, u: V.State, news: set<Bytes>, chosen: bool, x: Bytes)
    requires Knows(t, s, news) && Knows(u, t, if chosen && x !in t.byValue then {x} else {})
    ensures Knows(u, s, news + if chosen && x !in s.byValue.Keys then {x} else {})
  {
  }

  lemma AssignedNextKnows(s: V.State, t: V.State, mk: V.Derivation, ph: V.Derivation, policy: Policy, input: Bytes, m: Match,
                          values: iset<Bytes>, news: set<Bytes>)
    requires Steady(t, mk, ph, values) && (Chosen(policy, input, m) ==> Text(input, m) in values)
    requires (m.source == "ac" ==> Text(input, m) in s.byValue) && Knows(t, s, news)
    ensures Knows(Assigned(t, mk, policy, input, m).0, s,
                  news + if Chosen(policy, input, m) && Text(input, m) !in s.byValue.Keys then {Text(input, m)} else {})
    ensures Steady(Assigned(t, mk, policy, input, m).0, mk, ph, values)
  {
    assert m.source == "ac" ==> Text(input, m) in t.byValue.Keys;
    AssignedKnows(t, mk, ph, policy, input, m, values);
    KnowsMore(s, t, Assigned(t, mk, policy, input, m).0, news, Chosen(policy, input, m), Text(input, m));
  }

  lemma {:induction false} AssignedAllKnows(s: V.State, mk: V.Derivation, ph: V.Derivation, policy: Policy, input: Bytes,
                                            ms: seq<Match>, values: iset<Bytes>)
    requires Steady(s, mk, ph, values) && ChosenIn(policy, input, ms, values) && KnownHeld(s, input, ms)
    ensures var t := AssignedAll(s, mk, policy, input, ms).0;
      Knows(t, s, Learned(policy, input, ms, s.byValue.Keys)) && Steady(t, mk, ph, values)
  {
    if ms != [] {
      var n := |ms| - 1;
      ChosenPrefix(s, policy, input, ms, values, n);
      AssignedAllKnows(s, mk, ph, policy, input, ms[..n], values);
      var t := AssignedAll(s, mk, policy, input, ms[..n]).0;
      AssignedNextKnows(s, t, mk, ph, policy, input, ms[n], values, Learned(policy, input, ms[..n], s.byValue.Keys));
    }
  }

  lemma {:induction false} LearnedExactly(policy: Policy, input: Bytes, ms: seq<Match>, held: set<Bytes>, x: Bytes)
    ensures x in Learned(policy, input, ms, held) <==>
      x !in held && exists m :: m in ms && Chosen(policy, input, m) && Text(input, m) == x
  {
    if ms != [] {
      var n := |ms| - 1;
      LearnedExactly(policy, input, ms[..n], held, x);
      assert forall m :: m in ms <==> m in ms[..n] || m == ms[n];
    }
  }

  lemma LearnedIsFresh(s: V.State, st: Stages, policy: Policy, input: Bytes, found: seq<Match>)
    requires Scanned(s, st, input, found) && Lawful(st)
    ensures Learned(policy, input, found, s.byValue.Keys) == Fresh(st, policy, V.ActiveValues(s), s.byValue.Keys, input)
  {
    var active, held := V.ActiveValues(s), s.byValue.Keys;
    forall x ensures x in Learned(policy, input, found, held) <==> x in Fresh(st, policy, active, held, input) {
      LearnedExactly(policy, input, found, held, x);
      if x !in held {
        LearnedText(s, st, policy, input, found, x);
      }
    }
  }

  lemma LearnedText(s: V.State, st: Stages, policy: Policy, input: Bytes, found: seq<Match>, x: Bytes)
    requires Scanned(s, st, input, found) && Lawful(st) && x !in s.byValue.Keys
    ensures (exists m :: m in found && Chosen(policy, input, m) && Text(input, m) == x)
       <==> x in Fresh(st, policy, V.ActiveValues(s), s.byValue.Keys, input)
  {
    var active := V.ActiveValues(s);
    if m :| m in found && Chosen(policy, input, m) && Text(input, m) == x {
      ReportExactly(s, st, input, found, m);
      ChosenIsLive(active, st, policy, input, m);
    }
    if x in Fresh(st, policy, active, s.byValue.Keys, input) {
      var i: nat, j: nat :| i < j <= |input| && LiveAt(active, st, policy, input, i, j) && input[i..j] == x;
      var m := LiveIsChosen(active, st, policy, input, i, j);
      ReportExactly(s, st, input, found, m);
    }
  }

  /** After a scan the vault is steady, and knows besides what it knew exactly the fresh texts. */
  lemma ScanLearns(s: V.State, mk: V.Derivation, ph: V.Derivation, st: Stages, policy: Policy, input: Bytes,
                   t: V.State, out: Bytes, values: iset<Bytes>)
    requires Scans(s, mk, st, policy, input, t, out) && Lawful(st) && Steady(s, mk, ph, values)
    requires LiveIn(V.ActiveValues(s), st, policy, input, values)
    ensures Steady(t, mk, ph, values) && Knows(t, s, Fresh(st, policy, V.ActiveValues(s), s.byValue.Keys, input))
  {
    var found :| ScansWith(s, mk, st, policy, input, found, t, out);
    LiveChosenIn(s, st, policy, input, found, values);
    FoundKnown(s, st, input, found);
    AssignedAllKnows(s, mk, ph, policy, input, found, values);
    LearnedIsFresh(s, st, policy, input, found);
  }

  // ---- What a stream redacts

  /**
   * The ranges redacted in the stream of left, knowing known and holding held: each line's live ranges, with the
   * texts fresh on it known from the next line on.
   */
  ghost function StreamRanges(st: Stages, policy: Policy, known: set<Bytes>, held: set<Bytes>, left: Bytes): Ranges
    decreases |left|
  {
    if left == [] then iset{}
    else
      var n := LineLength(left);
      var added := Fresh(st, policy, known, held, left[..n]);
      Beside(LiveRanges(st, policy, known, left[..n]), StreamRanges(st, policy, known + added, held + added, left[n..]), n)
  }

  ghost function StreamSpans(mk: V.Derivation, st: Stages, policy: Policy, known: set<Bytes>, held: set<Bytes>, body: Bytes)
    : set<Span>
  {
    RangeSpans(mk, StreamRanges(st, policy, known, held, body), body)
  }

  /** The texts a stream replaces are among values. */
  ghost predicate StreamIn(st: Stages, policy: Policy, active: set<Bytes>, held: set<Bytes>, body: Bytes, values: iset<Bytes>)
    decreases |body|
  {
    body != [] ==>
      var n := LineLength(body);
      var added := Fresh(st, policy, active, held, body[..n]);
      LiveIn(active, st, policy, body[..n], values) && StreamIn(st, policy, active + added, held + added, body[n..], values)
  }

  lemma NothingRedacted()
    ensures IsRedaction([], {}, [])
  {
    assert Fits([], 0, 0) && IsGreedy([], {}, 0) && Splice([], [], 0) == [];
  }

  lemma FirstThenRest(mk: V.Derivation, st: Stages, policy: Policy, active: set<Bytes>, held: set<Bytes>, body: Bytes,
                      first: Bytes, rest: Bytes)
    requires body != []
    requires var n := LineLength(body);
      var added := Fresh(st, policy, active, held, body[..n]);
      && IsRedaction(body[..n], LiveSpans(mk, st, policy, active, body[..n]), first)
      && IsRedaction(body[n..], StreamSpans(mk, st, policy, active + added, held + added, body[n..]), rest)
    ensures IsRedaction(body, StreamSpans(mk, st, policy, active, held, body), first + rest)
  {
    var n := LineLength(body);
    var added := Fresh(st, policy, active, held, body[..n]);
    var l, r := LiveRanges(st, policy, active, body[..n]), StreamRanges(st, policy, active + added, held + added, body[n..]);
    LiveIsRange(mk, st, policy, active, body[..n]);
    RangeSpansDetermined(mk, l, body[..n]);
    RangeSpansDetermined(mk, r, body[n..]);
    RedactionAcross(body[..n], body[n..], RangeSpans(mk, l, body[..n]), RangeSpans(mk, r, body[n..]), first, rest);
    RangeSpansBeside(mk, body[..n], body[n..], l, r);
    SplitAt(body, n);
  }

  /** What a stream writes is a redaction of its spans. */
  lemma {:induction false} StreamAnswers(s: V.State, mk: V.Derivation, ph: V.Derivation, st: Stages, policy: Policy, body: Bytes,
                                         t: V.State, out: Bytes, values: iset<Bytes>)
    requires Streams(s, mk, st, policy, body, t, out) && Lawful(st) && Steady(s, mk, ph, values)
    requires StreamIn(st, policy, V.ActiveValues(s), s.byValue.Keys, body, values)
    ensures IsRedaction(body, StreamSpans(ph, st, policy, V.ActiveValues(s), s.byValue.Keys, body), out)
    decreases |body|
  {
    if body == [] {
      NothingRedacted();
    } else {
      var n := LineLength(body);
      var u, first, rest :| StreamsBy(s, mk, st, policy, body, u, first, rest, t) && out == first + rest;
      SteadyPlaces(s, mk, ph, values);
      ScanAnswers(s, mk, ph, st, policy, body[..n], u, first);
      ScanLearns(s, mk, ph, st, policy, body[..n], u, first, values);
      StreamAnswers(u, mk, ph, st, policy, body[n..], t, rest, values);
      FirstThenRest(ph, st, policy, V.ActiveValues(s), s.byValue.Keys, body, first, rest);
    }
  }

  /** A stream has one output. */
  lemma StreamUnique(s: V.State, mk: V.Derivation, ph: V.Derivation, st: Stages, policy: Policy, body: Bytes,
                     t1: V.State, t2: V.State, out1: Bytes, out2: Bytes, values: iset<Bytes>)
    requires Streams(s, mk, st, policy, body, t1, out1) && Streams(s, mk, st, policy, body, t2, out2)
    requires Lawful(st) && Steady(s, mk, ph, values) && StreamIn(st, policy, V.ActiveValues(s), s.byValue.Keys, body, values)
    ensures out1 == out2
  {
    var spans := StreamSpans(ph, st, policy, V.ActiveValues(s), s.byValue.Keys, body);
    StreamAnswers(s, mk, ph, st, policy, body, t1, out1, values);
    StreamAnswers(s, mk, ph, st, policy, body, t2, out2, values);
    RangeSpansDetermined(ph, StreamRanges(st, policy, V.ActiveValues(s), s.byValue.Keys, body), body);
    RedactionDeterministic(body, spans, out1, out2);
  }

  // ---- Exactly when streaming redacts what buffering does

  ghost predicate Proper(b: Ranges) {
    forall p :: p in b ==> p.0 < p.1
  }

  /** The ranges from n on, counted from there. */
  ghost function From(b: Ranges, n: nat): Ranges {
    iset p: (nat, nat) | (p.0 + n, p.1 + n) in b
  }

  /** No range runs over n. */
  ghost predicate NoneOver(b: Ranges, n: nat) {
    forall p :: p in b ==> !(p.0 < n < p.1)
  }

  /** The same ranges up to n. */
  ghost predicate AlikeTo(l: Ranges, b: Ranges, n: nat) {
    forall p: (nat, nat) :: p.1 <= n ==> (p in l <==> p in b)
  }

  /**
   * Walking down left with the values known and held by then, and b the ranges that are redacted in the whole body,
   * counted from where left begins: no such range runs over the end of the line, and the line, scanned alone with those
   * values known, has redacted what the body has there.
   */
  ghost predicate AsInBody(st: Stages, policy: Policy, known: set<Bytes>, held: set<Bytes>, left: Bytes, b: Ranges)
    decreases |left|
  {
    if left == [] then b == iset{}
    else
      var n := LineLength(left);
      var added := Fresh(st, policy, known, held, left[..n]);
      && NoneOver(b, n) && AlikeTo(LiveRanges(st, policy, known, left[..n]), b, n)
      && AsInBody(st, policy, known + added, held + added, left[n..], From(b, n))
  }

  lemma CutRanges(l: Ranges, r: Ranges, b: Ranges, n: nat)
    requires Proper(l) && Proper(r) && Proper(b)
    ensures Beside(l, r, n) == b <==> NoneOver(b, n) && AlikeTo(l, b, n) && r == From(b, n)
  {
    if Beside(l, r, n) == b {
      CutRangesLeft(l, r, b, n);
    }
    if NoneOver(b, n) && AlikeTo(l, b, n) && r == From(b, n) {
      forall p: (nat, nat) ensures p in Beside(l, r, n) <==> p in b {
        BesideFromAt(l, b, n, p);
      }
    }
  }

  lemma BesideFromAt(l: Ranges, b: Ranges, n: nat, p: (nat, nat))
    requires Proper(b) && NoneOver(b, n) && AlikeTo(l, b, n)
    ensures p in Beside(l, From(b, n), n) <==> p in b
  {
    if n <= p.0 && n <= p.1 {
      assert (p.0 - n + n, p.1 - n + n) == p;
      assert p in Beside(l, From(b, n), n) <==> (p.1 <= n && p in l) || p in b;
    } else {
      assert p in Beside(l, From(b, n), n) <==> p.1 <= n && p in l;
    }
  }

  lemma CutRangesLeft(l: Ranges, r: Ranges, b: Ranges, n: nat)
    requires Proper(l) && Proper(r) && Beside(l, r, n) == b
    ensures NoneOver(b, n) && AlikeTo(l, b, n) && r == From(b, n)
  {
    forall p: (nat, nat) ensures p in r <==> p in From(b, n) {
      var q := (p.0 + n, p.1 + n);
      assert q in b <==> q in Beside(l, r, n);
      assert (q.0 - n, q.1 - n) == p;
    }
  }

  lemma {:induction false} StreamRangesExactly(st: Stages, policy: Policy, known: set<Bytes>, held: set<Bytes>,
                                               left: Bytes, b: Ranges)
    requires Proper(b)
    ensures StreamRanges(st, policy, known, held, left) == b <==> AsInBody(st, policy, known, held, left, b)
    decreases |left|
  {
    if left != [] {
      var n := LineLength(left);
      var added := Fresh(st, policy, known, held, left[..n]);
      StreamWithin(st, policy, known + added, held + added, left[n..]);
      StreamRangesExactly(st, policy, known + added, held + added, left[n..], From(b, n));
      CutRanges(LiveRanges(st, policy, known, left[..n]),
                StreamRanges(st, policy, known + added, held + added, left[n..]), b, n);
    }
  }

  lemma AsInBodySpans(mk: V.Derivation, st: Stages, policy: Policy, active: set<Bytes>, held: set<Bytes>, body: Bytes)
    requires AsInBody(st, policy, active, held, body, LiveRanges(st, policy, active, body))
    ensures StreamSpans(mk, st, policy, active, held, body) == LiveSpans(mk, st, policy, active, body)
  {
    StreamRangesExactly(st, policy, active, held, body, LiveRanges(st, policy, active, body));
    LiveIsRange(mk, st, policy, active, body);
  }

  lemma BesideWithin(l: Ranges, r: Ranges, n: nat, m: nat)
    requires Within(l, n) && Within(r, m)
    ensures Within(Beside(l, r, n), n + m)
  {
    forall p | p in Beside(l, r, n) ensures p.0 < p.1 <= n + m {
      if !(p.1 <= n && p in l) {
        assert (p.0 - n, p.1 - n) in r;
      }
    }
  }

  lemma LiveWithin(st: Stages, policy: Policy, known: set<Bytes>, x: Bytes)
    ensures Within(LiveRanges(st, policy, known, x), |x|)
  {
  }

  lemma {:induction false} StreamWithin(st: Stages, policy: Policy, known: set<Bytes>, held: set<Bytes>, left: Bytes)
    ensures Within(StreamRanges(st, policy, known, held, left), |left|)
    decreases |left|
  {
    if left != [] {
      var n := LineLength(left);
      var added := Fresh(st, policy, known, held, left[..n]);
      StreamWithin(st, policy, known + added, held + added, left[n..]);
      LiveWithin(st, policy, known, left[..n]);
      BesideWithin(LiveRanges(st, policy, known, left[..n]), StreamRanges(st, policy, known + added, held + added, left[n..]),
                   n, |left[n..]|);
    }
  }

  /**
   * Exactly when a stream redacts the spans that a scan of the whole body would, for every text and all stages: when
   * nothing redacted in the body runs over the end of a line, and every line, scanned alone with the values known by
   * then, has redacted what the body has there.
   */
  lemma StreamSpansExactly(mk: V.Derivation, st: Stages, policy: Policy, active: set<Bytes>, held: set<Bytes>, body: Bytes)
    requires forall w :: mk(w) != []
    ensures StreamSpans(mk, st, policy, active, held, body) == LiveSpans(mk, st, policy, active, body)
       <==> AsInBody(st, policy, active, held, body, LiveRanges(st, policy, active, body))
  {
    var streamed, live := StreamRanges(st, policy, active, held, body), LiveRanges(st, policy, active, body);
    StreamRangesExactly(st, policy, active, held, body, live);
    LiveIsRange(mk, st, policy, active, body);
    if RangeSpans(mk, streamed, body) == RangeSpans(mk, live, body) {
      StreamWithin(st, policy, active, held, body);
      LiveWithin(st, policy, active, body);
      RangeSpansTell(mk, streamed, live, body);
    }
  }

  /** The texts of the ranges are among values. */
  ghost predicate TextsIn(b: Ranges, left: Bytes, values: iset<Bytes>) {
    forall p :: p in b ==> p.0 <= p.1 <= |left| && left[p.0..p.1] in values
  }

  lemma TextsFrom(b: Ranges, left: Bytes, n: nat, values: iset<Bytes>)
    requires TextsIn(b, left, values) && n <= |left|
    ensures TextsIn(From(b, n), left[n..], values)
  {
    forall p | p in From(b, n) ensures p.0 <= p.1 <= |left[n..]| && left[n..][p.0..p.1] in values {
      var q := (p.0 + n, p.1 + n);
      assert q in b && left[n..][p.0..p.1] == left[q.0..q.1];
    }
  }

  lemma {:induction false} AsInBodyStreamIn(st: Stages, policy: Policy, known: set<Bytes>, held: set<Bytes>,
                                            left: Bytes, b: Ranges,
                                            values: iset<Bytes>)
    requires AsInBody(st, policy, known, held, left, b) && TextsIn(b, left, values)
    ensures StreamIn(st, policy, known, held, left, values)
    decreases |left|
  {
    if left != [] {
      var n := LineLength(left);
      var added := Fresh(st, policy, known, held, left[..n]);
      TextsFrom(b, left, n, values);
      LineIn(st, policy, known, left, b, n, values);
      AsInBodyStreamIn(st, policy, known + added, held + added, left[n..], From(b, n), values);
    }
  }

  lemma LineIn(st: Stages, policy: Policy, known: set<Bytes>, left: Bytes, b: Ranges, n: nat, values: iset<Bytes>)
    requires n <= |left| && AlikeTo(LiveRanges(st, policy, known, left[..n]), b, n) && TextsIn(b, left, values)
    ensures LiveIn(known, st, policy, left[..n], values)
  {
    var line := left[..n];
    forall i: nat, j: nat | LiveAt(known, st, policy, line, i, j) ensures line[i..j] in values {
      assert (i, j) in LiveRanges(st, policy, known, line);
      assert (i, j) in b && line[i..j] == left[i..j];
    }
  }

  /** Streaming equals buffering, on the live vault and for all stages, under that condition. */
  lemma LiveStreamEqualsBuffering(s: V.State, mk: V.Derivation, ph: V.Derivation, st: Stages, policy: Policy, body: Bytes,
                                  t: V.State, streamed: Bytes, t': V.State, whole: Bytes, values: iset<Bytes>)
    requires Streams(s, mk, st, policy, body, t, streamed) && Scans(s, mk, st, policy, body, t', whole) && Lawful(st)
    requires Steady(s, mk, ph, values) && LiveIn(V.ActiveValues(s), st, policy, body, values)
    requires AsInBody(st, policy, V.ActiveValues(s), s.byValue.Keys, body, LiveRanges(st, policy, V.ActiveValues(s), body))
    ensures streamed == whole
  {
    var active, held := V.ActiveValues(s), s.byValue.Keys;
    AsInBodyStreamIn(st, policy, active, held, body, LiveRanges(st, policy, active, body), values);
    StreamAnswers(s, mk, ph, st, policy, body, t, streamed, values);
    AsInBodySpans(ph, st, policy, active, held, body);
    SteadyPlaces(s, mk, ph, values);
    ScanAnswers(s, mk, ph, st, policy, body, t', whole);
    LiveSpansDetermined(ph, st, policy, active, body);
    RedactionDeterministic(body, LiveSpans(ph, st, policy, active, body), streamed, whole);
  }

  // ---- A range over the end of a line

  lemma {:induction false} LineHasNone(body: Bytes, k: nat)
    requires k + 1 < LineLength(body)
    ensures body[k] != NEWLINE
  {
    if k > 0 {
      LineHasNone(body[1..], k - 1);
    }
  }

  /** No newline before the last byte of the range. */
  ghost predicate OnOneLine(left: Bytes, p: (nat, nat)) {
    p.1 <= |left| && forall k :: p.0 <= k && k + 1 < p.1 ==> left[k] != NEWLINE
  }

  ghost predicate Unbroken(b: Ranges, left: Bytes) {
    forall p :: p in b ==> OnOneLine(left, p)
  }

  lemma BesideUnbroken(l: Ranges, r: Ranges, left: Bytes)
    requires left != [] && Within(l, LineLength(left)) && Unbroken(r, left[LineLength(left)..])
    ensures Unbroken(Beside(l, r, LineLength(left)), left)
  {
    var n := LineLength(left);
    forall p | p in Beside(l, r, n) ensures OnOneLine(left, p) {
      if p.1 <= n && p in l {
        forall k | p.0 <= k && k + 1 < p.1 ensures left[k] != NEWLINE {
          LineHasNone(left, k);
        }
      } else {
        OneLineLater(left, n, p);
      }
    }
  }

  lemma OneLineLater(left: Bytes, n: nat, p: (nat, nat))
    requires n <= |left| && n <= p.0 && n <= p.1 && OnOneLine(left[n..], (p.0 - n, p.1 - n))
    ensures OnOneLine(left, p)
  {
    forall k | p.0 <= k && k + 1 < p.1 ensures left[k] != NEWLINE {
      assert left[n..][k - n] == left[k];
    }
  }

  lemma {:induction false} StreamUnbroken(st: Stages, policy: Policy, known: set<Bytes>, held: set<Bytes>, left: Bytes)
    ensures Unbroken(StreamRanges(st, policy, known, held, left), left)
    decreases |left|
  {
    if left != [] {
      var n := LineLength(left);
      var added := Fresh(st, policy, known, held, left[..n]);
      StreamUnbroken(st, policy, known + added, held + added, left[n..]);
      LiveWithin(st, policy, known, left[..n]);
      BesideUnbroken(LiveRanges(st, policy, known, left[..n]),
                     StreamRanges(st, policy, known + added, held + added, left[n..]), left);
    }
  }

  /** What runs over the end of a line is redacted in the body and not in the stream. */
  lemma OverLineEndDiffers(mk: V.Derivation, st: Stages, policy: Policy, active: set<Bytes>, held: set<Bytes>, body: Bytes,
                           i: nat, j: nat, k: nat)
    requires (forall w :: mk(w) != []) && LiveAt(active, st, policy, body, i, j) && i <= k && k + 1 < j && body[k] == NEWLINE
    ensures StreamSpans(mk, st, policy, active, held, body) != LiveSpans(mk, st, policy, active, body)
  {
    var sp := Span(i, j, mk(body[i..j]));
    RangeSpansAt(mk, StreamRanges(st, policy, active, held, body), body, sp);
    LiveSpansExactly(mk, st, policy, active, body, sp);
    StreamUnbroken(st, policy, active, held, body);
    assert !OnOneLine(body, (i, j));
  }

  // ---- Bodies whose lines are scanned alike alone

  /** Wherever a hit of news lies on the line, the range is redacted without knowing news. */
  ghost predicate FoundAnyway(st: Stages, policy: Policy, active: set<Bytes>, news: set<Bytes>, line: Bytes) {
    forall i: nat, j: nat :: KnownRange(news, line, i, j) && line[i..j] !in policy.pass ==> LiveAt(active, st, policy, line, i, j)
  }

  /**
   * Walking down the lines with the texts that are new to the vault: every hit of one on a later line is at a
   * range that would be redacted there anyway.
   */
  ghost predicate Foreseen(st: Stages, policy: Policy, active: set<Bytes>, held: set<Bytes>, news: set<Bytes>, body: Bytes)
    decreases |body|
  {
    body != [] ==>
      var n := LineLength(body);
      && FoundAnyway(st, policy, active, news, body[..n])
      && Foreseen(st, policy, active, held, news + Fresh(st, policy, active, held, body[..n]), body[n..])
  }

  lemma LiveWithNews(st: Stages, policy: Policy, active: set<Bytes>, news: set<Bytes>, line: Bytes, i: nat, j: nat)
    ensures LiveAt(active + news, st, policy, line, i, j) <==>
      LiveAt(active, st, policy, line, i, j) || (KnownRange(news, line, i, j) && line[i..j] !in policy.pass)
  {
  }

  lemma FoundAnywaySame(st: Stages, policy: Policy, active: set<Bytes>, news: set<Bytes>, line: Bytes, i: nat, j: nat)
    requires FoundAnyway(st, policy, active, news, line)
    ensures LiveAt(active + news, st, policy, line, i, j) <==> LiveAt(active, st, policy, line, i, j)
  {
    LiveWithNews(st, policy, active, news, line, i, j);
  }

  lemma FreshWithNews(st: Stages, policy: Policy, active: set<Bytes>, held: set<Bytes>, news: set<Bytes>, line: Bytes)
    requires FoundAnyway(st, policy, active, news, line)
    ensures news + Fresh(st, policy, active + news, held + news, line) == news + Fresh(st, policy, active, held, line)
  {
    forall i: nat, j: nat ensures LiveAt(active + news, st, policy, line, i, j) <==> LiveAt(active, st, policy, line, i, j) {
      FoundAnywaySame(st, policy, active, news, line, i, j);
    }
  }

  /** The sets known after a line are the same with the news listed apart. */
  lemma SetsAfterLine(st: Stages, policy: Policy, active: set<Bytes>, held: set<Bytes>, news: set<Bytes>, line: Bytes)
    requires FoundAnyway(st, policy, active, news, line)
    ensures var added := Fresh(st, policy, active + news, held + news, line);
      var after := news + Fresh(st, policy, active, held, line);
      active + news + added == active + after && held + news + added == held + after
  {
    FreshWithNews(st, policy, active, held, news, line);
    var added := Fresh(st, policy, active + news, held + news, line);
    assert active + news + added == active + (news + added) && held + news + added == held + (news + added);
  }

  /** Against the values known at the start, every line is scanned alone as it is with the lines after it. */
  ghost predicate LocalOn(st: Stages, policy: Policy, active: set<Bytes>, body: Bytes)
    decreases |body|
  {
    body != [] && LineLength(body) < |body| ==>
      var n := LineLength(body);
      CutsAt(st, policy, active, body[..n], body[n..]) && LocalOn(st, policy, active, body[n..])
  }

  /** So it is for every text when no stage finds anything across a newline and no active value has an inner one. */
  lemma {:induction false} LineLocalOn(st: Stages, policy: Policy, active: set<Bytes>, body: Bytes)
    requires LineLocalStages(st) && WithinLines(active)
    ensures LocalOn(st, policy, active, body)
    decreases |body|
  {
    if body != [] && LineLength(body) < |body| {
      var n := LineLength(body);
      LineCuts(st, policy, active, body[..n], body[n..]);
      SplitAt(body, n);
      LineLocalOn(st, policy, active, body[n..]);
    }
  }

  lemma LineCuts(st: Stages, policy: Policy, active: set<Bytes>, a: Bytes, b: Bytes)
    requires LineLocalStages(st) && WithinLines(active) && EndsLine(a)
    ensures CutsAt(st, policy, active, a, b)
  {
    OthersSplit(st, a, b);
    forall v | v in active && v != [] ensures NoneAcross(a, b, v) {
      LineHolds(a, b, v);
    }
    SplitsCut(st, policy, active, a, b);
  }

  lemma FoundAnywayExactly(st: Stages, policy: Policy, active: set<Bytes>, news: set<Bytes>, line: Bytes, b: Ranges)
    requires AlikeTo(LiveRanges(st, policy, active, line), b, |line|)
    ensures AlikeTo(LiveRanges(st, policy, active + news, line), b, |line|) <==> FoundAnyway(st, policy, active, news, line)
  {
    var more, less := LiveRanges(st, policy, active + news, line), LiveRanges(st, policy, active, line);
    if FoundAnyway(st, policy, active, news, line) {
      forall p: (nat, nat) ensures p in more <==> p in less {
        FoundAnywaySame(st, policy, active, news, line, p.0, p.1);
      }
    } else {
      var i: nat, j: nat :| KnownRange(news, line, i, j) && line[i..j] !in policy.pass && !LiveAt(active, st, policy, line, i, j);
      LiveWithNews(st, policy, active, news, line, i, j);
      assert (i, j) in more && (i, j) !in less;
    }
  }

  /** What is live in the text is what is live in its first line and in the rest. */
  lemma LiveCut(st: Stages, policy: Policy, active: set<Bytes>, left: Bytes)
    requires left != [] && LocalOn(st, policy, active, left)
    ensures var n := LineLength(left);
      LiveRanges(st, policy, active, left)
        == Beside(LiveRanges(st, policy, active, left[..n]), LiveRanges(st, policy, active, left[n..]), n)
  {
    var n := LineLength(left);
    SplitAt(left, n);
    if n == |left| {
      assert left[..n] == left && LiveRanges(st, policy, active, left[n..]) == iset{};
    } else {
      CutRangesBeside(st, policy, active, left[..n], left[n..]);
    }
  }

  /** On such a body the general condition is that every hit, on a later line, of a new text is at a range redacted anyway. */
  lemma {:induction false} ForeseenAsInBody(st: Stages, policy: Policy, active: set<Bytes>, held: set<Bytes>, news: set<Bytes>,
                                            left: Bytes)
    requires LocalOn(st, policy, active, left)
    ensures AsInBody(st, policy, active + news, held + news, left, LiveRanges(st, policy, active, left))
       <==> Foreseen(st, policy, active, held, news, left)
    decreases |left|
  {
    var b := LiveRanges(st, policy, active, left);
    if left == [] {
      assert b == iset{};
    } else {
      var n := LineLength(left);
      var line, rest := left[..n], left[n..];
      LiveCut(st, policy, active, left);
      CutRanges(LiveRanges(st, policy, active, line), LiveRanges(st, policy, active, rest), b, n);
      FoundAnywayExactly(st, policy, active, news, line, b);
      if FoundAnyway(st, policy, active, news, line) {
        SetsAfterLine(st, policy, active, held, news, line);
        ForeseenAsInBody(st, policy, active, held, news + Fresh(st, policy, active, held, line), rest);
      }
    }
  }

  /** So on such a body a stream redacts the spans that a scan of the whole would exactly when that holds. */
  lemma ForeseenExactly(mk: V.Derivation, st: Stages, policy: Policy, active: set<Bytes>, held: set<Bytes>, body: Bytes)
    requires LocalOn(st, policy, active, body) && forall w :: mk(w) != []
    ensures StreamSpans(mk, st, policy, active, held, body) == LiveSpans(mk, st, policy, active, body)
       <==> Foreseen(st, policy, active, held, {}, body)
  {
    assert active + {} == active && held + {} == held;
    ForeseenAsInBody(st, policy, active, held, {}, body);
    StreamSpansExactly(mk, st, policy, active, held, body);
  }

  lemma LiveInSplits(st: Stages, policy: Policy, active: set<Bytes>, a: Bytes, b: Bytes, values: iset<Bytes>)
    requires CutsAt(st, policy, active, a, b) && LiveIn(active, st, policy, a + b, values)
    ensures LiveIn(active, st, policy, a, values) && LiveIn(active, st, policy, b, values)
  {
    forall i: nat, j: nat | LiveAt(active, st, policy, a, i, j) ensures a[i..j] in values {
      assert LiveBeside(st, policy, active, a, b, i, j);
      RangeText(a, b, i, j);
    }
    forall i: nat, j: nat | LiveAt(active, st, policy, b, i, j) ensures b[i..j] in values {
      assert LiveBeside(st, policy, active, a, b, |a| + i, |a| + j);
      RangeText(a, b, |a| + i, |a| + j);
    }
  }

  /** In particular when no line registers anything: every text redacted is one the vault already holds. */
  lemma {:induction false} NothingNewForeseen(st: Stages, policy: Policy, active: set<Bytes>, held: set<Bytes>, body: Bytes)
    requires LocalOn(st, policy, active, body)
    requires forall i: nat, j: nat :: LiveAt(active, st, policy, body, i, j) ==> body[i..j] in held
    ensures Foreseen(st, policy, active, held, {}, body)
    decreases |body|
  {
    if body != [] {
      var n := LineLength(body);
      var line, rest := body[..n], body[n..];
      if n == |body| {
        assert line == body;
      } else {
        SplitAt(body, n);
        LiveInSplits(st, policy, active, line, rest, iset x | x in held);
        assert {} + Fresh(st, policy, active, held, line) == {};
        NothingNewForeseen(st, policy, active, held, rest);
      }
    }
  }
}
