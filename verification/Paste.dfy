/** The bracketed-paste filter: a two-state transducer fed arbitrary chunks of terminal input. */
module Paste {
  import opened ByteText
  import opened Sequences

  // ESC [ 2 0 0 ~  and  ESC [ 2 0 1 ~
  const PASTE_BEGIN: Bytes := [27, 91, 50, 48, 48, 126]
  const PASTE_END: Bytes := [27, 91, 50, 48, 49, 126]
  const MARKER_LEN := 6

  datatype Mode = Normal | InPaste

  datatype State = State(mode: Mode, buffered: Bytes)

  /** The daemon's redaction of a paste body, or nothing when the call fails. */
  type Daemon = Bytes -> Option<Bytes>

  /** scanBuffered: the redacted body, or the body itself on failure or an empty answer. */
  function Scanned(body: Bytes, daemon: Daemon): (r: Bytes)
    ensures r == [] <==> body == []
  {
    if body == [] then []
    else match daemon(body)
      case None => body
      case Some(red) => if red == [] then body else red
  }

  /** The two markers and the daemon behind the filter. */
  datatype Wiring = Wiring(begin: Bytes, end: Bytes, daemon: Daemon) {
    /** The marker a mode waits for. */
    function Marker(mode: Mode): Bytes {
      if mode.Normal? then begin else end
    }
  }

  /** The proofs use only that both markers have the same length; the filter wires in the two constants. */
  type Env = e: Wiring | |e.begin| == MARKER_LEN && |e.end| == MARKER_LEN
    witness Wiring(PASTE_BEGIN, PASTE_END, (body: Bytes) => None)

  /** The state after the marker st waits for. */
  function Toggled(st: State): State {
    if st.mode.Normal? then State(InPaste, []) else State(Normal, [])
  }

  /** What goes out when the marker arrives after head: plain bytes as they are, a paste body scanned. */
  function Shown(st: State, head: Bytes, env: Env): Bytes {
    (if st.mode.Normal? then head else Scanned(st.buffered + head, env.daemon)) + env.Marker(st.mode)
  }

  /** Without a marker plain bytes pass and paste bytes are held. */
  function Passed(st: State, x: Bytes): Bytes {
    if st.mode.Normal? then x else []
  }

  function Holding(st: State, x: Bytes): State {
    if st.mode.Normal? then st else State(InPaste, st.buffered + x)
  }

  /** An escape sequence as the terminal sends it. */
  function Escape(s: string): Bytes
    requires forall i :: 0 <= i < |s| ==> s[i] < 128 as char
  {
    [27] + seq(|s|, i requires 0 <= i < |s| => s[i] as byte)
  }

  lemma MarkersSpelled()
    ensures PASTE_BEGIN == Escape("[200~") && PASTE_END == Escape("[201~")
  {
  }

  /** Processing one chunk: the state after it and the bytes forwarded. */
  function Processed(st: State, x: Bytes, env: Env): (State, Bytes)
    decreases |x|
  {
    var i := IndexFrom(x, env.Marker(st.mode), 0);
    if x == [] then (st, [])
    else if i < 0 then (Holding(st, x), Passed(st, x))
    else
      var (end, out) := Processed(Toggled(st), x[i + MARKER_LEN..], env);
      (end, Shown(st, x[..i], env) + out)
  }

  /** A non-empty suffix of buf is a proper prefix of pat: the two might be the halves of one marker. */
  ghost predicate Straddles(buf: Bytes, pat: Bytes) {
    exists n :: SuffixIsPrefix(buf, pat, n)
  }

  predicate SuffixIsPrefix(buf: Bytes, pat: Bytes, n: int) {
    0 < n < |pat| && n <= |buf| && buf[|buf| - n..] == pat[..n]
  }

  /** The length of the longest suffix of buf that is a proper prefix of pat; zero when there is none. */
  method SplitTrailingPrefix(buf: Bytes, pat: Bytes) returns (r: nat)
    ensures r > 0 ==> SuffixIsPrefix(buf, pat, r)
    ensures forall n :: r < n ==> !SuffixIsPrefix(buf, pat, n)
    ensures r == 0 <==> !Straddles(buf, pat)
  {
    var n := |pat| - 1;
    if n > |buf| {
      n := |buf|;
    }
    while n > 0
      invariant forall m :: n < m ==> !SuffixIsPrefix(buf, pat, m)
    {
      if buf[|buf| - n..] == pat[..n] {
        assert SuffixIsPrefix(buf, pat, n);
        return n;
      }
      n := n - 1;
    }
    return 0;
  }

  class PasteFilter {
    const env: Env
    var state: Mode
    var pending: Bytes
    var buffered: Bytes

    constructor (daemon: Daemon)
      ensures env == Wiring(Escape("[200~"), Escape("[201~"), daemon) && Abstract() == State(Normal, [])
    {
      MarkersSpelled();
      env := Wiring(PASTE_BEGIN, PASTE_END, daemon);
      state, pending, buffered := Normal, [], [];
    }

    /** What later output depends on; pending is written but never read. */
    function Abstract(): State
      reads this
    {
      State(state, buffered)
    }

    method Process(input: Bytes) returns (out: Bytes)
      modifies this
      ensures (Abstract(), out) == old(Processed(Abstract(), input, env))
    {
      out := [];
      var i: nat := 0;
      ghost var whole := Processed(Abstract(), input, env);
      ghost var cur, todo, left := Abstract(), input, whole;
      assert [] + whole.1 == whole.1;
      while i < |input|
        invariant i <= |input| && todo == input[i..] && cur == Abstract()
        invariant left == Processed(cur, todo, env)
        invariant whole.0 == left.0 && whole.1 == out + left.1
      {
        var rest := input[i..];
        var idx := IndexFrom(rest, env.Marker(state), 0);
        if idx >= 0 {
          left := MarkerFound(cur, todo, idx, env, out);
          cur, todo := Toggled(cur), todo[idx + MARKER_LEN..];
          var shown := ConsumeMarker(rest[..idx]);
          out := out + shown;
          i := i + idx + MARKER_LEN;
          continue;
        }
        if state.Normal? {
          var shown := ForwardPlain(rest);
          out := out + shown;
        } else {
          buffered := buffered + rest;
          assert out + [] == out;
        }
        return;
      }
      assert todo == [] && out + [] == out;
    }

    /** The marker arrived after head: forward what is due and change state. */
    method ConsumeMarker(head: Bytes) returns (out: Bytes)
      modifies this`state, this`buffered
      ensures out == old(Shown(Abstract(), head, env)) && Abstract() == old(Toggled(Abstract()))
    {
      if state.Normal? {
        out := head + env.begin;
        state := InPaste;
        buffered := [];
      } else {
        buffered := buffered + head;
        out := Scanned(buffered, env.daemon);
        out := out + env.end;
        state := Normal;
        buffered := [];
      }
    }

    /** Bytes with no marker in them: a possible first half of one is noted in pending, then forwarded too. */
    method ForwardPlain(rest: Bytes) returns (out: Bytes)
      modifies this`pending
      ensures out == rest
    {
      var tail := SplitTrailingPrefix(rest, env.begin);
      if tail > 0 {
        out := rest[..|rest| - tail];
        pending := rest[|rest| - tail..];
        out := out + rest[|rest| - tail..];
        return;
      }
      out := rest;
    }
  }

  lemma AtMarker(st: State, x: Bytes, i: nat, env: Env)
    requires i == IndexFrom(x, env.Marker(st.mode), 0)
    ensures var next := Processed(Toggled(st), x[i + MARKER_LEN..], env);
      Processed(st, x, env) == (next.0, Shown(st, x[..i], env) + next.1)
  {
  }

  /** One turn of the loop: what precedes the marker and the marker go out, the rest is processed next. */
  lemma MarkerFound(st: State, x: Bytes, i: nat, env: Env, out: Bytes) returns (next: (State, Bytes))
    requires i == IndexFrom(x, env.Marker(st.mode), 0)
    ensures next == Processed(Toggled(st), x[i + MARKER_LEN..], env) && Processed(st, x, env).0 == next.0
    ensures out + Processed(st, x, env).1 == (out + Shown(st, x[..i], env)) + next.1
  {
    next := Processed(Toggled(st), x[i + MARKER_LEN..], env);
    AtMarker(st, x, i, env);
    Assoc(out, Shown(st, x[..i], env), next.1);
  }

  // ---- Chunk independence

  function TwoChunks(st: State, a: Bytes, b: Bytes, env: Env): (State, Bytes) {
    var (s1, o1) := Processed(st, a, env);
    var (s2, o2) := Processed(s1, b, env);
    (s2, o1 + o2)
  }

  /** What is left of a chunk after the last marker consumed in it, and the mode then. */
  function Tail(mode: Mode, a: Bytes, env: Env): (Mode, Bytes)
    decreases |a|
  {
    var i := IndexFrom(a, env.Marker(mode), 0);
    if a == [] || i < 0 then (mode, a)
    else Tail(if mode.Normal? then InPaste else Normal, a[i + MARKER_LEN..], env)
  }

  ghost predicate CleanCut(mode: Mode, a: Bytes, env: Env) {
    var (m, tail) := Tail(mode, a, env); !Straddles(tail, env.Marker(m))
  }

  lemma IndexInLeft(a: Bytes, b: Bytes, m: Bytes)
    requires 0 <= IndexFrom(a, m, 0)
    ensures IndexFrom(a + b, m, 0) == IndexFrom(a, m, 0)
  {
    var i := IndexFrom(a, m, 0);
    IndexFromIsLeftmost(a, m, 0);
    forall p | 0 <= p < i ensures !OccursAt(a + b, m, p) {
      assert !OccursAt(a, m, p);
    }
    assert OccursAt(a + b, m, i);
    IndexFromIs(a + b, m, 0, i);
  }

  /** An occurrence that starts in a lies in a or straddles the cut. */
  lemma StartsInLeft(a: Bytes, b: Bytes, m: Bytes, p: nat)
    requires OccursAt(a + b, m, p) && p < |a|
    ensures OccursAt(a, m, p) || SuffixIsPrefix(a, m, |a| - p)
  {
    if p + |m| <= |a| {
      forall k | 0 <= k < |m| ensures a[p + k] == m[k] { assert a[p + k] == (a + b)[p + k]; }
    } else {
      forall k | 0 <= k < |a| - p ensures a[p..][k] == m[..|a| - p][k] { assert (a + b)[p + k] == m[k]; }
    }
  }

  lemma NoneStartsInLeft(a: Bytes, b: Bytes, m: Bytes, p: nat)
    requires IndexFrom(a, m, 0) < 0 && !Straddles(a, m) && p < |a|
    ensures !OccursAt(a + b, m, p)
  {
    IndexFromIsLeftmost(a, m, 0);
    if OccursAt(a + b, m, p) {
      StartsInLeft(a, b, m, p);
    }
  }

  lemma IndexInRight(a: Bytes, b: Bytes, m: Bytes)
    requires m != [] && IndexFrom(a, m, 0) < 0 && !Straddles(a, m)
    ensures var j := IndexFrom(b, m, 0); IndexFrom(a + b, m, 0) == if j < 0 then -1 else |a| + j
  {
    var j := IndexFrom(b, m, 0);
    IndexFromIsLeftmost(b, m, 0);
    IndexFromIsLeftmost(a + b, m, 0);
    forall p: nat | p < |a| ensures !OccursAt(a + b, m, p) {
      NoneStartsInLeft(a, b, m, p);
    }
    forall p: nat | |a| <= p ensures OccursAt(a + b, m, p) <==> OccursAt(b, m, p - |a|) {}
    if 0 <= j {
      IndexFromIs(a + b, m, 0, |a| + j);
    }
  }

  lemma HeldThenShown(st: State, a: Bytes, head: Bytes, env: Env)
    ensures Passed(st, a) + Shown(Holding(st, a), head, env) == Shown(st, a + head, env)
  {
    if st.mode.Normal? {
      Assoc(a, head, env.Marker(st.mode));
    } else {
      Assoc(st.buffered, a, head);
    }
  }

  lemma HeldTwice(st: State, a: Bytes, b: Bytes)
    ensures Holding(Holding(st, a), b) == Holding(st, a + b)
    ensures Passed(st, a) + Passed(Holding(st, a), b) == Passed(st, a + b)
  {
    Assoc(st.buffered, a, b);
  }

  /** The base of chunk independence: a holds no marker and none straddles the cut. */
  lemma CutOfHeld(st: State, a: Bytes, b: Bytes, env: Env)
    requires IndexFrom(a, env.Marker(st.mode), 0) < 0 && !Straddles(a, env.Marker(st.mode)) && a != [] && b != []
    ensures TwoChunks(st, a, b, env) == Processed(st, a + b, env)
  {
    IndexInRight(a, b, env.Marker(st.mode));
    var j := IndexFrom(b, env.Marker(st.mode), 0);
    assert Processed(st, a, env) == (Holding(st, a), Passed(st, a));
    if 0 <= j {
      MarkerInRight(st, a, b, j, env);
    } else {
      HeldTwice(st, a, b);
    }
  }

  lemma AtMarkerAcross(st: State, a: Bytes, b: Bytes, j: nat, env: Env)
    requires |a| + j == IndexFrom(a + b, env.Marker(st.mode), 0) && j + MARKER_LEN <= |b|
    ensures var next := Processed(Toggled(st), b[j + MARKER_LEN..], env);
      Processed(st, a + b, env) == (next.0, Shown(st, a + b[..j], env) + next.1)
  {
    var x := a + b;
    assert x[|a| + j + MARKER_LEN..] == b[j + MARKER_LEN..] && x[..|a| + j] == a + b[..j];
    AtMarker(st, x, |a| + j, env);
  }

  lemma MarkerInRight(st: State, a: Bytes, b: Bytes, j: nat, env: Env)
    requires j == IndexFrom(b, env.Marker(st.mode), 0) && |a| + j == IndexFrom(a + b, env.Marker(st.mode), 0) && b != []
    ensures var next := Processed(Holding(st, a), b, env);
      Processed(st, a + b, env) == (next.0, Passed(st, a) + next.1)
  {
    AtMarkerAcross(st, a, b, j, env);
    AtMarker(Holding(st, a), b, j, env);
    HeldThenShown(st, a, b[..j], env);
    Assoc(Passed(st, a), Shown(Holding(st, a), b[..j], env), Processed(Toggled(st), b[j + MARKER_LEN..], env).1);
  }

  lemma {:induction false} CleanCutIndependent(st: State, a: Bytes, b: Bytes, env: Env)
    requires CleanCut(st.mode, a, env)
    ensures TwoChunks(st, a, b, env) == Processed(st, a + b, env)
    decreases |a|
  {
    var i := IndexFrom(a, env.Marker(st.mode), 0);
    if a == [] {
      assert a + b == b && [] + Processed(st, b, env).1 == Processed(st, b, env).1;
    } else if b == [] {
      assert a + b == a && Processed(st, a, env).1 + [] == Processed(st, a, env).1;
    } else if 0 <= i {
      var rest := a[i + MARKER_LEN..];
      IndexInLeft(a, b, env.Marker(st.mode));
      assert (a + b)[i + MARKER_LEN..] == rest + b && (a + b)[..i] == a[..i];
      CleanCutIndependent(Toggled(st), rest, b, env);
      var (s1, o1) := Processed(Toggled(st), rest, env);
      Assoc(Shown(st, a[..i], env), o1, Processed(s1, b, env).1);
    } else {
      CutOfHeld(st, a, b, env);
    }
  }

  lemma ShortHoldsNoMarker(x: Bytes, st: State, env: Env)
    requires |x| < MARKER_LEN
    ensures Processed(st, x, env).0.mode == st.mode
  {
  }

  lemma {:induction false} ModeIsTailMode(st: State, a: Bytes, env: Env)
    ensures Processed(st, a, env).0.mode == Tail(st.mode, a, env).0
    decreases |a|
  {
    var i := IndexFrom(a, env.Marker(st.mode), 0);
    if a != [] && 0 <= i {
      ModeIsTailMode(Toggled(st), a[i + MARKER_LEN..], env);
    }
  }

  /** The missing half of a straddling marker tells the two feedings apart by their final mode. */
  lemma {:induction false} StraddleShows(st: State, a: Bytes, n: nat, env: Env)
    requires var (m, tail) := Tail(st.mode, a, env); SuffixIsPrefix(tail, env.Marker(m), n)
    ensures Processed(st, a + env.Marker(Tail(st.mode, a, env).0)[n..], env).0.mode != Tail(st.mode, a, env).0
    decreases |a|
  {
    var m := env.Marker(st.mode);
    var b := env.Marker(Tail(st.mode, a, env).0)[n..];
    var i := IndexFrom(a, m, 0);
    if 0 <= i {
      IndexInLeft(a, b, m);
      assert (a + b)[i + MARKER_LEN..] == a[i + MARKER_LEN..] + b;
      StraddleShows(Toggled(st), a[i + MARKER_LEN..], n, env);
    } else {
      StraddleOfHeld(st, a, n, env);
    }
  }

  lemma StraddleOfHeld(st: State, a: Bytes, n: nat, env: Env)
    requires IndexFrom(a, env.Marker(st.mode), 0) < 0 && SuffixIsPrefix(a, env.Marker(st.mode), n)
    ensures Processed(st, a + env.Marker(st.mode)[n..], env).0.mode != st.mode
  {
    var m := env.Marker(st.mode);
    var x := a + m[n..];
    forall k | 0 <= k < |m| ensures x[|a| - n + k] == m[k] {
      if k < n { assert a[|a| - n..][k] == m[..n][k]; }
    }
    assert OccursAt(x, m, |a| - n);
    IndexFromIsLeftmost(a, m, 0);
    IndexFromIsLeftmost(x, m, 0);
    var j := IndexFrom(x, m, 0);
    assert j + MARKER_LEN <= |a| ==> OccursAt(a, m, j);
    ShortHoldsNoMarker(x[j + MARKER_LEN..], Toggled(st), env);
  }

  /**
   * Exactly when feeding a and then any b is the same as feeding them at once: when the unconsumed
   * tail of a ends in no proper prefix of the marker then sought, which is what a zero result of
   * splitTrailingPrefix on that tail says.
   */
  lemma ChunkIndependentExactly(st: State, a: Bytes, env: Env)
    ensures CleanCut(st.mode, a, env) <==>
      forall b :: TwoChunks(st, a, b, env) == Processed(st, a + b, env)
  {
    if CleanCut(st.mode, a, env) {
      forall b ensures TwoChunks(st, a, b, env) == Processed(st, a + b, env) {
        CleanCutIndependent(st, a, b, env);
      }
    } else {
      var (m, tail) := Tail(st.mode, a, env);
      var n :| SuffixIsPrefix(tail, env.Marker(m), n);
      var b := env.Marker(m)[n..];
      StraddleShows(st, a, n, env);
      ModeIsTailMode(st, a, env);
      ShortHoldsNoMarker(b, Processed(st, a, env).0, env);
      assert TwoChunks(st, a, b, env) != Processed(st, a + b, env);
    }
  }

  // ---- Byte conservation, for any chunking

  /** Plain bytes followed by one completed paste, and what is shown in place of its body. */
  datatype Segment = Segment(plain: Bytes, body: Bytes, shown: Bytes)

  /** What the daemon answers is shown; the body itself when the call fails, the answer is empty or there is none to ask for. */
  ghost predicate Answered(seg: Segment, daemon: Daemon) {
    && (forall red :: seg.body != [] && daemon(seg.body) == Some(red) && red != [] ==> seg.shown == red)
    && (seg.body == [] || daemon(seg.body) in {None, Some([])} ==> seg.shown == seg.body)
  }

  ghost predicate AllAnswered(segs: seq<Segment>, daemon: Daemon) {
    forall i :: 0 <= i < |segs| ==> Answered(segs[i], daemon)
  }

  /** The segment of a paste body as the filter completes it. */
  function Completed(plain: Bytes, body: Bytes, daemon: Daemon): Segment {
    Segment(plain, body, Scanned(body, daemon))
  }

  lemma CompletedAnswered(plain: Bytes, body: Bytes, daemon: Daemon)
    ensures Answered(Completed(plain, body, daemon), daemon)
  {
  }

  function Typed(seg: Segment, env: Env): Bytes {
    seg.plain + env.begin + seg.body + env.end
  }

  function Forwarded(seg: Segment, env: Env): Bytes {
    seg.plain + env.begin + seg.shown + env.end
  }

  function AllTyped(segs: seq<Segment>, env: Env): Bytes {
    if segs == [] then [] else AllTyped(segs[..|segs| - 1], env) + Typed(segs[|segs| - 1], env)
  }

  function AllForwarded(segs: seq<Segment>, env: Env): Bytes {
    if segs == [] then [] else AllForwarded(segs[..|segs| - 1], env) + Forwarded(segs[|segs| - 1], env)
  }

  /** The input consumed: the segments, then plain bytes, then an open paste if there is one. */
  function TypedSoFar(st: State, segs: seq<Segment>, plain: Bytes, env: Env): Bytes {
    AllTyped(segs, env) + plain + if st.mode.InPaste? then env.begin + st.buffered else []
  }

  /** The same with every completed body scanned and the open body, held in the buffer, left out. */
  function ForwardedSoFar(st: State, segs: seq<Segment>, plain: Bytes, env: Env): Bytes {
    AllForwarded(segs, env) + plain + if st.mode.InPaste? then env.begin else []
  }

  lemma PassPlain(segs: seq<Segment>, plain: Bytes, x: Bytes, env: Env)
    ensures TypedSoFar(State(Normal, []), segs, plain + x, env) == TypedSoFar(State(Normal, []), segs, plain, env) + x
    ensures ForwardedSoFar(State(Normal, []), segs, plain + x, env) == ForwardedSoFar(State(Normal, []), segs, plain, env) + x
  {
  }

  lemma OpenPaste(segs: seq<Segment>, plain: Bytes, env: Env)
    ensures TypedSoFar(State(InPaste, []), segs, plain, env) == TypedSoFar(State(Normal, []), segs, plain, env) + env.begin
    ensures ForwardedSoFar(State(InPaste, []), segs, plain, env) == ForwardedSoFar(State(Normal, []), segs, plain, env) + env.begin
  {
  }

  lemma BufferMore(segs: seq<Segment>, plain: Bytes, body: Bytes, x: Bytes, env: Env)
    ensures TypedSoFar(State(InPaste, body + x), segs, plain, env) == TypedSoFar(State(InPaste, body), segs, plain, env) + x
  {
  }

  lemma ClosePaste(segs: seq<Segment>, plain: Bytes, body: Bytes, env: Env)
    ensures TypedSoFar(State(Normal, []), segs + [Completed(plain, body, env.daemon)], [], env)
         == TypedSoFar(State(InPaste, body), segs, plain, env) + env.end
    ensures ForwardedSoFar(State(Normal, []), segs + [Completed(plain, body, env.daemon)], [], env)
         == ForwardedSoFar(State(InPaste, body), segs, plain, env) + Scanned(body, env.daemon) + env.end
  {
    assert (segs + [Completed(plain, body, env.daemon)])[..|segs|] == segs;
  }

  /** The factorisation is the real one: no begin marker in plain bytes, no end marker in a paste body. */
  ghost predicate Unmarked(st: State, segs: seq<Segment>, plain: Bytes, env: Env) {
    && (forall seg :: seg in segs ==> !Occurs(seg.plain, env.begin) && !Occurs(seg.body, env.end))
    && !Occurs(plain, env.begin) && (st.mode.InPaste? ==> !Occurs(st.buffered, env.end))
  }

  /** Nothing is held over from an earlier chunk. */
  predicate AtChunkStart(st: State, plain: Bytes) {
    if st.mode.Normal? then plain == [] else st.buffered == []
  }

  lemma NoneBefore(x: Bytes, m: Bytes)
    ensures var i := IndexFrom(x, m, 0); !Occurs(if i < 0 then x else x[..i], m) || m == []
  {
    IndexFromIsLeftmost(x, m, 0);
    var i := IndexFrom(x, m, 0);
    if 0 <= i && m != [] {
      forall p | OccursAt(x[..i], m, p) ensures OccursAt(x, m, p) && p < i {
        assert x[..i][p..p + |m|] == x[p..p + |m|];
      }
    }
  }

  /** The factorisation after one more chunk. */
  function Parsed(st: State, segs: seq<Segment>, plain: Bytes, x: Bytes, env: Env): (seq<Segment>, Bytes)
    decreases |x|
  {
    var i := IndexFrom(x, env.Marker(st.mode), 0);
    if x == [] || i < 0 then (segs, if st.mode.Normal? then plain + x else plain)
    else if st.mode.Normal? then Parsed(Toggled(st), segs, plain + x[..i], x[i + MARKER_LEN..], env)
    else Parsed(Toggled(st), segs + [Completed(plain, st.buffered + x[..i], env.daemon)], [], x[i + MARKER_LEN..], env)
  }

  /** One chunk moves both accounts by exactly what went in and what came out. */
  lemma {:induction false} AccountChunk(st: State, segs: seq<Segment>, plain: Bytes, x: Bytes, env: Env)
    requires st.mode.Normal? ==> st.buffered == []
    ensures var (end, out) := Processed(st, x, env);
      var (segs', plain') := Parsed(st, segs, plain, x, env);
      && (end.mode.Normal? ==> end.buffered == [])
      && TypedSoFar(end, segs', plain', env) == TypedSoFar(st, segs, plain, env) + x
      && ForwardedSoFar(end, segs', plain', env) == ForwardedSoFar(st, segs, plain, env) + out
    decreases |x|
  {
    var i := IndexFrom(x, env.Marker(st.mode), 0);
    if x == [] || i < 0 {
      if st.mode.Normal? {
        PassPlain(segs, plain, x, env);
      } else {
        BufferMore(segs, plain, st.buffered, x, env);
      }
    } else {
      IndexFromIsLeftmost(x, env.Marker(st.mode), 0);
      var head, rest := x[..i], x[i + MARKER_LEN..];
      assert x == head + env.Marker(st.mode) + rest;
      if st.mode.Normal? {
        PassPlain(segs, plain, head, env);
        OpenPaste(segs, plain + head, env);
        AccountChunk(State(InPaste, []), segs, plain + head, rest, env);
        Regroup(TypedSoFar(st, segs, plain, env), head, env.begin, rest);
        Regroup(ForwardedSoFar(st, segs, plain, env), head, env.begin, Processed(Toggled(st), rest, env).1);
      } else {
        var body := st.buffered + head;
        BufferMore(segs, plain, st.buffered, head, env);
        ClosePaste(segs, plain, body, env);
        AccountChunk(State(Normal, []), segs + [Completed(plain, body, env.daemon)], [], rest, env);
        Regroup(TypedSoFar(st, segs, plain, env), head, env.end, rest);
        Regroup(ForwardedSoFar(st, segs, plain, env), Scanned(body, env.daemon), env.end,
                Processed(Toggled(st), rest, env).1);
      }
    }
  }

  lemma {:induction false} ParsedAnswered(st: State, segs: seq<Segment>, plain: Bytes, x: Bytes, env: Env)
    requires AllAnswered(segs, env.daemon)
    ensures AllAnswered(Parsed(st, segs, plain, x, env).0, env.daemon)
    decreases |x|
  {
    var i := IndexFrom(x, env.Marker(st.mode), 0);
    if x != [] && 0 <= i {
      var head, rest := x[..i], x[i + MARKER_LEN..];
      if st.mode.Normal? {
        ParsedAnswered(Toggled(st), segs, plain + head, rest, env);
      } else {
        CompletedAnswered(plain, st.buffered + head, env.daemon);
        ParsedAnswered(Toggled(st), segs + [Completed(plain, st.buffered + head, env.daemon)], [], rest, env);
      }
    }
  }

  lemma {:induction false} ParsedUnmarked(st: State, segs: seq<Segment>, plain: Bytes, x: Bytes, env: Env)
    requires Unmarked(st, segs, plain, env) && AtChunkStart(st, plain)
    ensures var (segs', plain') := Parsed(st, segs, plain, x, env); Unmarked(Processed(st, x, env).0, segs', plain', env)
    decreases |x|
  {
    var i := IndexFrom(x, env.Marker(st.mode), 0);
    NoneBefore(x, env.Marker(st.mode));
    if x != [] && 0 <= i {
      var rest := x[i + MARKER_LEN..];
      if st.mode.Normal? {
        assert plain + x[..i] == x[..i];
        ParsedUnmarked(Toggled(st), segs, plain + x[..i], rest, env);
      } else {
        assert st.buffered + x[..i] == x[..i];
        OneMoreUnmarked(st, segs, plain, x[..i], env);
        ParsedUnmarked(Toggled(st), segs + [Completed(plain, st.buffered + x[..i], env.daemon)], [], rest, env);
      }
    } else if st.mode.Normal? {
      assert plain + x == x;
    } else {
      assert st.buffered + x == x;
    }
  }

  lemma OneMoreUnmarked(st: State, segs: seq<Segment>, plain: Bytes, body: Bytes, env: Env)
    requires Unmarked(st, segs, plain, env) && st.mode.InPaste? && st.buffered == [] && !Occurs(body, env.end)
    ensures Unmarked(Toggled(st), segs + [Completed(plain, st.buffered + body, env.daemon)], [], env)
  {
    assert st.buffered + body == body;
  }

  function Feed(st: State, chunks: seq<Bytes>, env: Env): (State, Bytes)
    decreases |chunks|
  {
    if chunks == [] then (st, [])
    else
      var (s1, o1) := Processed(st, chunks[0], env);
      var (s2, o2) := Feed(s1, chunks[1..], env);
      (s2, o1 + o2)
  }

  function Concat(chunks: seq<Bytes>): Bytes {
    if chunks == [] then [] else chunks[0] + Concat(chunks[1..])
  }

  lemma {:induction false} AccountFeed(st: State, segs: seq<Segment>, plain: Bytes, chunks: seq<Bytes>, env: Env)
    returns (segs': seq<Segment>, plain': Bytes)
    requires (st.mode.Normal? ==> st.buffered == []) && AllAnswered(segs, env.daemon)
    ensures AllAnswered(segs', env.daemon)
    ensures var (end, out) := Feed(st, chunks, env);
      && TypedSoFar(end, segs', plain', env) == TypedSoFar(st, segs, plain, env) + Concat(chunks)
      && ForwardedSoFar(end, segs', plain', env) == ForwardedSoFar(st, segs, plain, env) + out
    decreases |chunks|
  {
    segs', plain' := segs, plain;
    if chunks != [] {
      var (s1, o1) := Processed(st, chunks[0], env);
      AccountChunk(st, segs, plain, chunks[0], env);
      ParsedAnswered(st, segs, plain, chunks[0], env);
      var (s, p) := Parsed(st, segs, plain, chunks[0], env);
      segs', plain' := AccountFeed(s1, s, p, chunks[1..], env);
      Assoc(TypedSoFar(st, segs, plain, env), chunks[0], Concat(chunks[1..]));
      Assoc(ForwardedSoFar(st, segs, plain, env), o1, Feed(s1, chunks[1..], env).1);
    }
  }

  /**
   * However the input is cut into chunks, it factors into plain bytes, completed pastes and an open
   * paste, and the output is that factorisation with the daemon's answer in place of each completed body and the open one
   * held back.
   */
  lemma EveryByteAccounted(chunks: seq<Bytes>, env: Env) returns (segs: seq<Segment>, plain: Bytes)
    ensures AllAnswered(segs, env.daemon)
    ensures var (end, out) := Feed(State(Normal, []), chunks, env);
      Concat(chunks) == TypedSoFar(end, segs, plain, env) && out == ForwardedSoFar(end, segs, plain, env)
  {
    segs, plain := AccountFeed(State(Normal, []), [], [], chunks, env);
  }

  /**
   * Read in one piece, every complete paste is scanned: the output is the input with the body between each
   * begin marker and the first end marker after it replaced by the daemon's answer, and an unfinished body held back.
   */
  lemma EveryPasteScanned(x: Bytes, env: Env) returns (segs: seq<Segment>, plain: Bytes)
    ensures AllAnswered(segs, env.daemon)
    ensures var (end, out) := Processed(State(Normal, []), x, env);
      x == TypedSoFar(end, segs, plain, env) && out == ForwardedSoFar(end, segs, plain, env) && Unmarked(end, segs, plain, env)
  {
    AccountChunk(State(Normal, []), [], [], x, env);
    ParsedUnmarked(State(Normal, []), [], [], x, env);
    ParsedAnswered(State(Normal, []), [], [], x, env);
    var (s, p) := Parsed(State(Normal, []), [], [], x, env);
    segs, plain := s, p;
  }

  lemma {:induction false} UnchangedSegments(segs: seq<Segment>, env: Env)
    requires forall i :: 0 <= i < |segs| ==> segs[i].shown == segs[i].body
    ensures AllForwarded(segs, env) == AllTyped(segs, env)
  {
    if segs != [] {
      UnchangedSegments(segs[..|segs| - 1], env);
    }
  }

  /** With a daemon that changes nothing, or is down, what was forwarded plus what is buffered is the input. */
  lemma OutageConserves(chunks: seq<Bytes>, env: Env)
    requires forall body :: env.daemon(body) == None || env.daemon(body) == Some(body)
    ensures var (end, out) := Feed(State(Normal, []), chunks, env);
      Concat(chunks) == out + if end.mode.InPaste? then end.buffered else []
  {
    var segs, plain := EveryByteAccounted(chunks, env);
    UnchangedSegments(segs, env);
  }

  // ---- One whole paste

  const NORMAL := State(Normal, [])

  /** The end marker begins with the only escape byte in it, so it cannot start inside a body free of it. */
  lemma NoEndInside(body: Bytes, rest: Bytes, p: nat)
    requires !Occurs(body, PASTE_END) && p < |body|
    ensures !OccursAt(body + (PASTE_END + rest), PASTE_END, p)
  {
    var x := body + (PASTE_END + rest);
    if OccursAt(x, PASTE_END, p) {
      if p + 6 <= |body| {
        assert body[p..p + 6] == x[p..p + 6];
        assert OccursAt(body, PASTE_END, p);
      } else {
        EscapeLeads(x, p, |body| - p);
      }
    }
  }

  lemma EscapeLeads(x: Bytes, p: nat, k: nat)
    requires OccursAt(x, PASTE_END, p) && 0 < k < 6
    ensures x[p + k] != PASTE_END[0]
  {
    assert x[p..p + 6][k] == PASTE_END[k];
  }

  lemma MarkerStands(a: Bytes, m: Bytes, b: Bytes)
    ensures OccursAt(a + (m + b), m, |a|)
  {
    assert (a + (m + b))[|a|..|a| + |m|] == m;
  }

  lemma EndAfterBody(body: Bytes, rest: Bytes)
    requires !Occurs(body, PASTE_END)
    ensures IndexFrom(body + (PASTE_END + rest), PASTE_END, 0) == |body|
  {
    var x := body + (PASTE_END + rest);
    MarkerStands(body, PASTE_END, rest);
    forall p: nat | p < |body| ensures !OccursAt(x, PASTE_END, p) {
      NoEndInside(body, rest, p);
    }
    IndexFromIs(x, PASTE_END, 0, |body|);
  }

  lemma BeginsPaste(y: Bytes, env: Env)
    ensures var next := Processed(State(InPaste, []), y, env);
      Processed(NORMAL, env.begin + y, env) == (next.0, env.begin + next.1)
  {
    var x := env.begin + y;
    assert x[..6] == env.begin && x[6..] == y && x[..0] == [] && [] + env.begin == env.begin;
    IndexFromIs(x, env.begin, 0, 0);
    AtMarker(NORMAL, x, 0, env);
  }

  lemma EndsPaste(body: Bytes, rest: Bytes, env: Env)
    requires IndexFrom(body + (env.end + rest), env.end, 0) == |body|
    ensures var next := Processed(NORMAL, rest, env);
      Processed(State(InPaste, []), body + (env.end + rest), env) == (next.0, Scanned(body, env.daemon) + (env.end + next.1))
  {
    var x := body + (env.end + rest);
    assert x[..|body|] == body && x[|body| + 6..] == rest && [] + body == body;
    AtMarker(State(InPaste, []), x, |body|, env);
    Assoc(Scanned(body, env.daemon), env.end, Processed(NORMAL, rest, env).1);
  }

  /**
   * A paste typed in one piece with what follows it: between the two escape sequences that enclosed it goes out what the
   * daemon answers, or the paste itself if the call fails or the answer is empty; then typing goes on in the plain.
   */
  lemma WholePaste(body: Bytes, rest: Bytes, daemon: Daemon)
    requires body != [] && !Occurs(body, PASTE_END)
    ensures var env := Wiring(PASTE_BEGIN, PASTE_END, daemon);
      var shown := match daemon(body) case None => body case Some(red) => if red != [] then red else body;
      var next := Processed(NORMAL, rest, env);
      Processed(NORMAL, PASTE_BEGIN + (body + (PASTE_END + rest)), env) == (next.0, PASTE_BEGIN + (shown + (PASTE_END + next.1)))
  {
    var env: Env := Wiring(PASTE_BEGIN, PASTE_END, daemon);
    BeginsPaste(body + (PASTE_END + rest), env);
    EndAfterBody(body, rest);
    EndsPaste(body, rest, env);
  }
}
