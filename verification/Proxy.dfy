/** The proxy's scanAndRedact: the same loop with passthrough tokens and its own floor and redactor. */
module Proxy {
  import opened ByteText
  import opened Entropy
  import D = Detector
  import opened Redaction
  import opened Redactors
  import opened Scanning
  import opened OrderIndependence
  import ScanEffects
  import opened Sequences
  import opened Streaming
  import opened LiveStreaming
  import opened MemoryVault
  import V = Vault
  import Daemon

  class Server {
    const vault: MemoryVault
    const detector: D.Detector
    const pass: set<Bytes>
    const autoRegisterMinConf: real

    constructor (vault: MemoryVault, detector: D.Detector, pass: set<Bytes>, floor: real)
      ensures this.vault == vault && this.detector == detector && this.pass == pass && autoRegisterMinConf == floor
    {
      this.vault, this.detector, this.pass, autoRegisterMinConf := vault, detector, pass, floor;
    }

    function ScanPolicy(): Policy {
      Policy(true, autoRegisterMinConf, pass, "auto:proxy:")
    }

    /**
     * The range is redacted, if no overlapping one goes first: its text is no passthrough token, and it is a hit of a known
     * value or put forward by another stage with the configured confidence.
     */
    ghost predicate RedactsAt(s: V.State, payload: Bytes, i: nat, j: nat) {
      && i < j <= |payload| && payload[i..j] !in pass
      && (KnownRange(V.ActiveValues(s), payload, i, j)
          || exists m: Match :: m.start == i && m.end == j && m.confidence >= autoRegisterMinConf
                         && First(Others(detector.stages, payload), D.Key(m)) == Some(m))
    }

    /**
     * By a proxy whose vault was s the match is shown as the span: over no passthrough token, a known value under its derived
     * placeholder, another match of the configured confidence under the one its text has or gets.
     */
    predicate ShowsAs(s: V.State, payload: Bytes, m: Match, sp: Span) {
      var val := Text(payload, m);
      && val !in pass && sp.start == m.start && sp.end == m.end && sp.ph != []
      && (if m.source == "ac" then sp.ph == vault.mk(val)
          else m.confidence >= autoRegisterMinConf && sp.ph == PlacedIn(s, vault.mk, val))
    }

    /** The spans are those the matches are shown as. */
    ghost predicate ShowsAll(s: V.State, payload: Bytes, ms: seq<Match>, spans: set<Span>) {
      forall sp :: sp in spans <==> exists m :: m in ms && ShowsAs(s, payload, m, sp)
    }

    /** Those ranges, each with the placeholder its text has or gets. */
    ghost function RedactedSpans(s: V.State, payload: Bytes): set<Span> {
      set i: nat, j: nat | i < j <= |payload| && PlacedIn(s, vault.mk, payload[i..j]) != [] && RedactsAt(s, payload, i, j)
        :: Span(i, j, PlacedIn(s, vault.mk, payload[i..j]))
    }

    /** No passthrough token comes to be in the vault. */
    ghost predicate AddsNoToken(s: V.State, t: V.State) {
      forall v :: v in pass && v in t.byValue ==> v in s.byValue
    }

    ghost predicate CoversNoToken(payload: Bytes, spans: set<Span>) {
      forall sp :: sp in spans ==> sp.start < sp.end <= |payload| && payload[sp.start..sp.end] !in pass
    }

    method ScanAndRedact(payload: Bytes) returns (redacted: Bytes, found: seq<Match>)
      requires vault.Valid() && D.Lawful(detector.stages) && NoDangling(vault.State())
      modifies vault, vault.byPH.Values, detector
      ensures vault.Valid() && fresh(vault.byPH.Values - old(vault.byPH.Values))
      ensures Scanned(old(vault.State()), detector.stages, payload, found)
      ensures Replaces(old(vault.State()), vault.mk, Policy(true, autoRegisterMinConf, pass, "auto:proxy:"), payload, found,
                       vault.State(), redacted)
      ensures AddsNoToken(old(vault.State()), vault.State())
      ensures exists spans :: CoversNoToken(payload, spans) && IsRedaction(payload, spans, redacted)
      ensures Placing(old(vault.State())) && ActiveDerived(old(vault.State()), vault.mk) ==>
        IsRedaction(payload, RedactedSpans(old(vault.State()), payload), redacted)
    {
      ghost var s := vault.State();
      if |payload| == 0 {
        NothingScanned(s, detector.stages);
        NothingReplaced(s, vault.mk, ScanPolicy(), []);
        TokensSpared(s, payload, [], s, []);
        return [], [];
      }
      found := Daemon.ScanWithVault(vault, detector, payload);
      assert vault.State() == s;
      redacted := RedactFound(payload, found);
      TokensSpared(s, payload, found, vault.State(), redacted);
    }

    /** What the policy of the loop means for the server's own settings. */
    lemma TokensSpared(s: V.State, payload: Bytes, found: seq<Match>, t: V.State, redacted: Bytes)
      requires D.Lawful(detector.stages) && Scanned(s, detector.stages, payload, found)
      requires Replaces(s, vault.mk, ScanPolicy(), payload, found, t, redacted)
      ensures AddsNoToken(s, t) && exists spans :: CoversNoToken(payload, spans) && IsRedaction(payload, spans, redacted)
      ensures Placing(s) && ActiveDerived(s, vault.mk) ==> IsRedaction(payload, RedactedSpans(s, payload), redacted)
    {
      ScanInBounds(s, detector.stages, payload, found);
      SpansSpareTokens(s, payload, found);
      forall v | v in pass ensures v in t.byValue ==> v in s.byValue {
        ScanEffects.PassedNotRegistered(s, vault.mk, ScanPolicy(), payload, found, v);
      }
      if Placing(s) && ActiveDerived(s, vault.mk) {
        var ph := text => PlacedIn(s, vault.mk, text);
        ScanSpans(s, vault.mk, ph, detector.stages, ScanPolicy(), payload, found);
        SpansAsSet(s, payload, ph);
      }
    }

    lemma SpansSpareTokens(s: V.State, payload: Bytes, found: seq<Match>)
      requires forall m :: m in found ==> m.start < m.end <= |payload|
      ensures CoversNoToken(payload, BearingSpans(AssignedAll(s, vault.mk, ScanPolicy(), payload, found).1))
    {
      WiresInBounds(s, vault.mk, ScanPolicy(), payload, found);
      var spans := BearingSpans(AssignedAll(s, vault.mk, ScanPolicy(), payload, found).1);
      forall sp | sp in spans ensures sp.start < sp.end <= |payload| && payload[sp.start..sp.end] !in pass {
        ScanEffects.PassedNotShown(s, vault.mk, ScanPolicy(), payload, found, sp);
      }
    }

    lemma SpansAsShown(s: V.State, payload: Bytes, ms: seq<Match>)
      ensures Placing(s) ==> ShowsAll(s, payload, ms, BearingSpans(AssignedAll(s, vault.mk, ScanPolicy(), payload, ms).1))
    {
      var out := AssignedAll(s, vault.mk, ScanPolicy(), payload, ms).1;
      if Placing(s) {
        AllAssigned(s, vault.mk, ScanPolicy(), payload, ms);
        forall sp ensures sp in BearingSpans(out) <==> exists m :: m in ms && ShowsAs(s, payload, m, sp) {
          BearingIsFunction(s, vault.mk, ScanPolicy(), payload, ms, out, sp);
          forall m ensures ShowsAs(s, payload, m, sp) <==> SpanOfMatch(s, vault.mk, ScanPolicy(), payload, m, sp) {}
        }
      }
    }

    lemma SpansAsSet(s: V.State, payload: Bytes, ph: V.Derivation)
      requires Places(s, vault.mk, ph)
      ensures RedactedSpans(s, payload) == LiveSpans(ph, detector.stages, ScanPolicy(), V.ActiveValues(s), payload)
    {
      forall i: nat, j: nat
        ensures RedactsAt(s, payload, i, j) <==> LiveAt(V.ActiveValues(s), detector.stages, ScanPolicy(), payload, i, j)
      {
        if m: Match :| First(Others(detector.stages, payload), D.Key(m)) == Some(m) && m.start == i && m.end == j
                       && m.confidence >= autoRegisterMinConf
        {
          assert PutForward(detector.stages, ScanPolicy(), payload, i, j, m);
        }
      }
    }

    method RedactFound(payload: Bytes, found: seq<Match>) returns (redacted: Bytes)
      requires vault.Valid() && NoDangling(vault.State()) && forall m :: m in found ==> m.start < m.end <= |payload|
      modifies vault, vault.byPH.Values
      ensures vault.Valid() && fresh(vault.byPH.Values - old(vault.byPH.Values))
      ensures Replaces(old(vault.State()), vault.mk, ScanPolicy(), payload, found, vault.State(), redacted)
    {
      WiresInBounds(vault.State(), vault.mk, ScanPolicy(), payload, found);
      ghost var wires;
      var spans: seq<Span>;
      spans, wires := CollectSpans(payload, found);
      SpansInBounds(payload, spans, wires);
      redacted := RewriteSpans(payload, spans);
    }

    /** Reads a line, scans and redacts it, writes it, against whatever vault the lines before it left. */
    method StreamResponse(body: Bytes) returns (out: Bytes)
      requires vault.Valid() && D.Lawful(detector.stages) && NoDangling(vault.State())
      modifies vault, vault.byPH.Values, detector
      ensures vault.Valid() && AddsNoToken(old(vault.State()), vault.State())
      ensures Streams(old(vault.State()), vault.mk, detector.stages, Policy(true, autoRegisterMinConf, pass, "auto:proxy:"),
                      body, vault.State(), out)
    {
      ghost var s, st := vault.State(), detector.stages;
      out := [];
      var left := body;
      StreamStart(s, vault.mk, st, ScanPolicy(), body);
      while left != []
        modifies vault, vault.byPH.Values, detector
        invariant vault.Valid() && NoDangling(vault.State()) && fresh(vault.byPH.Values - old(vault.byPH.Values))
        invariant Leads(s, vault.mk, st, ScanPolicy(), body, vault.State(), out, left)
        invariant AddsNoToken(s, vault.State())
        decreases |left|
      {
        ghost var before := vault.State();
        var n := LineLength(left);
        var line, found := ScanAndRedact(left[..n]);
        AssignedAllSafe(before, vault.mk, ScanPolicy(), left[..n], found);
        assert ScansWith(before, vault.mk, st, ScanPolicy(), left[..n], found, vault.State(), line);
        StreamStep(s, vault.mk, st, ScanPolicy(), body, before, out, left, vault.State(), line);
        out := out + line;
        left := left[n..];
      }
      StreamEnd(s, vault.mk, st, ScanPolicy(), body, vault.State(), out);
    }

    method RewriteSpans(payload: Bytes, spans: seq<Span>) returns (redacted: Bytes)
      requires forall sp :: sp in spans ==> sp.start < sp.end <= |payload| && sp.ph != []
      ensures IsRedaction(payload, (set sp | sp in spans), redacted)
    {
      if |spans| == 0 {
        NothingToRedact(payload, (set sp | sp in spans));
        return payload;
      }
      var a := new Span[|spans|](i requires 0 <= i < |spans| => spans[i]);
      assert a[..] == spans;
      redacted := Rewrite(payload, a);
    }

    /** The match loop: only matches that get a placeholder become spans. */
    method CollectSpans(payload: Bytes, ms: seq<Match>) returns (spans: seq<Span>, ghost wires: seq<WireMatch>)
      requires vault.Valid() && NoDangling(vault.State()) && forall m :: m in ms ==> m.start < m.end <= |payload|
      modifies vault, vault.byPH.Values
      ensures vault.Valid() && fresh(vault.byPH.Values - old(vault.byPH.Values))
      ensures (vault.State(), wires) == AssignedAll(old(vault.State()), vault.mk, ScanPolicy(), payload, ms)
      ensures BearingSpans(wires) == (set sp | sp in spans) && CoversNoToken(payload, (set sp | sp in spans))
      ensures Placing(old(vault.State())) ==> ShowsAll(old(vault.State()), payload, ms, (set sp | sp in spans))
    {
      SpansSpareTokens(vault.State(), payload, ms);
      SpansAsShown(vault.State(), payload, ms);
      ghost var s := vault.State();
      spans, wires := [], [];
      for i := 0 to |ms|
        modifies vault, vault.byPH.Values
        invariant vault.Valid() && fresh(vault.byPH.Values - old(vault.byPH.Values))
        invariant (vault.State(), wires) == AssignedAll(s, vault.mk, ScanPolicy(), payload, ms[..i])
        invariant BearingSpans(wires) == (set sp | sp in spans)
      {
        var m := ms[i];
        assert m in ms && ms[..i + 1][..i] == ms[..i];
        AssignedAllSafe(s, vault.mk, ScanPolicy(), payload, ms[..i]);
        var ph := AssignPlaceholder(payload, m);
        OneMoreBearing(wires, m, ph);
        wires := wires + [Wire(m, ph)];
        if ph == [] {
          continue;
        }
        spans := spans + [Span(m.start, m.end, ph)];
      }
      assert ms[..|ms|] == ms;
    }

    /** The body of the match loop. */
    method AssignPlaceholder(payload: Bytes, m: Match) returns (ph: Bytes)
      requires vault.Valid() && NoDangling(vault.State()) && m.start < m.end <= |payload|
      modifies vault, vault.byPH.Values
      ensures vault.Valid() && fresh(vault.byPH.Values - old(vault.byPH.Values))
      ensures (vault.State(), ph) == Assigned(old(vault.State()), vault.mk, ScanPolicy(), payload, m)
    {
      var val := payload[m.start..m.end];
      ph := [];
      if val in pass {
        return;
      }
      if m.source == "ac" {
        ph := vault.mk(val);
        vault.MarkUse(ph);
      } else if m.confidence >= autoRegisterMinConf {
        AssignedSafe(vault.State(), vault.mk, ScanPolicy(), payload, m);
        var e := vault.Register(val, m.kind, "auto:proxy:" + m.source, []);
        if e.Gives? {
          ph := e.e.placeholder;
        }
      }
    }
  }

  lemma SpansInBounds(payload: Bytes, spans: seq<Span>, wires: seq<WireMatch>)
    requires BearingSpans(wires) == (set sp | sp in spans)
    requires forall w :: w in wires ==> w.start < w.end <= |payload|
    ensures forall sp :: sp in spans ==> sp.start < sp.end <= |payload| && sp.ph != []
  {
    forall sp | sp in spans ensures sp.start < sp.end <= |payload| && sp.ph != [] {
      assert sp in BearingSpans(wires);
    }
  }

  lemma OneMoreBearing(wires: seq<WireMatch>, m: Match, ph: Bytes)
    ensures BearingSpans(wires + [Wire(m, ph)]) == BearingSpans(wires) + if ph == [] then {} else {Span(m.start, m.end, ph)}
  {
    var all := wires + [Wire(m, ph)];
    forall sp ensures sp in BearingSpans(all) <==>
      sp in BearingSpans(wires) || (ph != [] && sp == Span(m.start, m.end, ph))
    {
      assert forall w :: w in all <==> w in wires || w == Wire(m, ph);
      if ph != [] && sp == Span(m.start, m.end, ph) {
        assert Wire(m, ph) in all && Wire(m, ph).ToSpan() == sp;
      }
    }
  }

  // ---- The streaming loop

  /** Having written out and with left to read, the loop in vault state u completes to a stream of body. */
  ghost predicate Leads(s: V.State, mk: V.Derivation, st: D.Stages, policy: Policy, body: Bytes, u: V.State,
                        out: Bytes, left: Bytes) {
    forall t, rest :: Streams(u, mk, st, policy, left, t, rest) ==> Streams(s, mk, st, policy, body, t, out + rest)
  }

  lemma StreamStart(s: V.State, mk: V.Derivation, st: D.Stages, policy: Policy, body: Bytes)
    ensures Leads(s, mk, st, policy, body, s, [], body)
  {
    assert forall rest: Bytes :: [] + rest == rest;
  }

  lemma StreamStep(s: V.State, mk: V.Derivation, st: D.Stages, policy: Policy, body: Bytes, u: V.State, out: Bytes, left: Bytes,
                   v: V.State, line: Bytes)
    requires left != [] && Leads(s, mk, st, policy, body, u, out, left)
    requires Scans(u, mk, st, policy, left[..LineLength(left)], v, line)
    ensures Leads(s, mk, st, policy, body, v, out + line, left[LineLength(left)..])
  {
    forall t, rest | Streams(v, mk, st, policy, left[LineLength(left)..], t, rest)
      ensures Streams(s, mk, st, policy, body, t, out + line + rest)
    {
      assert StreamsBy(u, mk, st, policy, left, v, line, rest, t);
      assert Streams(u, mk, st, policy, left, t, line + rest);
      Assoc(out, line, rest);
    }
  }

  lemma StreamEnd(s: V.State, mk: V.Derivation, st: D.Stages, policy: Policy, body: Bytes, u: V.State, out: Bytes)
    requires Leads(s, mk, st, policy, body, u, out, [])
    ensures Streams(s, mk, st, policy, body, u, out)
  {
    assert Streams(u, mk, st, policy, [], u, []);
    assert out + [] == out;
  }
}
