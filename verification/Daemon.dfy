/** The daemon's scan and resolve handlers, over the live vault. */
module Daemon {
  import opened ByteText
  import opened Entropy
  import D = Detector
  import opened Redaction
  import opened Redactors
  import opened Scanning
  import opened OrderIndependence
  import ScanEffects
  import opened Hosts
  import opened MemoryVault
  import V = Vault
  import Restore

  function ScanPolicy(autoRegister: bool): Policy {
    Policy(autoRegister, 0.85, {}, "auto:")
  }

  /** Hands the detector the vault's active values, whatever order the map yields them in. */
  method Synchronise(vault: MemoryVault, detector: D.Detector)
    requires vault.Valid()
    modifies detector
    ensures detector.Valid() && Holds(detector.values, vault.State())
  {
    var vs := vault.Values();
    detector.SetExactValues(vs);
    forall v ensures v in detector.values <==> v in vs && v != [] {
      D.NonEmptyExactly(vs, v);
    }
  }

  /** Synchronises the detector, then scans. */
  method ScanWithVault(vault: MemoryVault, detector: D.Detector, input: Bytes) returns (found: seq<Match>)
    requires vault.Valid() && D.Lawful(detector.stages)
    modifies detector
    ensures Scanned(vault.State(), detector.stages, input, found)
    ensures forall m :: m in found ==> m.start < m.end <= |input|
  {
    Synchronise(vault, detector);
    ghost var dict := detector.values;
    assert D.NamesPresent(dict, input, detector.stages.acMatch(dict, input));
    found := detector.Scan(input);
    assert HoldsAndReports(dict, vault.State(), detector.stages, input, found);
    ScanInBounds(vault.State(), detector.stages, input, found);
  }

  class Server {
    const vault: MemoryVault
    const detector: D.Detector

    constructor (vault: MemoryVault, detector: D.Detector)
      ensures this.vault == vault && this.detector == detector
    {
      this.vault, this.detector := vault, detector;
    }

    /**
     * What a match is shown as by a daemon whose vault was s: a known value under its derived placeholder, another match of
     * confidence 0.85 or more, if registering is asked for, under the one its text has or gets, anything else not at all.
     */
    function ShownAs(s: V.State, raw: Bytes, m: Match, autoRegister: bool): Bytes {
      if m.source == "ac" then vault.mk(Text(raw, m))
      else if autoRegister && m.confidence >= 0.85 then PlacedIn(s, vault.mk, Text(raw, m))
      else []
    }

    /** Every match is sent as found, with what it is shown as. */
    ghost predicate Sends(s: V.State, raw: Bytes, found: seq<Match>, autoRegister: bool, matches: seq<WireMatch>) {
      |matches| == |found| && forall i :: 0 <= i < |found| ==>
        var m := found[i];
        matches[i] == WireMatch(m.start, m.end, m.kind, m.source, m.confidence, ShownAs(s, raw, m, autoRegister))
    }

    /** Without registering no entry is made and only known values are shown as placeholders. */
    ghost predicate AddsNothing(s: V.State, t: V.State, matches: seq<WireMatch>) {
      && t.byValue == s.byValue && t.byPH.Keys == s.byPH.Keys
      && forall w :: w in matches && w.placeholder != [] ==> w.source == "ac"
    }

    /** Scans, registers what it may, and redacts; found is what the detector reported on the way. */
    method HandleScan(raw: Bytes, autoRegister: bool) returns (matches: seq<WireMatch>, redacted: Bytes, found: seq<Match>)
      requires vault.Valid() && D.Lawful(detector.stages) && NoDangling(vault.State())
      modifies vault, vault.byPH.Values, detector
      ensures vault.Valid()
      ensures Scanned(old(vault.State()), detector.stages, raw, found)
      ensures (vault.State(), matches) ==
        AssignedAll(old(vault.State()), vault.mk, Policy(autoRegister, 0.85, {}, "auto:"), raw, found)
      ensures Placing(old(vault.State())) ==> Sends(old(vault.State()), raw, found, autoRegister, matches)
      ensures !autoRegister ==> AddsNothing(old(vault.State()), vault.State(), matches)
      ensures IsRedaction(raw, BearingSpans(matches), redacted)
    {
      ghost var s := vault.State();
      found := ScanWithVault(vault, detector, raw);
      SendsAsAssigned(s, raw, found, autoRegister);
      matches, redacted := RedactFound(raw, found, autoRegister);
    }

    method RedactFound(raw: Bytes, found: seq<Match>, autoRegister: bool) returns (matches: seq<WireMatch>, redacted: Bytes)
      requires vault.Valid() && NoDangling(vault.State()) && forall m :: m in found ==> m.start < m.end <= |raw|
      modifies vault, vault.byPH.Values
      ensures vault.Valid()
      ensures (vault.State(), matches) == AssignedAll(old(vault.State()), vault.mk, ScanPolicy(autoRegister), raw, found)
      ensures IsRedaction(raw, BearingSpans(matches), redacted)
    {
      matches := AssignMatches(raw, found, autoRegister);
      redacted := RedactInPlace(raw, matches);
    }

    lemma SendsAsAssigned(s: V.State, raw: Bytes, found: seq<Match>, autoRegister: bool)
      ensures var (t, matches) := AssignedAll(s, vault.mk, ScanPolicy(autoRegister), raw, found);
        && (Placing(s) ==> Sends(s, raw, found, autoRegister, matches))
        && (!autoRegister ==> AddsNothing(s, t, matches))
    {
      var policy := ScanPolicy(autoRegister);
      if Placing(s) {
        AllAssigned(s, vault.mk, policy, raw, found);
      }
      if !autoRegister {
        ScanEffects.NothingRegistered(s, vault.mk, policy, raw, found);
      }
    }

    /** The match loop, registering as it goes. */
    method AssignMatches(raw: Bytes, ms: seq<Match>, autoRegister: bool) returns (matches: seq<WireMatch>)
      requires vault.Valid() && NoDangling(vault.State()) && forall m :: m in ms ==> m.start < m.end <= |raw|
      modifies vault, vault.byPH.Values
      ensures vault.Valid()
      ensures (vault.State(), matches) == AssignedAll(old(vault.State()), vault.mk, ScanPolicy(autoRegister), raw, ms)
      ensures forall w :: w in matches ==> w.start < w.end <= |raw|
    {
      WiresInBounds(vault.State(), vault.mk, ScanPolicy(autoRegister), raw, ms);
      ghost var s := vault.State();
      matches := [];
      for i := 0 to |ms|
        modifies vault, vault.byPH.Values
        invariant vault.Valid() && fresh(vault.byPH.Values - old(vault.byPH.Values))
        invariant (vault.State(), matches) == AssignedAll(s, vault.mk, ScanPolicy(autoRegister), raw, ms[..i])
      {
        var m := ms[i];
        assert m in ms && ms[..i + 1][..i] == ms[..i];
        AssignedAllSafe(s, vault.mk, ScanPolicy(autoRegister), raw, ms[..i]);
        var placeholder := AssignPlaceholder(raw, m, autoRegister);
        matches := matches + [Wire(m, placeholder)];
      }
      assert ms[..|ms|] == ms;
    }

    /** The body of the match loop. */
    method AssignPlaceholder(raw: Bytes, m: Match, autoRegister: bool) returns (placeholder: Bytes)
      requires vault.Valid() && NoDangling(vault.State()) && m.start < m.end <= |raw|
      modifies vault, vault.byPH.Values
      ensures vault.Valid() && fresh(vault.byPH.Values - old(vault.byPH.Values))
      ensures (vault.State(), placeholder) == Assigned(old(vault.State()), vault.mk, ScanPolicy(autoRegister), raw, m)
    {
      var val := raw[m.start..m.end];
      placeholder := [];
      if m.source == "ac" {
        placeholder := vault.mk(val);
        vault.MarkUse(placeholder);
      } else if autoRegister && m.confidence >= 0.85 {
        AssignedSafe(vault.State(), vault.mk, ScanPolicy(autoRegister), raw, m);
        var e := vault.Register(val, m.kind, "auto:" + m.source, []);
        if e.Gives? {
          placeholder := e.e.placeholder;
        }
      }
    }

    /** Resolves for one host and counts the use. */
    method HandleResolve(ph: Bytes, host: Bytes) returns (r: Restore.Reply)
      requires vault.Valid()
      modifies vault.byPH.Values
      ensures vault.Valid() && r == Reply(old(vault.State()), ph, host)
      ensures var s := old(vault.State());
        r == if s.closed then Restore.OtherError
             else if ph !in s.byPH then Restore.NotFound
             else if BoundFor(s.byPH[ph].bindings, host) then Restore.Value(s.byPH[ph].value)
             else Restore.NotBound
      ensures vault.State() == if r.Value? then old(V.Apply(vault.State(), V.MarkUse(ph), vault.mk)).0 else old(vault.State())
    {
      ReplyExactly(vault.State(), ph, host);
      var res := vault.Resolve(ph, host);
      match res {
        case Refused(NotFound) => r := Restore.NotFound;
        case Refused(BindingMismatch) => r := Restore.NotBound;
        case Refused(Closed) => r := Restore.OtherError;
        case Value(v) =>
          vault.MarkUse(ph);
          r := Restore.Value(v);
      }
    }
  }

  /** What the hook makes of the daemon's answer: it tells errors apart by their text. */
  function Reply(s: V.State, ph: Bytes, host: Bytes): Restore.Reply {
    match V.Resolve(s, ph, host)
    case Refused(NotFound) => Restore.NotFound
    case Refused(BindingMismatch) => Restore.NotBound
    case Refused(Closed) => Restore.OtherError
    case Value(v) => Restore.Value(v)
  }

  ghost predicate BoundFor(bindings: seq<Bytes>, host: Bytes) {
    exists pat :: pat in bindings && Admits(pat, host)
  }

  lemma ReplyExactly(s: V.State, ph: Bytes, host: Bytes)
    ensures Reply(s, ph, host) ==
      if s.closed then Restore.OtherError
      else if ph !in s.byPH then Restore.NotFound
      else if BoundFor(s.byPH[ph].bindings, host) then Restore.Value(s.byPH[ph].value)
      else Restore.NotBound
  {
    forall pat ensures MatchHost(pat, host) <==> Admits(pat, host) { MatchesAsAdmits(pat, host); }
  }

  function Resolver(s: V.State): (Bytes, Bytes) -> Restore.Reply {
    (ph, host) => Reply(s, ph, host)
  }

  // ---- Redact, then restore, end to end

  /** Some host of the command is admitted by some binding of the entry. */
  ghost predicate BoundTo(s: V.State, ph: Bytes, hosts: seq<Bytes>) {
    exists i :: 0 <= i < |hosts| && V.Resolve(s, ph, hosts[i]).Value?
  }

  lemma {:induction false} LookupBound(s: V.State, ph: Bytes, hosts: seq<Bytes>, text: Bytes)
    requires Refers(s, ph, text) && text != [] && !s.closed && BoundTo(s, ph, hosts)
    ensures Restore.LookupOn(ph, hosts, Resolver(s)) == Restore.Found(text)
  {
    var i :| 0 <= i < |hosts| && V.Resolve(s, ph, hosts[i]).Value?;
    if V.Resolve(s, ph, hosts[0]).Value? {
    } else {
      assert hosts[1..][i - 1] == hosts[i];
      LookupBound(s, ph, hosts[1..], text);
    }
  }

  /**
   * End to end: redact a text with the daemon, then run it through the hook against any later vault that
   * keeps those entries and binds them to a host of the command, and the original comes back exactly.
   */
  lemma RedactThenRestore(s: V.State, mk: V.Derivation, st: D.Stages, policy: Policy, text: Bytes, found: seq<Match>,
                          values: iset<Bytes>, redacted: Bytes, later: V.State, hosts: seq<Bytes>)
    requires Scanned(s, st, text, found) && D.Lawful(st) && Sound(s, mk, values) && V.DerivesPlaceholders(mk)
    requires ChosenIn(policy, text, found, values)
    requires var (t, out) := AssignedAll(s, mk, policy, text, found);
      && IsRedaction(text, BearingSpans(out), redacted)
      && Extends(later, t) && !later.closed
      && forall w :: w in out && w.placeholder != [] ==> BoundTo(later, w.placeholder, hosts)
    requires Restore.StrayFree(text)
    ensures Restore.Substituted(redacted, hosts, Resolver(later)) == Restore.Ok(text)
  {
    var (t, out) := AssignedAll(s, mk, policy, text, found);
    var kept: seq<Span> :| Fits(kept, 0, |text|) && IsGreedy(kept, BearingSpans(out), 0) && redacted == Splice(text, kept, 0);
    ScanRefers(s, mk, st, policy, text, found, values);
    ScanInBounds(s, st, text, found);
    WiresInBounds(s, mk, policy, text, found);
    WiresMirror(s, mk, policy, text, found);
    GreedyOrdered(kept, BearingSpans(out), 0, |text|);
    forall i | 0 <= i < |kept|
      ensures IsPlaceholder(kept[i].ph)
      ensures Restore.LookupOn(kept[i].ph, hosts, Resolver(later)) == Restore.Found(Covered(text, kept[i]))
    {
      KeptResolves(t, mk, text, found, out, kept[i], later, hosts);
    }
    Restore.RestoreIdentity(text, kept, hosts, Resolver(later));
  }

  lemma KeptResolves(t: V.State, mk: V.Derivation, text: Bytes, found: seq<Match>, out: seq<WireMatch>, k: Span,
                     later: V.State, hosts: seq<Bytes>)
    requires V.DerivesPlaceholders(mk) && AllRefer(t, mk, text, found, out) && MirrorsAll(found, out)
    requires k in BearingSpans(out) && k.start < k.end <= |text| && Extends(later, t) && !later.closed
    requires forall w :: w in out && w.placeholder != [] ==> BoundTo(later, w.placeholder, hosts)
    ensures IsPlaceholder(k.ph) && Restore.LookupOn(k.ph, hosts, Resolver(later)) == Restore.Found(Covered(text, k))
  {
    var w :| w in out && w.placeholder != [] && k == w.ToSpan();
    var i :| 0 <= i < |out| && out[i] == w;
    assert Refers(later, k.ph, Covered(text, k));
    LookupBound(later, k.ph, hosts, Covered(text, k));
  }
}
