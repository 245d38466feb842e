/** What a scan does to the vault, told by the matches alone: what it registers, and how, and what it leaves as it was. */
module ScanEffects {
  import opened ByteText
  import opened Sequences
  import opened Entropy
  import opened Detector
  import opened Redaction
  import opened Redactors
  import opened Scanning
  import opened OrderIndependence
  import opened History
  import V = Vault

  /** The match has its text registered: it is no known value, none passed through, and confident enough. */
  predicate Registers(policy: Policy, input: Bytes, m: Match) {
    m.source != "ac" && policy.register && m.confidence >= policy.floor && Text(input, m) !in policy.pass
  }

  // ---- Which values the vault comes to hold

  lemma AssignedKeys(s: V.State, mk: V.Derivation, policy: Policy, input: Bytes, m: Match, v: Bytes)
    requires Placing(s)
    ensures v in Assigned(s, mk, policy, input, m).0.byValue <==>
      v in s.byValue || (Registers(policy, input, m) && Text(input, m) == v)
  {
  }

  /** Besides what it held, the vault holds after a scan exactly the texts of the matches that register. */
  lemma {:induction false} RegistersExactly(s: V.State, mk: V.Derivation, policy: Policy, input: Bytes, ms: seq<Match>, v: Bytes)
    requires Placing(s)
    ensures v in AssignedAll(s, mk, policy, input, ms).0.byValue <==>
      v in s.byValue || exists m :: m in ms && Registers(policy, input, m) && Text(input, m) == v
  {
    if ms != [] {
      var n := |ms| - 1;
      RegistersExactly(s, mk, policy, input, ms[..n], v);
      AssignedAllPlaces(s, mk, policy, input, ms[..n]);
      AssignedKeys(AssignedAll(s, mk, policy, input, ms[..n]).0, mk, policy, input, ms[n], v);
      assert forall m :: m in ms <==> m in ms[..n] || m == ms[n];
    }
  }

  /** Where registration is off nothing is added, and only known values bear placeholders. */
  lemma {:induction false} NothingRegistered(s: V.State, mk: V.Derivation, policy: Policy, input: Bytes, ms: seq<Match>)
    requires !policy.register
    ensures var (t, out) := AssignedAll(s, mk, policy, input, ms);
      && t.byValue == s.byValue && t.byPH.Keys == s.byPH.Keys && t.order == s.order
      && forall w :: w in out && w.placeholder != [] ==> w.source == "ac"
  {
    if ms != [] {
      NothingRegistered(s, mk, policy, input, ms[..|ms| - 1]);
    }
  }

  /** No text passed through is added, whatever state the vault is in. */
  lemma {:induction false} PassedNotRegistered(s: V.State, mk: V.Derivation, policy: Policy, input: Bytes, ms: seq<Match>, v: Bytes)
    requires v in policy.pass
    ensures v in AssignedAll(s, mk, policy, input, ms).0.byValue ==> v in s.byValue
  {
    if ms != [] {
      PassedNotRegistered(s, mk, policy, input, ms[..|ms| - 1], v);
    }
  }

  /** A match over a text passed through gets no placeholder. */
  lemma {:induction false} PassedNotShown(s: V.State, mk: V.Derivation, policy: Policy, input: Bytes, ms: seq<Match>, sp: Span)
    requires sp in BearingSpans(AssignedAll(s, mk, policy, input, ms).1) && sp.start <= sp.end <= |input|
    ensures input[sp.start..sp.end] !in policy.pass
  {
    var out := AssignedAll(s, mk, policy, input, ms).1;
    var w :| w in out && w.placeholder != [] && sp == w.ToSpan();
    var n := |ms| - 1;
    var (t, before) := AssignedAll(s, mk, policy, input, ms[..n]);
    if w in before {
      PassedNotShown(s, mk, policy, input, ms[..n], sp);
    }
  }

  // ---- A closed vault

  lemma {:induction false} ClosedAssignsNothing(s: V.State, mk: V.Derivation, policy: Policy, input: Bytes, ms: seq<Match>)
    requires s.closed && forall m :: m in ms ==> m.source != "ac"
    ensures var (t, out) := AssignedAll(s, mk, policy, input, ms); t == s && forall w :: w in out ==> w.placeholder == []
  {
    if ms != [] {
      ClosedAssignsNothing(s, mk, policy, input, ms[..|ms| - 1]);
    }
  }

  /** A scan against a closed vault redacts nothing, whatever the stages find. */
  lemma ClosedPassesAll(s: V.State, mk: V.Derivation, st: Stages, policy: Policy, input: Bytes, t: V.State, out: Bytes)
    requires Scans(s, mk, st, policy, input, t, out) && Lawful(st) && s.closed && s.byPH == map[]
    ensures t == s && out == input
  {
    var found: seq<Match> :| ScansWith(s, mk, st, policy, input, found, t, out);
    forall m | m in found ensures m.source != "ac" {
      ReportExactly(s, st, input, found, m);
      KnownSource(V.ActiveValues(s), st, input, m);
    }
    ClosedAssignsNothing(s, mk, policy, input, found);
    var spans := BearingSpans(AssignedAll(s, mk, policy, input, found).1);
    assert spans == {};
    var kept :| Fits(kept, 0, |input|) && IsGreedy(kept, spans, 0) && out == Splice(input, kept, 0);
    assert kept == [] && input[0..] == input;
  }

  // ---- What becomes of the entries

  /** How many known matches are shown as p. */
  function Counted(mk: V.Derivation, policy: Policy, input: Bytes, ms: seq<Match>, p: Bytes): nat {
    if ms == [] then 0
    else
      var n := |ms| - 1;
      Counted(mk, policy, input, ms[..n], p)
        + if ms[n].source == "ac" && Text(input, ms[n]) !in policy.pass && mk(Text(input, ms[n])) == p then 1 else 0
  }

  /** Registering does not run into p. */
  ghost predicate NoCollision(s: V.State, mk: V.Derivation, policy: Policy, input: Bytes, ms: seq<Match>, p: Bytes) {
    forall m :: m in ms && Registers(policy, input, m) && Text(input, m) !in s.byValue ==> mk(Text(input, m)) != p
  }

  lemma MergedNothing(hosts: seq<Bytes>)
    ensures Elements(V.Merged(hosts, [])) == Elements(hosts)
  {
    MergedElements(hosts, []);
  }

  /** The entry with k more uses. */
  function Used(e: V.Entry, k: nat): Life {
    Told(e).(uses := e.uses + k)
  }

  lemma UsedMore(e: V.Entry, f: V.Entry, k: nat, more: nat)
    requires Told(f) == Used(e, k)
    ensures Used(f, more) == Used(e, k + more)
  {
    assert f.uses == Told(f).uses == e.uses + k;
  }

  lemma LifeAssigned(s: V.State, mk: V.Derivation, policy: Policy, input: Bytes, m: Match, p: Bytes)
    requires Placing(s) && p in s.byPH
    requires Registers(policy, input, m) && Text(input, m) !in s.byValue ==> mk(Text(input, m)) != p
    ensures LifeOf(Assigned(s, mk, policy, input, m).0, p) == Some(Used(s.byPH[p], Counted(mk, policy, input, [m], p)))
  {
    assert [m][..0] == [];
    if Registers(policy, input, m) && Text(input, m) in s.byValue {
      MergedNothing(s.byPH[s.byValue[Text(input, m)]].bindings);
    }
  }

  lemma CountedMore(mk: V.Derivation, policy: Policy, input: Bytes, ms: seq<Match>, p: Bytes)
    requires ms != []
    ensures Counted(mk, policy, input, ms, p)
         == Counted(mk, policy, input, ms[..|ms| - 1], p) + Counted(mk, policy, input, [ms[|ms| - 1]], p)
  {
    assert [ms[|ms| - 1]][..0] == [];
  }

  lemma NextCollides(s: V.State, mk: V.Derivation, policy: Policy, input: Bytes, ms: seq<Match>, p: Bytes)
    requires ms != [] && Placing(s) && NoCollision(s, mk, policy, input, ms, p)
    ensures var m, t := ms[|ms| - 1], AssignedAll(s, mk, policy, input, ms[..|ms| - 1]).0;
      Registers(policy, input, m) && Text(input, m) !in t.byValue ==> mk(Text(input, m)) != p
  {
    var m := ms[|ms| - 1];
    assert m in ms;
    RegistersExactly(s, mk, policy, input, ms[..|ms| - 1], Text(input, m));
  }

  /** A scan leaves the entries as they were, but counts a use for every known match shown as their placeholder. */
  lemma {:induction false} EntriesKept(s: V.State, mk: V.Derivation, policy: Policy, input: Bytes, ms: seq<Match>, p: Bytes)
    requires Placing(s) && p in s.byPH && NoCollision(s, mk, policy, input, ms, p)
    ensures LifeOf(AssignedAll(s, mk, policy, input, ms).0, p) == Some(Used(s.byPH[p], Counted(mk, policy, input, ms, p)))
  {
    if ms != [] {
      var n := |ms| - 1;
      var t := AssignedAll(s, mk, policy, input, ms[..n]).0;
      EntriesKept(s, mk, policy, input, ms[..n], p);
      AssignedAllPlaces(s, mk, policy, input, ms[..n]);
      NextCollides(s, mk, policy, input, ms, p);
      LifeAssigned(t, mk, policy, input, ms[n], p);
      CountedMore(mk, policy, input, ms, p);
      UsedMore(s.byPH[p], t.byPH[p], Counted(mk, policy, input, ms[..n], p), Counted(mk, policy, input, [ms[n]], p));
    }
  }

  /** An entry as some match of ms registers it under p: to be reviewed, bound to no host. */
  ghost predicate MadeBy(l: Life, mk: V.Derivation, policy: Policy, input: Bytes, ms: seq<Match>, p: Bytes) {
    && l.status == V.PendingReview && l.hosts == {} && mk(l.value) == p
    && exists m :: m in ms && Registers(policy, input, m) && Text(input, m) == l.value && m.kind == l.kind
                   && policy.origin + m.source == l.source
  }

  lemma MadeAssigned(s: V.State, mk: V.Derivation, policy: Policy, input: Bytes, ms: seq<Match>, m: Match, p: Bytes)
    requires Placing(s) && (p in s.byPH ==> MadeBy(Told(s.byPH[p]), mk, policy, input, ms, p))
    ensures var t := Assigned(s, mk, policy, input, m).0;
      p in t.byPH ==> MadeBy(Told(t.byPH[p]), mk, policy, input, ms + [m], p)
  {
    var t := Assigned(s, mk, policy, input, m).0;
    assert m in ms + [m] && forall x :: x in ms ==> x in ms + [m];
    if Registers(policy, input, m) && Text(input, m) in s.byValue {
      MergedNothing(s.byPH[s.byValue[Text(input, m)]].bindings);
    }
    if p in s.byPH && p in t.byPH && Told(t.byPH[p]).value == Told(s.byPH[p]).value && t.byPH[p].kind == s.byPH[p].kind {
      assert MadeBy(Told(s.byPH[p]), mk, policy, input, ms, p);
    }
  }

  /** And what it adds are entries made so. */
  lemma {:induction false} EntriesMade(s: V.State, mk: V.Derivation, policy: Policy, input: Bytes, ms: seq<Match>, p: Bytes)
    requires Placing(s) && p !in s.byPH
    ensures var t := AssignedAll(s, mk, policy, input, ms).0;
      p in t.byPH ==> MadeBy(Told(t.byPH[p]), mk, policy, input, ms, p)
  {
    if ms != [] {
      var n := |ms| - 1;
      EntriesMade(s, mk, policy, input, ms[..n], p);
      AssignedAllPlaces(s, mk, policy, input, ms[..n]);
      MadeAssigned(AssignedAll(s, mk, policy, input, ms[..n]).0, mk, policy, input, ms[..n], ms[n], p);
      assert ms[..n] + [ms[n]] == ms;
    }
  }
}
