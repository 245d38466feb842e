/** The vault file: `NLKVAULT` | version | nonce | ciphertext of the marshalled payload. */
module Blob {
  import opened ByteText
  import V = Vault
  import opened SaveProtocol

  // "NLKVAULT"
  const MAGIC: Bytes := [78, 76, 75, 86, 65, 85, 76, 84]
  const VERSION: byte := 1
  const NONCE_SIZE := 12

  datatype Payload = Payload(secretHex: Bytes, entries: Image)

  /**
   * JSON and AES-GCM under the vault's key, as abstract codecs. Marshalling cleans strings: bytes that are no valid
   * UTF-8 are replaced.
   */
  datatype Codec = Codec(
    clean: Bytes -> Bytes,
    marshal: Payload -> Bytes,
    unmarshal: Bytes -> Option<Payload>,
    unmarshalLegacy: Bytes -> Option<Image>,
    seal: (Bytes, Bytes) -> Bytes,
    unseal: (Bytes, Bytes) -> Option<Bytes>)

  function CleanAll(s: seq<Bytes>, clean: Bytes -> Bytes): (r: seq<Bytes>)
    ensures |r| == |s| && forall i :: 0 <= i < |s| ==> r[i] == clean(s[i])
  {
    seq(|s|, i requires 0 <= i < |s| => clean(s[i]))
  }

  function CleanEntry(e: V.Entry, clean: Bytes -> Bytes): V.Entry {
    e.(placeholder := clean(e.placeholder), value := clean(e.value), bindings := CleanAll(e.bindings, clean))
  }

  function Cleaned(entries: Image, clean: Bytes -> Bytes): (r: Image)
    ensures |r| == |entries| && forall i :: 0 <= i < |entries| ==> r[i] == CleanEntry(entries[i], clean)
  {
    seq(|entries|, i requires 0 <= i < |entries| => CleanEntry(entries[i], clean))
  }

  /**
   * Decoding undoes encoding but for the cleaning of strings, which leaves clean strings and hexadecimal ones as they
   * are, and a marshalled payload, an object, is no legacy array.
   */
  ghost predicate Lawful(c: Codec) {
    && (forall p :: c.unmarshal(c.marshal(p)) == Some(Payload(c.clean(p.secretHex), Cleaned(p.entries, c.clean))))
    && (forall p :: c.unmarshalLegacy(c.marshal(p)) == None)
    && (forall nonce, x :: c.unseal(nonce, c.seal(nonce, x)) == Some(x))
    && (forall x :: CleanStays(c, x)) && (forall x :: c.clean(HexEncode(x)) == HexEncode(x))
  }

  ghost predicate CleanStays(c: Codec, x: Bytes) {
    c.clean(c.clean(x)) == c.clean(x)
  }

  // ---- Hexadecimal

  function HexDigit(n: nat): byte
    requires n < 16
  {
    if n < 10 then (48 + n) as byte else (87 + n) as byte
  }

  /** Decoding accepts both letter cases. */
  function HexValue(b: byte): Option<nat> {
    if 48 <= b <= 57 then Some(b as nat - 48)
    else if 97 <= b <= 102 then Some(b as nat - 87)
    else if 65 <= b <= 70 then Some(b as nat - 55)
    else None
  }

  function HexEncode(s: Bytes): Bytes {
    if s == [] then [] else [HexDigit(s[0] as nat / 16), HexDigit(s[0] as nat % 16)] + HexEncode(s[1..])
  }

  function HexDecode(s: Bytes): Option<Bytes> {
    if s == [] then Some([])
    else if |s| == 1 then None
    else match (HexValue(s[0]), HexValue(s[1]), HexDecode(s[2..]))
      case (Some(h), Some(l), Some(rest)) => if h < 16 && l < 16 then Some([(16 * h + l) as byte] + rest) else None
      case _ => None
  }

  lemma HexDigitValue(n: nat)
    requires n < 16
    ensures HexValue(HexDigit(n)) == Some(n)
  {
  }

  lemma {:induction false} HexRoundTrip(s: Bytes)
    ensures HexDecode(HexEncode(s)) == Some(s)
  {
    if s != [] {
      HexRoundTrip(s[1..]);
      var b, h := s[0] as nat, HexEncode(s);
      HexDigitValue(b / 16);
      HexDigitValue(b % 16);
      assert h[2..] == HexEncode(s[1..]) && 16 * (b / 16) + b % 16 == b;
      assert [s[0]] + s[1..] == s;
    }
  }

  // ---- Save and load

  /** The file that holds an image. */
  function FileOf(entries: Image, secret: Bytes, nonce: Bytes, c: Codec): Bytes {
    MAGIC + [VERSION] + nonce + c.seal(nonce, c.marshal(Payload(HexEncode(secret), entries)))
  }

  function SavedBlob(s: V.State, secret: Bytes, nonce: Bytes, c: Codec): Bytes {
    FileOf(Persisted(s), secret, nonce, c)
  }

  datatype LoadError = Truncated | BadMagic | BadVersion | Decrypt | BadSecret | Unmarshal

  datatype LoadResult = Loaded(state: V.State, secret: Bytes, marksDirty: bool) | LoadFails(error: LoadError)

  function Max(a: nat, b: nat): nat { if a < b then b else a }

  function WithEntry(t: V.State, e: V.Entry): V.State {
    V.State(t.byPH[e.placeholder := e], t.byValue[e.value := e.placeholder], t.order + [e.placeholder],
            Max(t.nextID, e.id), false)
  }

  /** The maps after reading entries from the front. */
  function Filled(entries: Image): V.State {
    if entries == [] then V.EMPTY
    else
      var n := |entries| - 1;
      var s, e := Filled(entries[..n]), entries[n];
      WithEntry(s, e)
  }

  /** newSecret is the random secret made when the file holds none. */
  function LoadedFrom(raw: Bytes, newSecret: Bytes, c: Codec): LoadResult {
    if |raw| < |MAGIC| + 1 + NONCE_SIZE then LoadFails(Truncated)
    else if raw[..8] != MAGIC then LoadFails(BadMagic)
    else if raw[8] != VERSION then LoadFails(BadVersion)
    else
      match c.unseal(raw[9..21], raw[21..])
      case None => LoadFails(Decrypt)
      case Some(plaintext) =>
        var payload := c.unmarshal(plaintext);
        if payload.Some? && payload.value.secretHex != [] then
          match HexDecode(payload.value.secretHex)
          case None => LoadFails(BadSecret)
          case Some(secret) => Loaded(Filled(payload.value.entries), secret, false)
        else
          match c.unmarshalLegacy(plaintext)
          case None => LoadFails(Unmarshal)
          case Some(entries) => Loaded(Filled(entries), newSecret, true)
  }

  /** The filling loop of load. */
  method Fill(entries: Image) returns (s: V.State)
    ensures s == Filled(entries)
  {
    var byPH: map<Bytes, V.Entry>, byValue: map<Bytes, Bytes>, order: seq<Bytes>, nextID: nat := map[], map[], [], 0;
    for i := 0 to |entries|
      invariant V.State(byPH, byValue, order, nextID, false) == Filled(entries[..i])
    {
      var e := entries[i];
      assert entries[..i + 1][..i] == entries[..i];
      byPH := byPH[e.placeholder := e];
      byValue := byValue[e.value := e.placeholder];
      order := order + [e.placeholder];
      if e.id > nextID {
        nextID := e.id;
      }
    }
    assert entries[..|entries|] == entries;
    s := V.State(byPH, byValue, order, nextID, false);
  }

  // ---- Round trip

  function LastOf(order: seq<Bytes>, byPH: map<Bytes, V.Entry>): nat {
    if order != [] && order[|order| - 1] in byPH then byPH[order[|order| - 1]].id else 0
  }

  /** The identifier of the last entry, the largest in a consistent vault. */
  function LastID(s: V.State): nat {
    LastOf(s.order, s.byPH)
  }

  lemma {:induction false} EntriesOfAll(order: seq<Bytes>, byPH: map<Bytes, V.Entry>)
    requires forall i :: 0 <= i < |order| ==> order[i] in byPH
    ensures |EntriesOf(order, byPH)| == |order|
    ensures forall i :: 0 <= i < |order| ==> EntriesOf(order, byPH)[i] == byPH[order[i]]
  {
    if order != [] {
      EntriesOfAll(order[1..], byPH);
    }
  }

  /** Dropping the last entry of a consistent vault leaves a consistent one, to which it can be added back. */
  lemma DropLast(s: V.State) returns (t: V.State)
    requires V.Consistent(s) && s.order != []
    ensures var ph := s.order[|s.order| - 1];
      && V.Consistent(t) && t.closed == s.closed && t.order == s.order[..|s.order| - 1]
      && ph in s.byPH && t.byPH == s.byPH - {ph} && t.byValue == s.byValue - {s.byPH[ph].value}
  {
    var ph := s.order[|s.order| - 1];
    LastIsNew(s);
    t := V.DeleteIn(s, ph);
    V.DeleteConsistent(s, ph);
    RemoveLast(s.order[..|s.order| - 1], ph);
  }

  lemma {:induction false} FindLast<T>(pre: seq<T>, x: T)
    requires x !in pre
    ensures V.Find(pre + [x], x) == |pre|
  {
    if pre != [] {
      assert (pre + [x])[1..] == pre[1..] + [x];
      FindLast(pre[1..], x);
    }
  }

  lemma RemoveLast<T>(pre: seq<T>, x: T)
    requires x !in pre
    ensures V.RemoveFirst(pre + [x], x) == pre
  {
    FindLast(pre, x);
  }

  lemma {:induction false} EntriesOfLast(order: seq<Bytes>, byPH: map<Bytes, V.Entry>, ph: Bytes)
    requires ph in byPH && ph !in order
    ensures EntriesOf(order + [ph], byPH) == EntriesOf(order, byPH - {ph}) + [byPH[ph]]
  {
    if order == [] {
      assert order + [ph] == [ph] && [ph][1..] == [];
    } else {
      var first := if order[0] in byPH then [byPH[order[0]]] else [];
      calc {
        EntriesOf(order + [ph], byPH);
        { assert (order + [ph])[1..] == order[1..] + [ph]; }
        first + EntriesOf(order[1..] + [ph], byPH);
        { EntriesOfLast(order[1..], byPH, ph); }
        first + (EntriesOf(order[1..], byPH - {ph}) + [byPH[ph]]);
        (first + EntriesOf(order[1..], byPH - {ph})) + [byPH[ph]];
      }
    }
  }

  lemma LastIsNew(s: V.State)
    requires V.Consistent(s) && s.order != []
    ensures var n := |s.order| - 1;
      && s.order[n] in s.byPH && s.order == s.order[..n] + [s.order[n]] && s.order[n] !in s.order[..n]
      && LastOf(s.order[..n], s.byPH - {s.order[n]}) <= s.byPH[s.order[n]].id
  {
    var n := |s.order| - 1;
    forall k | 0 <= k < n ensures s.order[k] != s.order[n] {
      V.RisesDistinct(s.order, s.byPH, s.nextID, k, n);
    }
  }

  lemma FilledLast(entries: Image, e: V.Entry)
    ensures Filled(entries + [e]) == WithEntry(Filled(entries), e)
  {
    assert (entries + [e])[..|entries|] == entries;
  }

  lemma AddedBack(s: V.State, t: V.State, ph: Bytes)
    requires ph in s.byPH && s.byPH[ph].placeholder == ph
    requires s.byPH[ph].value in s.byValue && s.byValue[s.byPH[ph].value] == ph
    requires !s.closed && s.order == t.order + [ph] && t.byPH == s.byPH - {ph} && t.byValue == s.byValue - {s.byPH[ph].value}
    requires LastID(t) <= s.byPH[ph].id
    ensures WithEntry(t.(nextID := LastID(t)), s.byPH[ph]) == s.(nextID := LastID(s))
  {
    var u := WithEntry(t.(nextID := LastID(t)), s.byPH[ph]);
    assert u.byPH == s.byPH && u.byValue == s.byValue && u.order == s.order;
    assert s.order[|s.order| - 1] == ph;
  }

  /** Refilling from a consistent vault restores its maps and order; nextID becomes the largest identifier in use. */
  lemma {:induction false} RefillRestores(s: V.State)
    requires V.Consistent(s) && !s.closed
    ensures Filled(Persisted(s)) == s.(nextID := LastID(s))
    decreases |s.order|
  {
    if s.order == [] {
      assert s.byPH == map[] && s.byValue == map[];
    } else {
      var ph := s.order[|s.order| - 1];
      var t := DropLast(s);
      RefillRestores(t);
      LastIsNew(s);
      EntriesOfLast(t.order, s.byPH, ph);
      FilledLast(Persisted(t), s.byPH[ph]);
      AddedBack(s, t, ph);
    }
  }

  lemma LastIDBounds(s: V.State)
    requires V.Consistent(s)
    ensures V.Consistent(s.(nextID := LastID(s))) && LastID(s) <= s.nextID
  {
    var n := |s.order| - 1;
    assert forall i :: 0 <= i < n ==> s.byPH[s.order[i]].id < s.byPH[s.order[n]].id;
  }

  /** What a saved image loads as: its entries cleaned, or nothing when the secret is empty. */
  lemma FileLoads(entries: Image, secret: Bytes, nonce: Bytes, newSecret: Bytes, c: Codec)
    requires |nonce| == NONCE_SIZE && Lawful(c)
    ensures LoadedFrom(FileOf(entries, secret, nonce, c), newSecret, c) ==
      if secret == [] then LoadFails(Unmarshal) else Loaded(Filled(Cleaned(entries, c.clean)), secret, false)
  {
    var raw := FileOf(entries, secret, nonce, c);
    var plain := c.marshal(Payload(HexEncode(secret), entries));
    assert raw[..8] == MAGIC && raw[8] == VERSION && raw[9..21] == nonce && raw[21..] == c.seal(nonce, plain);
    HexRoundTrip(secret);
    assert secret != [] ==> HexEncode(secret) != [];
  }

  /** Every string in the vault survives marshalling. */
  ghost predicate Intact(entries: Image, c: Codec) {
    Cleaned(entries, c.clean) == entries
  }

  /**
   * Exactly when load undoes save, so that every map, the order and the secret come back, and identifiers issued after
   * the reload still exceed every live one: when the secret is not empty and every string is valid UTF-8.
   */
  lemma SaveLoadRoundTripExactly(s: V.State, secret: Bytes, nonce: Bytes, newSecret: Bytes, c: Codec)
    requires V.Consistent(s) && !s.closed && |nonce| == NONCE_SIZE && Lawful(c)
    ensures LoadedFrom(SavedBlob(s, secret, nonce, c), newSecret, c) == Loaded(s.(nextID := LastID(s)), secret, false)
       <==> secret != [] && Intact(Persisted(s), c)
    ensures V.Consistent(s.(nextID := LastID(s))) && LastID(s) <= s.nextID
  {
    FileLoads(Persisted(s), secret, nonce, newSecret, c);
    RefillRestores(s);
    LastIDBounds(s);
    var entries := Persisted(s);
    if Filled(Cleaned(entries, c.clean)) == Filled(entries) {
      EntriesDistinct(s);
      FilledTells(Cleaned(entries, c.clean), entries);
    }
  }

  predicate DistinctPlaceholders(entries: Image) {
    forall i, j :: 0 <= i < j < |entries| ==> entries[i].placeholder != entries[j].placeholder
  }

  lemma EntriesDistinct(s: V.State)
    requires V.Consistent(s)
    ensures DistinctPlaceholders(Persisted(s))
  {
    EntriesOfAll(s.order, s.byPH);
    forall i, j | 0 <= i < j < |Persisted(s)| ensures Persisted(s)[i].placeholder != Persisted(s)[j].placeholder {
      V.RisesDistinct(s.order, s.byPH, s.nextID, i, j);
    }
  }

  /** Every entry read stays in the index under its placeholder, if no other one has it. */
  lemma {:induction false} FilledHolds(entries: Image)
    requires DistinctPlaceholders(entries)
    ensures |Filled(entries).order| == |entries|
    ensures forall i :: 0 <= i < |entries| ==>
      var p := entries[i].placeholder;
      Filled(entries).order[i] == p && p in Filled(entries).byPH && Filled(entries).byPH[p] == entries[i]
  {
    if entries != [] {
      FilledHolds(entries[..|entries| - 1]);
    }
  }

  lemma {:induction false} FilledOrder(entries: Image)
    ensures |Filled(entries).order| == |entries|
    ensures forall i :: 0 <= i < |entries| ==> Filled(entries).order[i] == entries[i].placeholder
  {
    if entries != [] {
      FilledOrder(entries[..|entries| - 1]);
    }
  }

  /** Images with distinct placeholders are told by what they fill. */
  lemma FilledTells(a: Image, b: Image)
    requires Filled(a) == Filled(b) && DistinctPlaceholders(b)
    ensures a == b
  {
    FilledOrder(a);
    FilledOrder(b);
    assert forall i :: 0 <= i < |a| ==> a[i].placeholder == Filled(a).order[i] == b[i].placeholder;
    FilledHolds(a);
    FilledHolds(b);
    assert forall i :: 0 <= i < |a| ==> a[i] == Filled(a).byPH[a[i].placeholder] == b[i];
  }

  lemma {:induction false} FilledValues(entries: Image, v: Bytes)
    requires v in V.ActiveValues(Filled(entries))
    ensures exists i :: 0 <= i < |entries| && entries[i].value == v
  {
    if entries != [] {
      var n := |entries| - 1;
      if entries[n].value != v {
        var ph :| ph in Filled(entries).byPH && Filled(entries).byPH[ph].value == v
          && !Filled(entries).byPH[ph].status.Rejected? && !Filled(entries).byPH[ph].status.Archived?;
        assert ph in Filled(entries[..n]).byPH && Filled(entries[..n]).byPH[ph] == Filled(entries).byPH[ph];
        FilledValues(entries[..n], v);
        var i :| 0 <= i < n && entries[..n][i].value == v;
        assert entries[i].value == v;
      }
    }
  }

  /** A value that is no valid UTF-8 is known before a reload and not after it: what shows it is no longer redacted. */
  lemma UncleanValueForgotten(s: V.State, secret: Bytes, nonce: Bytes, newSecret: Bytes, c: Codec, v: Bytes)
    requires |nonce| == NONCE_SIZE && Lawful(c) && secret != [] && c.clean(v) != v
    ensures var r := LoadedFrom(SavedBlob(s, secret, nonce, c), newSecret, c); r.Loaded? && v !in V.ActiveValues(r.state)
  {
    FileLoads(Persisted(s), secret, nonce, newSecret, c);
    var entries := Cleaned(Persisted(s), c.clean);
    forall i | 0 <= i < |entries| ensures entries[i].value != v {
      assert CleanStays(c, Persisted(s)[i].value);
    }
    if v in V.ActiveValues(Filled(entries)) {
      FilledValues(entries, v);
    }
  }

  // ---- Close, then open again

  /** Equal but for use counters. */
  ghost predicate AlikeStates(a: V.State, b: V.State) {
    && a.byValue == b.byValue && a.order == b.order && a.nextID == b.nextID && a.closed == b.closed && a.byPH.Keys == b.byPH.Keys
    && forall p :: p in a.byPH ==> a.byPH[p].(uses := 0) == b.byPH[p].(uses := 0)
  }

  lemma {:induction false} FilledAlike(a: Image, b: Image)
    requires SameButUses(a, b)
    ensures AlikeStates(Filled(a), Filled(b))
  {
    if a != [] {
      var n := |a| - 1;
      FilledAlike(a[..n], b[..n]);
      EntryAlike(a[n], b[n]);
    }
  }

  lemma EntryAlike(a: V.Entry, b: V.Entry)
    requires a.(uses := 0) == b.(uses := 0)
    ensures a.id == b.id && a.placeholder == b.placeholder && a.value == b.value && a.bindings == b.bindings
  {
    assert a.(uses := 0).id == b.(uses := 0).id && a.(uses := 0).placeholder == b.(uses := 0).placeholder;
    assert a.(uses := 0).value == b.(uses := 0).value && a.(uses := 0).bindings == b.(uses := 0).bindings;
  }

  lemma IntactAlike(a: Image, b: Image, c: Codec)
    requires SameButUses(a, b) && Intact(b, c)
    ensures Intact(a, c)
  {
    forall i | 0 <= i < |a| ensures CleanEntry(a[i], c.clean) == a[i] {
      EntryAlike(a[i], b[i]);
      assert CleanEntry(b[i], c.clean) == b[i];
    }
  }

  /**
   * From an opened vault, after any run with saves renamed in order, if Close starts with no mutator mid-way, no save
   * in flight, no callback waiting and no stray timer, then however it interleaves, opening the file again gives back
   * the vault as it was when Close started, up to use counters, and identifiers still rise.
   */
  lemma ReopenAfterClose(s0: System, steps: seq<Step>, s: System, more: seq<Step>, end: System, mk: V.Derivation,
                         secret: Bytes, nonce: Bytes, newSecret: Bytes, c: Codec)
    requires Opened(s0) && OrderedRun(s0, steps, mk) && RunSteps(s0, steps, mk) == Some(s)
    requires s.closer == NotClosing && s.mutators == 0 && s.saves == [] && s.blocked == 0
    requires forall id :: id in s.ctl.armed ==> s.ctl.timer == Some(id)
    requires CloseRun(s, more, mk, end) && V.Consistent(s.mem) && !s.mem.closed
    requires |nonce| == NONCE_SIZE && Lawful(c) && secret != [] && Intact(Persisted(s.mem), c)
    ensures end.disk.Some?
    ensures var r := LoadedFrom(FileOf(end.disk.value, secret, nonce, c), newSecret, c);
      r.Loaded? && r.secret == secret && AlikeStates(r.state, s.mem.(nextID := LastID(s.mem)))
  {
    NoLostUpdate(s0, steps, mk);
    QuietCloseKeeps(s, more, mk, end);
    FileLoads(end.disk.value, secret, nonce, newSecret, c);
    IntactAlike(end.disk.value, Persisted(s.mem), c);
    FilledAlike(end.disk.value, Persisted(s.mem));
    RefillRestores(s.mem);
  }
}
