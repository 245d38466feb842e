/** Opening a vault file: which files load and as what, and the life of a vault from one opening to the next. */
module Opening {
  import opened ByteText
  import opened SaveProtocol
  import opened Blob
  import V = Vault

  // ---- The code

  /** save: the entries that order lists, in its order, marshalled, sealed and framed. */
  method Save(s: V.State, secret: Bytes, nonce: Bytes, c: Codec) returns (raw: Bytes)
    ensures raw == SavedBlob(s, secret, nonce, c)
  {
    var entries: Image := [];
    assert s.order[0..] == s.order;
    for i := 0 to |s.order|
      invariant entries + EntriesOf(s.order[i..], s.byPH) == Persisted(s)
    {
      assert s.order[i..][1..] == s.order[i + 1..];
      if s.order[i] in s.byPH {
        entries := entries + [s.byPH[s.order[i]]];
      }
    }
    assert entries == Persisted(s);
    var plaintext := c.marshal(Payload(HexEncode(secret), entries));
    raw := MAGIC + [VERSION] + nonce + c.seal(nonce, plaintext);
  }

  method Load(raw: Bytes, newSecret: Bytes, c: Codec) returns (r: LoadResult)
    ensures r == LoadedFrom(raw, newSecret, c)
  {
    if |raw| < |MAGIC| + 1 + NONCE_SIZE {
      return LoadFails(Truncated);
    }
    if raw[..|MAGIC|] != MAGIC {
      return LoadFails(BadMagic);
    }
    var off := |MAGIC|;
    if raw[off] != VERSION {
      return LoadFails(BadVersion);
    }
    off := off + 1;
    var nonce := raw[off..off + NONCE_SIZE];
    off := off + NONCE_SIZE;
    var plain := c.unseal(nonce, raw[off..]);
    if plain.None? {
      return LoadFails(Decrypt);
    }
    var payload := c.unmarshal(plain.value);
    if payload.Some? && payload.value.secretHex != [] {
      var secret := HexDecode(payload.value.secretHex);
      if secret.None? {
        return LoadFails(BadSecret);
      }
      var s := Fill(payload.value.entries);
      return Loaded(s, secret.value, false);
    }
    var legacy := c.unmarshalLegacy(plain.value);
    if legacy.None? {
      return LoadFails(Unmarshal);
    }
    var s := Fill(legacy.value);
    r := Loaded(s, newSecret, true);
  }

  /** The vault's own fields as it is opened: a new file and one in the old format are to be saved. */
  method Open(file: Option<Bytes>, newSecret: Bytes, c: Codec) returns (r: LoadResult, fv: FileVault)
    ensures fresh(fv) && r == OpenedFrom(file, newSecret, c)
    ensures r.Loaded? ==> fv.Ctl() == Started(r, None).ctl
  {
    fv := new FileVault();
    if file.None? {
      r := Loaded(V.EMPTY, newSecret, true);
    } else {
      r := Load(file.value, newSecret, c);
    }
    if r.Loaded? && r.marksDirty {
      fv.MarkDirty();
    }
  }

  function OpenedFrom(file: Option<Bytes>, newSecret: Bytes, c: Codec): LoadResult {
    match file
    case None => Loaded(V.EMPTY, newSecret, true)
    case Some(raw) => LoadedFrom(raw, newSecret, c)
  }

  /** The system an opening starts; image is what the file holds. */
  function Started(r: LoadResult, image: Option<Image>): System
    requires r.Loaded?
  {
    var ctl := if r.marksDirty then Control(true, Some(0), false, {0}, 1) else Control(false, None, false, {}, 0);
    System(r.state, image, ctl, 0, 0, [], NotClosing)
  }

  // ---- Which files load

  /** A plaintext in the current format: a payload with a secret. */
  ghost predicate IsCurrent(c: Codec, plaintext: Bytes, entries: Image, secret: Bytes) {
    exists hex :: hex != [] && HexDecode(hex) == Some(secret) && c.unmarshal(plaintext) == Some(Payload(hex, entries))
  }

  /** One in the old format: an array of entries, and no payload with anything for a secret. */
  ghost predicate IsLegacy(c: Codec, plaintext: Bytes, entries: Image) {
    c.unmarshalLegacy(plaintext) == Some(entries) && forall p :: c.unmarshal(plaintext) == Some(p) ==> p.secretHex == []
  }

  /** A plaintext of either format yields its entries, with its own secret or a new one. */
  ghost predicate Yields(c: Codec, plaintext: Bytes, newSecret: Bytes, r: LoadResult) {
    || (exists entries, secret :: IsCurrent(c, plaintext, entries, secret) && r == Loaded(Filled(entries), secret, false))
    || (exists entries :: IsLegacy(c, plaintext, entries) && r == Loaded(Filled(entries), newSecret, true))
  }

  /** The file is magic, version, nonce and a ciphertext that opens to the plaintext. */
  ghost predicate Opens(raw: Bytes, c: Codec, plaintext: Bytes) {
    exists nonce, sealed :: FramedAs(raw, nonce, sealed) && c.unseal(nonce, sealed) == Some(plaintext)
  }

  ghost predicate FramedAs(raw: Bytes, nonce: Bytes, sealed: Bytes) {
    |nonce| == NONCE_SIZE && raw == MAGIC + [VERSION] + nonce + sealed
  }

  lemma FrameParts(raw: Bytes, nonce: Bytes, sealed: Bytes)
    ensures FramedAs(raw, nonce, sealed) <==>
      |raw| >= 21 && raw[..8] == MAGIC && raw[8] == VERSION && nonce == raw[9..21] && sealed == raw[21..]
  {
    if |raw| >= 21 && raw[..8] == MAGIC && raw[8] == VERSION && nonce == raw[9..21] && sealed == raw[21..] {
      assert raw == raw[..8] + [raw[8]] + raw[9..21] + raw[21..];
    }
    if FramedAs(raw, nonce, sealed) {
      assert raw[..8] == MAGIC && raw[8] == VERSION && raw[9..21] == nonce && raw[21..] == sealed;
    }
  }

  /** What is read from the plaintext of a file, by its format. */
  lemma YieldsExactly(c: Codec, plaintext: Bytes, newSecret: Bytes, r: LoadResult)
    ensures Yields(c, plaintext, newSecret, r) <==>
      var p := c.unmarshal(plaintext);
      if p.Some? && p.value.secretHex != []
      then HexDecode(p.value.secretHex).Some? && r == Loaded(Filled(p.value.entries), HexDecode(p.value.secretHex).value, false)
      else c.unmarshalLegacy(plaintext).Some? && r == Loaded(Filled(c.unmarshalLegacy(plaintext).value), newSecret, true)
  {
    var p := c.unmarshal(plaintext);
    if p.Some? && p.value.secretHex != [] && HexDecode(p.value.secretHex).Some? {
      assert IsCurrent(c, plaintext, p.value.entries, HexDecode(p.value.secretHex).value);
    }
    if (p.None? || p.value.secretHex == []) && c.unmarshalLegacy(plaintext).Some? {
      assert IsLegacy(c, plaintext, c.unmarshalLegacy(plaintext).value);
    }
  }

  /** Exactly which files load, and as what; any other is refused, by its frame if that is wrong. */
  lemma LoadsExactly(raw: Bytes, newSecret: Bytes, c: Codec, r: LoadResult)
    requires r.Loaded?
    ensures LoadedFrom(raw, newSecret, c) == r <==>
      exists plaintext :: Opens(raw, c, plaintext) && Yields(c, plaintext, newSecret, r)
  {
    forall nonce, sealed ensures FramedAs(raw, nonce, sealed) <==>
      |raw| >= 21 && raw[..8] == MAGIC && raw[8] == VERSION && nonce == raw[9..21] && sealed == raw[21..]
    {
      FrameParts(raw, nonce, sealed);
    }
    if LoadedFrom(raw, newSecret, c) == r {
      var plaintext := c.unseal(raw[9..21], raw[21..]).value;
      assert FramedAs(raw, raw[9..21], raw[21..]);
      YieldsExactly(c, plaintext, newSecret, r);
      assert Opens(raw, c, plaintext);
    }
    if plaintext :| Opens(raw, c, plaintext) && Yields(c, plaintext, newSecret, r) {
      YieldsExactly(c, plaintext, newSecret, r);
    }
  }

  lemma RefusedByFrame(raw: Bytes, newSecret: Bytes, c: Codec)
    ensures var r := LoadedFrom(raw, newSecret, c);
      && (r == LoadFails(Truncated) <==> |raw| < 21)
      && (r == LoadFails(BadMagic) <==> |raw| >= 21 && !(MAGIC <= raw))
      && (r == LoadFails(BadVersion) <==> |raw| >= 21 && MAGIC <= raw && !(MAGIC + [VERSION] <= raw))
      && (r == LoadFails(Decrypt) <==>
            exists nonce, sealed :: FramedAs(raw, nonce, sealed) && c.unseal(nonce, sealed) == None)
  {
    assert |raw| >= 21 && MAGIC <= raw ==> raw[..9] == MAGIC + [raw[8]];
    forall nonce, sealed ensures FramedAs(raw, nonce, sealed) <==>
      |raw| >= 21 && raw[..8] == MAGIC && raw[8] == VERSION && nonce == raw[9..21] && sealed == raw[21..]
    {
      FrameParts(raw, nonce, sealed);
    }
  }

  // ---- From one opening to the next

  /** What a file written by save was filled from is what it would be saved as. */
  lemma PersistedFilled(entries: Image)
    requires DistinctPlaceholders(entries)
    ensures Persisted(Filled(entries)) == entries
  {
    FilledHolds(entries);
    FilledOrder(entries);
    var t := Filled(entries);
    EntriesOfAll(t.order, t.byPH);
    forall i | 0 <= i < |entries| ensures Persisted(t)[i] == entries[i] {
      assert t.order[i] == entries[i].placeholder;
    }
  }

  /** The file, if there is one, is in the old format or holds image as save writes it, with strings that survive JSON. */
  ghost predicate Readable(file: Option<Bytes>, image: Option<Image>, c: Codec) {
    file.Some? ==>
      || (exists plaintext, entries :: Opens(file.value, c, plaintext) && IsLegacy(c, plaintext, entries))
      || (exists secret, nonce :: |nonce| == NONCE_SIZE && secret != [] && image.Some? && Intact(image.value, c)
                                  && DistinctPlaceholders(image.value) && file.value == FileOf(image.value, secret, nonce, c))
  }

  /** So opening it starts from where the durability theorems do. */
  lemma StartsOpened(file: Option<Bytes>, image: Option<Image>, newSecret: Bytes, c: Codec)
    requires Lawful(c) && Readable(file, image, c)
    ensures var r := OpenedFrom(file, newSecret, c); r.Loaded? && Opened(Started(r, image)) && (newSecret != [] ==> r.secret != [])
  {
    if file.Some? {
      if plaintext, entries :| Opens(file.value, c, plaintext) && IsLegacy(c, plaintext, entries) {
        var r := Loaded(Filled(entries), newSecret, true);
        assert Yields(c, plaintext, newSecret, r);
        LoadsExactly(file.value, newSecret, c, r);
      } else {
        var secret, nonce :| |nonce| == NONCE_SIZE && secret != [] && Intact(image.value, c)
          && DistinctPlaceholders(image.value) && file.value == FileOf(image.value, secret, nonce, c);
        FileLoads(image.value, secret, nonce, newSecret, c);
        PersistedFilled(image.value);
      }
    }
  }

  /**
   * The life of a vault: opened from no file, one in the old format or one that save wrote, used along any run in which
   * saves are renamed in order, closed quietly in any interleaving, and opened again, it is as it was when Close started,
   * up to use counters, under the secret it was first opened with, and nothing is left to save.
   */
  lemma Lifecycle(file: Option<Bytes>, image: Option<Image>, newSecret: Bytes, c: Codec, r0: LoadResult, mk: V.Derivation,
                  steps: seq<Step>, s: System, more: seq<Step>, end: System, nonce: Bytes, nextSecret: Bytes)
    requires Lawful(c) && Readable(file, image, c) && newSecret != [] && |nonce| == NONCE_SIZE
    requires r0 == OpenedFrom(file, newSecret, c) && r0.Loaded?
    requires OrderedRun(Started(r0, image), steps, mk) && RunSteps(Started(r0, image), steps, mk) == Some(s)
    requires s.closer == NotClosing && s.mutators == 0 && s.saves == [] && s.blocked == 0
    requires forall id :: id in s.ctl.armed ==> s.ctl.timer == Some(id)
    requires CloseRun(s, more, mk, end) && V.Consistent(s.mem) && !s.mem.closed && Intact(Persisted(s.mem), c)
    ensures end.disk.Some?
    ensures var r := OpenedFrom(Some(FileOf(end.disk.value, r0.secret, nonce, c)), nextSecret, c);
      r.Loaded? && r.secret == r0.secret && !r.marksDirty && AlikeStates(r.state, s.mem.(nextID := LastID(s.mem)))
  {
    StartsOpened(file, image, newSecret, c);
    ReopenAfterClose(Started(r0, image), steps, s, more, end, mk, r0.secret, nonce, nextSecret, c);
    FileLoads(end.disk.value, r0.secret, nonce, nextSecret, c);
  }
}
