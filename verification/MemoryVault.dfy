/** The vault as the program keeps it: maps of entry objects updated in place. */
module MemoryVault {
  import opened ByteText
  import opened Sequences
  import opened Hosts
  import V = Vault

  class Entry {
    const id: nat
    const placeholder: Bytes
    var value: Bytes
    const kind: string
    const source: string
    var bindings: seq<Bytes>
    var status: V.Status
    var uses: nat

    constructor (id: nat, placeholder: Bytes, value: Bytes, kind: string, source: string, bindings: seq<Bytes>)
      ensures Data() == V.Entry(id, placeholder, value, kind, source, bindings, V.PendingReview, 0)
    {
      this.id, this.placeholder, this.value, this.kind, this.source := id, placeholder, value, kind, source;
      this.bindings, this.status, this.uses := bindings, V.PendingReview, 0;
    }

    /** The clone handed to callers. */
    function Data(): V.Entry
      reads this
    {
      V.Entry(id, placeholder, value, kind, source, bindings, status, uses)
    }
  }

  /** First occurrences of existing followed by add, as two loops over a seen set. */
  method MergeBindings(existing: seq<Bytes>, add: seq<Bytes>) returns (out: seq<Bytes>)
    ensures out == V.Merged(existing, add)
  {
    var seen: set<Bytes> := {};
    out := [];
    assert existing[0..] + add == existing + add;
    for i := 0 to |existing|
      invariant out + Distinct(existing[i..] + add, seen) == V.Merged(existing, add)
    {
      var b := existing[i];
      assert (existing[i..] + add)[1..] == existing[i + 1..] + add;
      if b !in seen {
        seen := seen + {b};
        out := out + [b];
      }
    }
    assert existing[|existing|..] + add == add;
    for i := 0 to |add|
      invariant out + Distinct(add[i..], seen) == V.Merged(existing, add)
    {
      var b := add[i];
      assert add[i..][1..] == add[i + 1..];
      if b !in seen {
        seen := seen + {b};
        out := out + [b];
      }
    }
  }

  class MemoryVault {
    var byPH: map<Bytes, Entry>
    var byValue: map<Bytes, Bytes>
    var order: seq<Bytes>
    var closed: bool
    var nextID: nat
    const mk: V.Derivation

    constructor (mk: V.Derivation)
      ensures Valid() && State() == V.EMPTY && this.mk == mk
    {
      byPH, byValue, order, closed, nextID := map[], map[], [], false, 0;
      this.mk := mk;
    }

    /** Every entry object sits under its own placeholder, so no two keys share an object. */
    ghost predicate Valid()
      reads this, byPH.Values
    {
      forall p :: p in byPH ==> byPH[p].placeholder == p
    }

    ghost function State(): V.State
      reads this, byPH.Values
    {
      V.State(map p | p in byPH :: byPH[p].Data(), byValue, order, nextID, closed)
    }

    method Register(value: Bytes, kind: string, source: string, bindings: seq<Bytes>) returns (r: V.Answer)
      requires Valid() && !V.Apply(State(), V.Register(value, kind, source, bindings), mk).1.Panic?
      modifies this, byPH.Values
      ensures Valid() && fresh(byPH.Values - old(byPH.Values))
      ensures (State(), r) == old(V.Apply(State(), V.Register(value, kind, source, bindings), mk))
    {
      if closed {
        return V.Fails(V.Closed);
      }
      if value in byValue {
        var e := MergeInto(byValue[value], bindings);
        return V.Gives(e);
      }
      var e := Insert(value, kind, source, bindings);
      r := V.Gives(e);
    }

    /** Extends the bindings of a live entry in place and clones it. */
    method MergeInto(ph: Bytes, hosts: seq<Bytes>) returns (e: V.Entry)
      requires Valid() && ph in byPH
      modifies byPH[ph]
      ensures Valid()
      ensures e == old(State()).byPH[ph].(bindings := V.Merged(old(State()).byPH[ph].bindings, hosts))
      ensures State() == old(State()).(byPH := old(State()).byPH[ph := e])
    {
      ghost var s := State();
      var entry := byPH[ph];
      entry.bindings := MergeBindings(entry.bindings, hosts);
      e := entry.Data();
      assert State().byPH == s.byPH[ph := e];
    }

    /** Adds an entry under the derived placeholder. */
    method Insert(value: Bytes, kind: string, source: string, bindings: seq<Bytes>) returns (r: V.Entry)
      requires Valid()
      modifies this
      ensures Valid() && closed == old(closed) && fresh(byPH.Values - old(byPH.Values))
      ensures r == V.Entry(old(nextID) + 1, mk(value), value, kind, source, bindings, V.PendingReview, 0)
      ensures State() == V.State(old(State()).byPH[mk(value) := r], old(byValue)[value := mk(value)],
                                 old(order) + [mk(value)], old(nextID) + 1, closed)
    {
      ghost var s := State();
      nextID := nextID + 1;
      var e := new Entry(nextID, mk(value), value, kind, source, bindings);
      assert State() == s.(nextID := nextID);
      Place(e);
      r := e.Data();
    }

    /** Enters an entry object into the three indexes. */
    method Place(e: Entry)
      requires Valid() && e.placeholder == mk(e.value)
      modifies this`byPH, this`byValue, this`order
      ensures Valid() && byPH == old(byPH)[e.placeholder := e]
      ensures State() == old(State()).(byPH := old(State()).byPH[e.placeholder := e.Data()],
                                       byValue := old(byValue)[e.value := e.placeholder], order := old(order) + [e.placeholder])
    {
      ghost var s := State();
      byPH := byPH[e.placeholder := e];
      byValue := byValue[e.value := e.placeholder];
      order := order + [e.placeholder];
      assert State().byPH == s.byPH[e.placeholder := e.Data()];
    }

    method Lookup(ph: Bytes) returns (r: V.Answer)
      requires Valid()
      ensures r == if closed then V.Fails(V.Closed)
        else if ph in State().byPH then V.Gives(State().byPH[ph]) else V.Fails(V.NotFound)
    {
      if closed {
        return V.Fails(V.Closed);
      }
      if ph !in byPH {
        return V.Fails(V.NotFound);
      }
      r := V.Gives(byPH[ph].Data());
    }

    method Resolve(ph: Bytes, host: Bytes) returns (r: V.Resolution)
      requires Valid()
      ensures r == V.Resolve(State(), ph, host)
    {
      if closed {
        return V.Refused(V.Closed);
      }
      if ph !in byPH {
        return V.Refused(V.NotFound);
      }
      var e := byPH[ph];
      for i := 0 to |e.bindings|
        invariant forall j :: 0 <= j < i ==> !MatchHost(e.bindings[j], host)
      {
        if MatchHost(e.bindings[i], host) {
          return V.Value(e.value);
        }
      }
      r := V.Refused(V.BindingMismatch);
    }

    method Bind(ph: Bytes, hosts: seq<Bytes>) returns (r: V.Answer)
      requires Valid()
      modifies byPH.Values
      ensures Valid() && (State(), r) == old(V.Apply(State(), V.Bind(ph, hosts), mk))
    {
      if closed {
        return V.Fails(V.Closed);
      }
      if ph !in byPH {
        return V.Fails(V.NotFound);
      }
      var _ := MergeInto(ph, hosts);
      r := V.Ok;
    }

    method Unbind(ph: Bytes, hosts: seq<Bytes>) returns (r: V.Answer)
      requires Valid()
      modifies byPH.Values
      ensures Valid() && (State(), r) == old(V.Apply(State(), V.Unbind(ph, hosts), mk))
    {
      ghost var s := State();
      if closed {
        return V.Fails(V.Closed);
      }
      if ph !in byPH {
        return V.Fails(V.NotFound);
      }
      var e := byPH[ph];
      var out := [];
      for i := 0 to |e.bindings|
        invariant out + V.Except(e.bindings[i..], hosts) == V.Except(e.bindings, hosts)
      {
        assert e.bindings[i..][1..] == e.bindings[i + 1..];
        if e.bindings[i] !in hosts {
          out := out + [e.bindings[i]];
        }
      }
      assert e.bindings[0..] == e.bindings && out == V.Except(e.bindings, hosts);
      e.bindings := out;
      assert State().byPH == s.byPH[ph := e.Data()];
      r := V.Ok;
    }

    method SetStatus(ph: Bytes, status: V.Status) returns (r: V.Answer)
      requires Valid()
      modifies byPH.Values
      ensures Valid() && (State(), r) == old(V.Apply(State(), V.SetStatus(ph, status), mk))
    {
      ghost var s := State();
      if closed {
        return V.Fails(V.Closed);
      }
      if ph !in byPH {
        return V.Fails(V.NotFound);
      }
      byPH[ph].status := status;
      assert State().byPH == s.byPH[ph := byPH[ph].Data()];
      r := V.Ok;
    }

    method Rotate(ph: Bytes, newValue: Bytes) returns (r: V.Answer)
      requires Valid()
      modifies this`byValue, byPH.Values
      ensures Valid() && (State(), r) == old(V.Apply(State(), V.Rotate(ph, newValue), mk))
    {
      ghost var s := State();
      if closed {
        return V.Fails(V.Closed);
      }
      if ph !in byPH {
        return V.Fails(V.NotFound);
      }
      var e := byPH[ph];
      byValue := byValue - {e.value};
      e.value := newValue;
      byValue := byValue[newValue := ph];
      assert State().byPH == s.byPH[ph := e.Data()];
      r := V.Ok;
    }

    method Delete(ph: Bytes) returns (r: V.Answer)
      requires Valid()
      modifies this
      ensures Valid() && byPH.Values <= old(byPH.Values)
      ensures (State(), r) == old(V.Apply(State(), V.Delete(ph), mk))
    {
      ghost var s := State();
      if closed {
        return V.Fails(V.Closed);
      }
      if ph !in byPH {
        return V.Fails(V.NotFound);
      }
      byValue := byValue - {byPH[ph].value};
      byPH := byPH - {ph};
      ghost var before := order;
      var n := |order|;
      for i := 0 to n
        invariant order == before && V.Find(before, ph) == i + V.Find(before[i..], ph)
      {
        if order[i] == ph {
          order := order[..i] + order[i + 1..];
          break;
        }
        assert before[i..][1..] == before[i + 1..];
      }
      assert State().byPH == s.byPH - {ph};
      r := V.Ok;
    }

    method MarkUse(ph: Bytes)
      requires Valid()
      modifies byPH.Values
      ensures Valid() && State() == old(V.Apply(State(), V.MarkUse(ph), mk)).0
    {
      if ph in byPH {
        byPH[ph].uses := byPH[ph].uses + 1;
      }
    }

    method Close() returns (r: V.Answer)
      modifies this
      ensures Valid() && (State(), r) == old(V.Apply(State(), V.Close, mk))
    {
      closed := true;
      byPH, byValue, order := map[], map[], [];
      r := V.Ok;
    }

    /** Active values; the map is walked in an arbitrary order. */
    method Values() returns (vs: seq<Bytes>)
      requires Valid()
      ensures forall v :: v in vs <==> v in V.ActiveValues(State())
    {
      vs := [];
      var todo := byPH.Keys;
      while todo != {}
        invariant todo <= byPH.Keys
        invariant forall v :: v in vs <==> exists p ::
          p in byPH && p !in todo && !byPH[p].status.Rejected? && !byPH[p].status.Archived? && byPH[p].value == v
        decreases |todo|
      {
        var p :| p in todo;
        todo := todo - {p};
        var e := byPH[p];
        if e.status != V.Rejected && e.status != V.Archived {
          vs := vs + [e.value];
        }
      }
      assert forall p :: p in byPH <==> p in State().byPH;
    }
  }
}
