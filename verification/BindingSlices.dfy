/** mergeBindings and Unbind at slice level: both write into the array they read from. */
module BindingSlices {
  import opened ByteText
  import opened Sequences
  import V = Vault

  /**
   * Unbind over `e.Bindings[:0]`. The tail past the result keeps its old bytes, so another slice of
   * the same array and length n (a snapshot that shares it) now reads the result followed by stale hosts.
   */
  method UnbindInPlace(b: array<Bytes>, n: nat, hosts: seq<Bytes>) returns (k: nat)
    requires n <= b.Length
    modifies b
    ensures k <= n && b[..k] == V.Except(old(b[..n]), hosts) && b[k..] == old(b[k..])
  {
    ghost var s, full := b[..n], b[..];
    k := 0;
    for i := 0 to n
      invariant k <= i && forall j :: k <= j < b.Length ==> b[j] == full[j]
      invariant b[..k] + V.Except(s[i..], hosts) == V.Except(s, hosts)
    {
      var x := b[i];
      assert s[i..][1..] == s[i + 1..] && x == s[i];
      if x !in hosts {
        ghost var was := b[..k];
        b[k] := x;
        k := k + 1;
        assert b[..k] == was + [x];
      }
    }
  }

  /** append to a slice of length k: in place while there is room, else into a larger copy. */
  method Push(b: array<Bytes>, k: nat, x: Bytes) returns (out: array<Bytes>)
    requires k <= b.Length
    modifies b
    ensures k < out.Length && out[..k + 1] == old(b[..k]) + [x]
    ensures (out == b && forall j :: 0 <= j < b.Length && j != k ==> b[j] == old(b[j])) || (fresh(out) && b[..] == old(b[..]))
  {
    if k < b.Length {
      out := b;
      ghost var was := b[..k];
      out[k] := x;
      assert out[..k + 1] == was + [x];
    } else {
      var s := b[..];
      out := new Bytes[2 * k + 1](i => if 0 <= i < |s| then s[i] else x);
    }
  }

  /** The first loop of mergeBindings: existing compacted onto its first occurrences. */
  method CompactSeen(existing: array<Bytes>, n: nat, ghost add: seq<Bytes>) returns (k: nat, seen: set<Bytes>)
    requires n <= existing.Length
    modifies existing
    ensures k <= n && existing[..k] + Distinct(add, seen) == V.Merged(old(existing[..n]), add)
  {
    ghost var s := existing[..n];
    seen := {};
    k := 0;
    assert s[0..] + add == s + add;
    for i := 0 to n
      invariant k <= i && forall j :: i <= j < n ==> existing[j] == s[j]
      invariant existing[..k] + Distinct(s[i..] + add, seen) == V.Merged(s, add)
    {
      var x := existing[i];
      assert (s[i..] + add)[1..] == s[i + 1..] + add && x == s[i];
      if x !in seen {
        seen := seen + {x};
        ghost var was := existing[..k];
        existing[k] := x;
        k := k + 1;
        assert existing[..k] == was + [x];
      }
    }
    assert s[n..] + add == add;
  }

  /** mergeBindings over `existing[:0:cap(existing)]`: compacts, then appends what is new. */
  method MergeInPlace(existing: array<Bytes>, n: nat, add: seq<Bytes>) returns (out: array<Bytes>, k: nat)
    requires n <= existing.Length
    modifies existing
    ensures k <= out.Length && out[..k] == V.Merged(old(existing[..n]), add)
    ensures out == existing || fresh(out)
  {
    ghost var merged := V.Merged(existing[..n], add);
    var seen;
    k, seen := CompactSeen(existing, n, add);
    out := existing;
    for i := 0 to |add|
      invariant k <= out.Length && (out == existing || fresh(out))
      invariant out[..k] + Distinct(add[i..], seen) == merged
    {
      var x := add[i];
      assert add[i..][1..] == add[i + 1..];
      if x !in seen {
        seen := seen + {x};
        out := Push(out, k, x);
        k := k + 1;
      }
    }
  }
}
