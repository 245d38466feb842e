/** Sequences: associativity, and order-preserving removal of repetitions, used by the hook and by the vault. */
module Sequences {
  lemma Assoc<T>(a: seq<T>, b: seq<T>, c: seq<T>)
    ensures (a + b) + c == a + (b + c)
  {
  }

  lemma Regroup<T>(a: seq<T>, b: seq<T>, c: seq<T>, d: seq<T>)
    ensures ((a + b) + c) + d == a + ((b + c) + d)
  {
  }

  /** The elements of s not in seen, each at its first occurrence. */
  function Distinct<T(==)>(s: seq<T>, seen: set<T>): seq<T> {
    if s == [] then []
    else if s[0] in seen then Distinct(s[1..], seen)
    else [s[0]] + Distinct(s[1..], seen + {s[0]})
  }

  lemma DistinctOne<T>(x: T)
    ensures Distinct([x], {}) == [x]
  {
    assert [x][1..] == [];
  }

  lemma {:induction false} DistinctElements<T>(s: seq<T>, seen: set<T>, x: T)
    ensures x in Distinct(s, seen) <==> x in s && x !in seen
  {
    if s != [] {
      if s[0] in seen {
        DistinctElements(s[1..], seen, x);
      } else {
        DistinctElements(s[1..], seen + {s[0]}, x);
      }
    }
  }

  lemma {:induction false} DistinctHasNoRepeats<T>(s: seq<T>, seen: set<T>, i: nat, j: nat)
    requires i < j < |Distinct(s, seen)|
    ensures Distinct(s, seen)[i] != Distinct(s, seen)[j]
  {
    if s[0] in seen {
      DistinctHasNoRepeats(s[1..], seen, i, j);
    } else {
      var rest := Distinct(s[1..], seen + {s[0]});
      if i == 0 {
        DistinctElements(s[1..], seen + {s[0]}, s[0]);
        assert rest[j - 1] in rest;
      } else {
        DistinctHasNoRepeats(s[1..], seen + {s[0]}, i - 1, j - 1);
      }
    }
  }

  /** Compacts an array onto the first occurrences of its elements, writing over what was read. */
  method CompactDistinct<T(==)>(a: array<T>) returns (k: nat)
    modifies a
    ensures k <= a.Length && a[..k] == Distinct(old(a[..]), {})
  {
    ghost var s := a[..];
    var seen: set<T> := {};
    k := 0;
    for i := 0 to a.Length
      invariant k <= i && forall j :: i <= j < |s| ==> a[j] == s[j]
      invariant a[..k] + Distinct(s[i..], seen) == Distinct(s, {})
    {
      var p := a[i];
      assert s[i..][1..] == s[i + 1..];
      if p !in seen {
        seen := seen + {p};
        ghost var was := a[..k];
        a[k] := p;
        k := k + 1;
        assert a[..k] == was + [p];
      }
    }
  }
}
