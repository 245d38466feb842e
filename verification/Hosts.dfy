/** Binding patterns and the hosts they admit. */
module Hosts {
  import opened ByteText

  /** matchHost: equality, or `*.d` against d itself or a longer host ending in `.d`. */
  predicate MatchHost(pattern: Bytes, host: Bytes) {
    || pattern == host
    || (|pattern| > 2 && pattern[0] == STAR && pattern[1] == DOT
        && ((|host| > |pattern| - 1 && host[|host| - |pattern| + 1..] == pattern[1..]) || host == pattern[2..]))
  }

  /** The dot-separated labels of a host name. */
  function Labels(s: Bytes): (labels: seq<Bytes>)
    ensures labels != []
  {
    if s == [] then [[]]
    else
      var rest := Labels(s[1..]);
      if s[0] == DOT then [[]] + rest else [[s[0]] + rest[0]] + rest[1..]
  }

  predicate EndsWith<T(==)>(s: seq<T>, t: seq<T>) {
    |t| <= |s| && s[|s| - |t|..] == t
  }

  lemma {:induction false} LabelsOfJoin(x: Bytes, y: Bytes)
    ensures Labels(x + [DOT] + y) == Labels(x) + Labels(y)
  {
    var s := x + [DOT] + y;
    if x == [] {
      assert s[1..] == y;
    } else {
      assert s[1..] == x[1..] + [DOT] + y;
      LabelsOfJoin(x[1..], y);
    }
  }

  /** A name whose labels end with d's labels is d, or some name followed by `.d`. */
  lemma {:induction false} LabelSuffix(host: Bytes, d: Bytes)
    requires EndsWith(Labels(host), Labels(d))
    ensures host == d || EndsWith(host, [DOT] + d)
  {
    var ls, ds := Labels(host), Labels(d);
    if |ls| == |ds| {
      LabelsInjective(host, d);
    } else {
      assert host != [];
      var rest := Labels(host[1..]);
      if host[0] == DOT {
        assert ls[1..] == rest;
        assert EndsWith(rest, ds) by { assert ls[|ls| - |ds|..] == rest[|rest| - |ds|..]; }
        LabelSuffix(host[1..], d);
        if host[1..] == d { assert host == [DOT] + d; }
      } else {
        assert |rest| == |ls|;
        assert rest[|rest| - |ds|..] == ls[|ls| - |ds|..];
        LabelSuffix(host[1..], d);
        assert |rest| > |ds|;
      }
    }
  }

  lemma LabelsOfNonEmpty(s: Bytes)
    requires s != []
    ensures Labels(s) != [[]]
  {
    if s[0] == DOT {
      assert |Labels(s)| >= 2;
    } else {
      assert |Labels(s)[0]| >= 1;
    }
  }

  lemma {:induction false} LabelsInjective(a: Bytes, b: Bytes)
    requires Labels(a) == Labels(b)
    ensures a == b
  {
    if a == [] || b == [] {
      if a != [] { LabelsOfNonEmpty(a); }
      if b != [] { LabelsOfNonEmpty(b); }
    } else {
      var ra, rb := Labels(a[1..]), Labels(b[1..]);
      var la, lb := Labels(a), Labels(b);
      if a[0] == DOT {
        assert la[0] == lb[0] == [];
        assert ra == la[1..] && rb == lb[1..];
      } else {
        assert la[0] == [a[0]] + ra[0] && b[0] != DOT;
        assert lb[0] == [b[0]] + rb[0];
        assert a[0] == la[0][0] == lb[0][0] == b[0];
        assert ra[0] == la[0][1..] == lb[0][1..] == rb[0];
        assert ra == [ra[0]] + la[1..] && rb == [rb[0]] + lb[1..];
      }
      LabelsInjective(a[1..], b[1..]);
    }
  }

  /**
   * `*.d` admits exactly the hosts whose labels end with d's labels, except the one name that
   * puts a single empty label in front of d. Any number of leading labels is admitted.
   */
  lemma WildcardAdmits(d: Bytes, host: Bytes)
    requires d != []
    ensures MatchHost([STAR, DOT] + d, host) <==> EndsWith(Labels(host), Labels(d)) && host != [DOT] + d
  {
    var pattern := [STAR, DOT] + d;
    assert pattern[1..] == [DOT] + d && pattern[2..] == d;
    if EndsWith(Labels(host), Labels(d)) {
      LabelSuffix(host, d);
    }
    if EndsWith(host, [DOT] + d) {
      var x := host[..|host| - |d| - 1];
      assert host == x + [DOT] + d;
      LabelsOfJoin(x, d);
    }
    assert EndsWith(pattern, [DOT] + d);
  }

  // ---- What a pattern admits, told without its code

  /** A pattern of the form `*.d`, d not empty. */
  ghost predicate IsWildcard(pattern: Bytes) {
    exists d :: d != [] && pattern == [STAR, DOT] + d
  }

  /** By labels: the pattern itself, and under `*.d` every name whose labels end with d's but the one that is a dot and d. */
  ghost predicate Admits(pattern: Bytes, host: Bytes) {
    host == pattern || exists d :: d != [] && pattern == [STAR, DOT] + d && UnderLabels(d, host)
  }

  ghost predicate UnderLabels(d: Bytes, host: Bytes) {
    EndsWith(Labels(host), Labels(d)) && host != [DOT] + d
  }

  lemma MatchesAsAdmits(pattern: Bytes, host: Bytes)
    ensures MatchHost(pattern, host) <==> Admits(pattern, host)
  {
    if |pattern| > 2 && pattern[0] == STAR && pattern[1] == DOT {
      var d := pattern[2..];
      assert pattern == [STAR, DOT] + d;
      WildcardAdmits(d, host);
    }
    forall d | d != [] && pattern == [STAR, DOT] + d ensures pattern[2..] == d {}
  }

  /** A pattern that is no wildcard admits one host, the one it spells; so a bound host name is always admitted. */
  lemma LiteralAdmits(pattern: Bytes, host: Bytes)
    ensures !IsWildcard(pattern) ==> (MatchHost(pattern, host) <==> pattern == host)
    ensures MatchHost(pattern, pattern)
  {
    MatchesAsAdmits(pattern, host);
    MatchesAsAdmits(pattern, pattern);
  }
}
