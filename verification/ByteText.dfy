/** Byte strings, occurrences, and the placeholder format shared by every component. */
module ByteText {
  newtype byte = x: int | 0 <= x < 256
  type Bytes = seq<byte>

  datatype Option<+T> = None | Some(value: T)

  const AT: byte := 64
  const UNDERSCORE: byte := 95
  const NEWLINE: byte := 10
  const DOT: byte := 46
  const STAR: byte := 42
  // "TOKEN_"
  const TOKEN: Bytes := [84, 79, 75, 69, 78, 95]
  const PLACEHOLDER_LEN := 14

  predicate OccursAt(text: Bytes, v: Bytes, i: int) {
    0 <= i && i + |v| <= |text| && forall k :: 0 <= k < |v| ==> text[i + k] == v[k]
  }

  ghost predicate Occurs(text: Bytes, v: Bytes) {
    exists i :: OccursAt(text, v, i)
  }

  lemma DiffersAt(text: Bytes, v: Bytes, i: nat, k: nat)
    requires k < |v| && (i + k < |text| ==> text[i + k] != v[k])
    ensures !OccursAt(text, v, i)
  {
  }

  /** Position of the leftmost occurrence of v at or after from, or -1. */
  function IndexFrom(text: Bytes, v: Bytes, from: nat): (r: int)
    ensures r == -1 || (from <= r && r + |v| <= |text|)
    decreases |text| - from
  {
    if from + |v| > |text| then -1
    else if OccursAt(text, v, from) then from
    else IndexFrom(text, v, from + 1)
  }

  lemma {:induction false} IndexFromIsLeftmost(text: Bytes, v: Bytes, from: nat)
    ensures var r := IndexFrom(text, v, from);
      if r < 0 then forall i :: from <= i ==> !OccursAt(text, v, i)
      else OccursAt(text, v, r) && forall i :: from <= i < r ==> !OccursAt(text, v, i)
    decreases |text| - from
  {
    if from + |v| <= |text| && !OccursAt(text, v, from) {
      IndexFromIsLeftmost(text, v, from + 1);
    }
  }

  lemma IndexFromIs(text: Bytes, v: Bytes, from: nat, at: nat)
    requires from <= at && OccursAt(text, v, at) && forall i :: from <= i < at ==> !OccursAt(text, v, i)
    ensures IndexFrom(text, v, from) == at
  {
    IndexFromIsLeftmost(text, v, from);
  }

  predicate IsHex(b: byte) {
    48 <= b <= 57 || 97 <= b <= 102
  }

  /** b may be byte k of a placeholder's interior. */
  predicate InteriorByte(k: nat, b: byte) {
    if k < 6 then b == TOKEN[k] else IsHex(b)
  }

  /** `TOKEN_` + six lower-case hex digits stand at position i. */
  predicate InteriorAt(s: Bytes, i: nat) {
    i + 12 <= |s| && forall j :: i <= j < i + 12 ==> InteriorByte(j - i, s[j])
  }

  /** A placeholder, `@TOKEN_` + six lower-case hex digits + `@`, stands at position i. */
  predicate PlaceholderAt(s: Bytes, i: nat) {
    i + PLACEHOLDER_LEN <= |s| && s[i] == AT && s[i + 13] == AT && InteriorAt(s, i + 1)
  }

  predicate IsPlaceholder(s: Bytes) {
    |s| == PLACEHOLDER_LEN && PlaceholderAt(s, 0)
  }

  /** What lies between the delimiters. */
  function Interior(p: Bytes): Bytes {
    if |p| < 2 then [] else p[1..|p| - 1]
  }

  lemma InteriorHasNoAt(s: Bytes, i: nat)
    requires InteriorAt(s, i)
    ensures forall j :: i <= j < i + 12 ==> s[j] != AT
  {
  }
}
