/**
 * The JavaScript string operations the extractor relies on, over `seq<char>`:
 * `String.prototype.includes`, `String.prototype.trim`, and the character classes
 * `\s`, `.` and `\w` of JavaScript regular expressions.
 */
module Text {
  import opened Wrappers

  /** JavaScript WhiteSpace: TAB, VT, FF, SP, NBSP, ZWNBSP and the Zs category. */
  predicate IsSpace(c: char) {
    || c == '\t' || c == '\U{000B}' || c == '\U{000C}' || c == ' '
    || c == '\U{00A0}' || c == '\U{FEFF}' || c == '\U{1680}'
    || ('\U{2000}' <= c <= '\U{200A}')
    || c == '\U{202F}' || c == '\U{205F}' || c == '\U{3000}'
  }

  /** JavaScript LineTerminator: LF, CR, LS, PS. These are the characters `.` does not match. */
  predicate IsLineTerminator(c: char) {
    c == '\n' || c == '\r' || c == '\U{2028}' || c == '\U{2029}'
  }

  /** The regex class `\s`, which is also the set `trim` removes. */
  predicate IsWs(c: char) {
    IsSpace(c) || IsLineTerminator(c)
  }

  /** The regex class `\w`: ASCII letters, digits and underscore. */
  predicate IsWordChar(c: char) {
    ('a' <= c <= 'z') || ('A' <= c <= 'Z') || ('0' <= c <= '9') || c == '_'
  }

  predicate AllWs(s: string) {
    forall k :: 0 <= k < |s| ==> IsWs(s[k])
  }

  /** Every character of `s` from `i` up to `j` is `\s`. */
  predicate WsRun(s: string, i: nat, j: nat) {
    i <= j <= |s| && forall k {:trigger IsWs(s[k])} :: i <= k < j ==> IsWs(s[k])
  }

  /** `p` occurs in `s` starting at index `i`. */
  predicate OccursAt(s: string, p: string, i: int) {
    0 <= i && i + |p| <= |s| && forall k :: 0 <= k < |p| ==> s[i + k] == p[k]
  }

  /** The index of the first occurrence of `p` in `s` at or after `from`. */
  function IndexOf(s: string, p: string, from: nat): (r: Option<nat>)
    ensures r.Some? ==> from <= r.value && OccursAt(s, p, r.value)
    ensures r.Some? ==> forall k :: from <= k < r.value ==> !OccursAt(s, p, k)
    ensures r.None? ==> forall k :: from <= k ==> !OccursAt(s, p, k)
    decreases |s| - from
  {
    if from + |p| > |s| then None
    else if OccursAt(s, p, from) then Some(from)
    else IndexOf(s, p, from + 1)
  }

  /** `s.includes(p)` */
  predicate Contains(s: string, p: string) {
    IndexOf(s, p, 0).Some?
  }

  /** `includes` is exactly "occurs at some index"; in particular the empty string is in every string. */
  lemma ContainsIff(s: string, p: string)
    ensures Contains(s, p) <==> exists i :: OccursAt(s, p, i)
    ensures Contains(s, p) ==> |p| <= |s|
    ensures Contains(s, [])
  {
    assert OccursAt(s, [], 0);
  }

  /** A string occurring inside a part of `s` occurs in `s`. */
  lemma ContainsInfix(s: string, a: nat, b: nat, p: string)
    requires a <= b <= |s|
    requires Contains(s[a..b], p)
    ensures Contains(s, p)
  {
    var i := IndexOf(s[a..b], p, 0).value;
    assert OccursAt(s[a..b], p, i);
    assert s[a..b][i..i + |p|] == s[a + i..a + i + |p|];
    assert OccursAt(s, p, a + i);
  }

  /** A part of `s` in which no occurrence of a non-empty `p` starts does not contain `p`. */
  lemma NotContainsInfix(s: string, a: nat, b: nat, p: string)
    requires a <= b <= |s| && |p| > 0
    requires forall k :: a <= k < b ==> !OccursAt(s, p, k)
    ensures !Contains(s[a..b], p)
  {
    var sub := s[a..b];
    forall i | 0 <= i && i + |p| <= |sub|
      ensures !OccursAt(sub, p, i)
    {
      SliceOfSlice(s, a, b, i, i + |p|);
      assert !OccursAt(s, p, a + i);
    }
    ContainsIff(sub, p);
  }

  /** A slice of a slice is a slice of the whole. */
  lemma SliceOfSlice<T>(s: seq<T>, a: nat, b: nat, i: nat, j: nat)
    requires a <= b <= |s| && i <= j <= b - a
    ensures s[a..b][i..j] == s[a + i..a + j]
  {
    assert forall k :: 0 <= k < j - i ==> s[a..b][i..j][k] == s[a..b][i + k];
  }

  /** `p` begins at index `i` of `s`; false when `i` is out of range. */
  predicate StartsAt(s: string, p: string, i: nat) {
    OccursAt(s, p, i)
  }

  /** The position after the maximal run of `\s` characters starting at `i` (greedy `\s*`). */
  function SkipWs(s: string, i: nat): (j: nat)
    requires i <= |s|
    ensures i <= j <= |s|
    ensures WsRun(s, i, j)
    ensures j == |s| || !IsWs(s[j])
    decreases |s| - i
  {
    if i < |s| && IsWs(s[i]) then SkipWs(s, i + 1) else i
  }

  /** The start of the maximal run of `\s` characters ending at `j`, not going below `lo`. */
  function SkipWsBack(s: string, lo: nat, j: nat): (b: nat)
    requires lo <= j <= |s|
    ensures lo <= b <= j
    ensures AllWs(s[b..j])
    ensures b == lo || !IsWs(s[b - 1])
    decreases j
  {
    if j > lo && IsWs(s[j - 1]) then
      var b := SkipWsBack(s, lo, j - 1);
      assert s[b..j] == s[b..j - 1] + [s[j - 1]];
      b
    else j
  }

  /** `s.trim()`: the part of `s` between its leading and trailing `\s` runs. */
  function Trim(s: string): (r: string)
    ensures exists a, b :: 0 <= a <= b <= |s| && AllWs(s[..a]) && AllWs(s[b..]) && r == s[a..b]
    ensures r == [] || (!IsWs(r[0]) && !IsWs(r[|r| - 1]))
  {
    var a := SkipWs(s, 0);
    var b := SkipWsBack(s, a, |s|);
    assert s[..a] == s[0..a] && s[b..] == s[b..|s|];
    s[a..b]
  }
}
