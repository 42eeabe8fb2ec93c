/**
 * JavaScript's `Set<string>` iterates in insertion order, so it is a sequence without
 * duplicates; `add` appends a new element and leaves a present one where it is.
 */
module OrderedSets {
  /** `set.add(x)` on an insertion-ordered set. */
  function AddUnique(vars: seq<string>, x: string): seq<string> {
    if x in vars then vars else vars + [x]
  }

  /** Adding `names` one by one to the insertion-ordered set `vars`. */
  function AddAll(vars: seq<string>, names: seq<string>): seq<string>
    decreases |names|
  {
    if |names| == 0 then vars else AddAll(AddUnique(vars, names[0]), names[1..])
  }

  predicate NoDup(s: seq<string>) {
    forall i, j :: 0 <= i < j < |s| ==> s[i] != s[j]
  }

  /** The position of the first occurrence of `x` in `s`. */
  function FirstIndex(s: seq<string>, x: string): (r: nat)
    requires x in s
    ensures r < |s| && s[r] == x && forall j :: 0 <= j < r ==> s[j] != x
  {
    if s[0] == x then 0 else 1 + FirstIndex(s[1..], x)
  }

  /** `r` lists the distinct elements of `s`, ordered by where each first occurs in `s`. */
  ghost predicate FirstOccurrenceOrder(r: seq<string>, s: seq<string>) {
    && NoDup(r)
    && (forall x :: x in r <==> x in s)
    && forall i, j :: 0 <= i < j < |r| ==> FirstIndex(s, r[i]) < FirstIndex(s, r[j])
  }

  lemma FirstIndexExtend(s: seq<string>, x: string, y: string)
    requires y in s
    ensures FirstIndex(s + [x], y) == FirstIndex(s, y)
  {
    var i := FirstIndex(s, y);
    var t := s + [x];
    assert t[i] == y;
    assert forall j :: 0 <= j < i ==> t[j] == s[j];
    FirstIndexUnique(t, y, i);
  }

  lemma FirstIndexUnique(s: seq<string>, x: string, i: nat)
    requires i < |s| && s[i] == x && forall j :: 0 <= j < i ==> s[j] != x
    ensures FirstIndex(s, x) == i
  {
  }

  lemma AddUniqueStep(r: seq<string>, s: seq<string>, x: string)
    requires FirstOccurrenceOrder(r, s)
    ensures FirstOccurrenceOrder(AddUnique(r, x), s + [x])
  {
    var r' := AddUnique(r, x);
    var s' := s + [x];
    forall y | y in s
      ensures FirstIndex(s', y) == FirstIndex(s, y)
    {
      FirstIndexExtend(s, x, y);
    }
    if x !in r {
      assert x !in s;
      FirstIndexUnique(s', x, |s|);
      forall i, j | 0 <= i < j < |r'|
        ensures FirstIndex(s', r'[i]) < FirstIndex(s', r'[j])
      {
        if j < |r| {
          assert r'[i] == r[i] && r'[j] == r[j];
        } else {
          assert r'[i] == r[i] && r[i] in s;
        }
      }
    } else {
      forall i, j | 0 <= i < j < |r'|
        ensures FirstIndex(s', r'[i]) < FirstIndex(s', r'[j])
      {
        assert r'[i] in s && r'[j] in s;
      }
    }
  }

  lemma {:induction false} AddAllOrder(r: seq<string>, s: seq<string>, names: seq<string>)
    requires FirstOccurrenceOrder(r, s)
    ensures FirstOccurrenceOrder(AddAll(r, names), s + names)
    decreases |names|
  {
    if |names| == 0 {
      assert s + names == s;
    } else {
      var x := names[0];
      var r1 := AddUnique(r, x);
      var s1 := s + [x];
      assert FirstOccurrenceOrder(r1, s1) by {
        AddUniqueStep(r, s, x);
      }
      assert s1 + names[1..] == s + names;
      assert AddAll(r, names) == AddAll(r1, names[1..]);
      AddAllOrder(r1, s1, names[1..]);
    }
  }
}
