/**
 * The setter-to-variable map. JavaScript's `Map` iterates in insertion order and `set` on an
 * existing key replaces the value in place, so the map is a sequence of (setter, variable)
 * entries with distinct setters.
 */
module SetterMaps {
  import opened Wrappers
  import opened OrderedSets

  type SetterMap = seq<(string, string)>

  predicate KeysDistinct(m: SetterMap) {
    forall i, j :: 0 <= i < j < |m| ==> m[i].0 != m[j].0
  }

  /** The setters, in iteration order. */
  function Keys(m: SetterMap): (r: seq<string>)
    ensures |r| == |m| && forall i :: 0 <= i < |m| ==> r[i] == m[i].0
  {
    if |m| == 0 then [] else [m[0].0] + Keys(m[1..])
  }

  /** The index of the entry for setter `k`. */
  function Find(m: SetterMap, k: string): (r: Option<nat>)
    ensures r.Some? ==> r.value < |m| && m[r.value].0 == k && forall j :: 0 <= j < r.value ==> m[j].0 != k
    ensures r.None? ==> forall j :: 0 <= j < |m| ==> m[j].0 != k
  {
    if |m| == 0 then None
    else if m[0].0 == k then Some(0)
    else match Find(m[1..], k)
      case Some(i) => Some(i + 1)
      case None => None
  }

  /** `map.get(k)` */
  function Get(m: SetterMap, k: string): Option<string> {
    match Find(m, k)
    case Some(i) => Some(m[i].1)
    case None => None
  }

  /** `map.set(k, v)`: replace the value of an existing entry in place, or append a new entry. */
  function Put(m: SetterMap, k: string, v: string): (r: SetterMap)
    ensures KeysDistinct(m) ==> KeysDistinct(r)
    ensures Get(r, k) == Some(v)
    ensures forall k' :: k' != k ==> Get(r, k') == Get(m, k')
    ensures Find(m, k).Some? ==> Keys(r) == Keys(m)
    ensures Find(m, k).None? ==> Keys(r) == Keys(m) + [k]
  {
    match Find(m, k)
    case Some(i) =>
      var r := m[i := (k, v)];
      assert Keys(r) == Keys(m);
      FindUnique(r, k, i);
      FindReplace(m, i, k, v);
      r
    case None =>
      var r := m + [(k, v)];
      assert Keys(r) == Keys(m) + [k];
      FindUnique(r, k, |m|);
      FindAppendAll(m, k, v);
      r
  }

  lemma FindReplace(m: SetterMap, i: nat, k: string, v: string)
    requires i < |m| && m[i].0 == k
    ensures forall k' :: k' != k ==> Find(m[i := (k, v)], k') == Find(m, k')
  {
    forall k' | k' != k
      ensures Find(m[i := (k, v)], k') == Find(m, k')
    {
      var r := m[i := (k, v)];
      match Find(m, k')
      case Some(j) => FindUnique(r, k', j);
      case None =>
    }
  }

  lemma FindAppendAll(m: SetterMap, k: string, v: string)
    ensures forall k' :: k' != k ==> Find(m + [(k, v)], k') == Find(m, k')
  {
    forall k' | k' != k
      ensures Find(m + [(k, v)], k') == Find(m, k')
    {
      FindAppend(m, k, v, k');
    }
  }

  lemma FindAppend(m: SetterMap, k: string, v: string, k': string)
    requires k' != k
    ensures Find(m + [(k, v)], k') == Find(m, k')
  {
    var r := m + [(k, v)];
    match Find(m, k')
    case Some(i) =>
      assert r[i] == m[i];
      FindUnique(r, k', i);
    case None =>
      assert forall j :: 0 <= j < |r| ==> r[j].0 != k' by {
        assert forall j :: 0 <= j < |m| ==> r[j] == m[j];
      }
  }

  /** The first index whose key is `k` is what `Find` returns. */
  lemma FindUnique(m: SetterMap, k: string, i: nat)
    requires i < |m| && m[i].0 == k && forall j :: 0 <= j < i ==> m[j].0 != k
    ensures Find(m, k) == Some(i)
  {
  }

  // ---------------------------------------------------------------------------------------
  // The map of the whole-file scan: one `set(setter, variable)` per state declaration

  /** Every entry of `m` is a declaration `(variable, setter)` read backwards. */
  ghost predicate EntriesDeclared(m: SetterMap, decls: seq<(string, string)>) {
    forall e :: 0 <= e < |m| ==> exists k :: 0 <= k < |decls| && decls[k] == (m[e].1, m[e].0)
  }

  /** The setter map the whole-file scan builds from the state-declaration pattern. */
  function ScanSetterMap(decls: seq<(string, string)>): (m: SetterMap)
    ensures KeysDistinct(m)
    ensures EntriesDeclared(m, decls)
  {
    if |decls| == 0 then []
    else
      var m0 := ScanSetterMap(decls[..|decls| - 1]);
      var d := decls[|decls| - 1];
      ScanDeclared(decls, m0);
      Put(m0, d.1, d.0)
  }

  lemma ScanDeclared(decls: seq<(string, string)>, m0: SetterMap)
    requires |decls| > 0 && EntriesDeclared(m0, decls[..|decls| - 1])
    ensures EntriesDeclared(Put(m0, decls[|decls| - 1].1, decls[|decls| - 1].0), decls)
  {
    var n := |decls| - 1;
    var d := decls[n];
    var m := Put(m0, d.1, d.0);
    PutEntries(m0, d.1, d.0);
    forall e | 0 <= e < |m|
      ensures exists k :: 0 <= k < |decls| && decls[k] == (m[e].1, m[e].0)
    {
      if m[e] == (d.1, d.0) {
        assert decls[n] == (m[e].1, m[e].0);
      } else {
        var i :| 0 <= i < |m0| && m0[i] == m[e];
        var k :| 0 <= k < n && decls[..n][k] == (m0[i].1, m0[i].0);
        assert decls[k] == (m[e].1, m[e].0);
      }
    }
  }

  /** One step of the scan: the last declaration is a `set` on the map of the others. */
  lemma ScanStep(decls: seq<(string, string)>)
    requires |decls| > 0
    ensures ScanSetterMap(decls)
      == Put(ScanSetterMap(decls[..|decls| - 1]), decls[|decls| - 1].1, decls[|decls| - 1].0)
  {
  }

  /** The index of the last declaration whose setter is `setter`. */
  function LastDecl(decls: seq<(string, string)>, setter: string): (r: Option<nat>)
    ensures r.Some? ==> r.value < |decls| && decls[r.value].1 == setter
    ensures r.Some? ==> forall j :: r.value < j < |decls| ==> decls[j].1 != setter
    ensures r.None? ==> forall j :: 0 <= j < |decls| ==> decls[j].1 != setter
  {
    if |decls| == 0 then None
    else if decls[|decls| - 1].1 == setter then Some(|decls| - 1)
    else
      var r := LastDecl(decls[..|decls| - 1], setter);
      assert forall j :: 0 <= j < |decls| - 1 ==> decls[..|decls| - 1][j] == decls[j];
      r
  }

  /**
   * A later declaration of the same setter overwrites: the map sends a setter to the state
   * variable of its last declaration, and has an entry exactly for the declared setters.
   */
  lemma {:induction false} ScanSetterMapLastWins(decls: seq<(string, string)>, setter: string)
    ensures Get(ScanSetterMap(decls), setter) ==
      match LastDecl(decls, setter)
      case Some(i) => Some(decls[i].0)
      case None => None
    decreases |decls|
  {
    if |decls| > 0 {
      var n := |decls| - 1;
      var init := decls[..n];
      ScanSetterMapLastWins(init, setter);
      ScanStep(decls);
      if decls[n].1 != setter {
        assert LastDecl(decls, setter) == LastDecl(init, setter);
        match LastDecl(init, setter)
        case Some(i) => assert init[i] == decls[i];
        case None =>
      }
    }
  }

  /** The setters of the declarations, in declaration order, repeats kept. */
  function Setters(decls: seq<(string, string)>): (r: seq<string>)
    ensures |r| == |decls| && forall k :: 0 <= k < |decls| ==> r[k] == decls[k].1
  {
    if |decls| == 0 then []
    else
      var r := Setters(decls[..|decls| - 1]) + [decls[|decls| - 1].1];
      assert forall k :: 0 <= k < |decls| - 1 ==> decls[..|decls| - 1][k] == decls[k];
      r
  }

  /**
   * The map's setters, in iteration order, are the distinct declared setters ordered by their
   * first declaration: a re-declared setter keeps its place.
   */
  lemma {:induction false} ScanSetterMapKeyOrder(decls: seq<(string, string)>)
    ensures FirstOccurrenceOrder(Keys(ScanSetterMap(decls)), Setters(decls))
    decreases |decls|
  {
    if |decls| == 0 {
      assert Keys(ScanSetterMap(decls)) == [] && Setters(decls) == [];
    } else {
      var n := |decls| - 1;
      var init := decls[..n];
      var x := decls[n].1;
      var k0 := Keys(ScanSetterMap(init));
      var s0 := Setters(init);
      assert FirstOccurrenceOrder(AddUnique(k0, x), s0 + [x]) by {
        ScanSetterMapKeyOrder(init);
        AddUniqueStep(k0, s0, x);
      }
      assert Keys(ScanSetterMap(decls)) == AddUnique(k0, x) by {
        ScanKeysStep(decls);
      }
      assert Setters(decls) == s0 + [x];
    }
  }

  /** The setters after one more declaration: `set` adds its key as `Set.add` would. */
  lemma ScanKeysStep(decls: seq<(string, string)>)
    requires |decls| > 0
    ensures var m0 := ScanSetterMap(decls[..|decls| - 1]);
      Keys(ScanSetterMap(decls)) == AddUnique(Keys(m0), decls[|decls| - 1].1)
  {
    var m0 := ScanSetterMap(decls[..|decls| - 1]);
    var k := decls[|decls| - 1].1;
    ScanStep(decls);
    match Find(m0, k)
    case Some(i) =>
      assert Keys(m0)[i] == k;
    case None =>
      assert k !in Keys(m0);
  }

  lemma PutEntries(m: SetterMap, k: string, v: string)
    ensures forall e :: 0 <= e < |Put(m, k, v)| ==> Put(m, k, v)[e] == (k, v) || Put(m, k, v)[e] in m
  {
  }
}
