/**
 * `extractUseStateHooks` in node_server/src/utils/testComponentProperties.ts: the tree-based
 * setter map used by the per-branch miner. Every call expression of the file is given, in
 * document order, with the two ancestors the code inspects.
 */
module Hooks {
  import opened Wrappers
  import opened Syntax
  import opened SetterMaps

  /** The grandparent of a call whose parent is an array literal. */
  datatype Grand = VarDeclGrand(name: BindingName) | OtherGrand

  /** The parent of a call expression. */
  datatype Parent = ArrayLiteralParent(grand: Grand) | VarDeclParent(name: BindingName) | OtherParent

  datatype CallSite = CallSite(callee: Callee, parent: Parent)

  /**
   * The (setter, variable) pair a call records: a `useState` call that is an element of an
   * array literal initialising a declaration whose name is an array binding of two or more
   * elements. The texts are those of the first two elements.
   */
  function Recorded(c: CallSite): Option<(string, string)> {
    if IsUseState(c.callee) && c.parent.ArrayLiteralParent? && c.parent.grand.VarDeclGrand?
       && c.parent.grand.name.ArrayBinding? && |c.parent.grand.name.elements| >= 2
    then
      var els := c.parent.grand.name.elements;
      Some((ElemText(els[1]), ElemText(els[0])))
    else None
  }

  /** `extractUseStateHooks(sourceFile)` */
  function ExtractUseStateHooks(calls: seq<CallSite>): (m: SetterMap)
    ensures KeysDistinct(m)
    ensures forall e :: 0 <= e < |m| ==> exists k :: 0 <= k < |calls| && Recorded(calls[k]) == Some(m[e])
    decreases |calls|
  {
    if |calls| == 0 then []
    else
      var m0 := ExtractUseStateHooks(calls[..|calls| - 1]);
      var c := calls[|calls| - 1];
      assert forall k :: 0 <= k < |calls| - 1 ==> calls[..|calls| - 1][k] == calls[k];
      match Recorded(c)
      case Some(p) =>
        var m := Put(m0, p.0, p.1);
        PutOrigin(m0, p.0, p.1);
        m
      case None => m0
  }

  lemma PutOrigin(m: SetterMap, k: string, v: string)
    ensures forall e :: 0 <= e < |Put(m, k, v)| ==> Put(m, k, v)[e] == (k, v) || Put(m, k, v)[e] in m
  {
  }

  /** The index of the last call recording a pair for setter `k`, if any. */
  function LastRecording(calls: seq<CallSite>, k: string): (r: Option<nat>)
    ensures r.Some? ==> r.value < |calls| && Recorded(calls[r.value]).Some? && Recorded(calls[r.value]).value.0 == k
    ensures r.Some? ==> forall j :: r.value < j < |calls| ==> Recorded(calls[j]).None? || Recorded(calls[j]).value.0 != k
    ensures r.None? ==> forall j :: 0 <= j < |calls| ==> Recorded(calls[j]).None? || Recorded(calls[j]).value.0 != k
    decreases |calls|
  {
    if |calls| == 0 then None
    else
      var c := calls[|calls| - 1];
      if Recorded(c).Some? && Recorded(c).value.0 == k then Some(|calls| - 1)
      else
        var r := LastRecording(calls[..|calls| - 1], k);
        assert forall j :: 0 <= j < |calls| - 1 ==> calls[..|calls| - 1][j] == calls[j];
        r
  }

  /**
   * The map sends a setter to the variable of the last call recording it (a later `set`
   * overwrites), and has no entry for a setter no call records.
   */
  lemma {:induction false} LastRecordingWins(calls: seq<CallSite>, k: string)
    ensures Get(ExtractUseStateHooks(calls), k) ==
      match LastRecording(calls, k)
      case Some(i) => Some(Recorded(calls[i]).value.1)
      case None => None
    decreases |calls|
  {
    if |calls| > 0 {
      var init := calls[..|calls| - 1];
      LastRecordingWins(init, k);
      assert forall j :: 0 <= j < |calls| - 1 ==> init[j] == calls[j];
    }
  }

  /**
   * The usual declaration `const [v, setV] = useState(x)` makes the call's parent the
   * declaration itself, not an array literal, so it records nothing.
   */
  lemma {:induction false} DirectDeclarationsRecordNothing(calls: seq<CallSite>)
    requires forall k :: 0 <= k < |calls| ==> calls[k].parent.VarDeclParent?
    ensures ExtractUseStateHooks(calls) == []
    decreases |calls|
  {
    if |calls| > 0 {
      var init := calls[..|calls| - 1];
      assert forall j :: 0 <= j < |calls| - 1 ==> init[j] == calls[j];
      DirectDeclarationsRecordNothing(init);
    }
  }

  /** A call recorded by the guard: `const [a, b] = [useState(x), y]` records `b -> a`. */
  lemma ArrayLiteralInitialiserRecords(callee: Callee, a: string, b: string)
    requires IsUseState(callee)
    ensures ExtractUseStateHooks([CallSite(callee, ArrayLiteralParent(VarDeclGrand(ArrayBinding([Element(a, a), Element(b, b)]))))]) == [(b, a)]
  {
    var c := CallSite(callee, ArrayLiteralParent(VarDeclGrand(ArrayBinding([Element(a, a), Element(b, b)]))));
    assert [c][..0] == [];
  }
}
