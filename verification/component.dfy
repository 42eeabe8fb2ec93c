/**
 * The branch-chain walker and the top-level driver: `extractJsxReturnContent`,
 * `processIfElseChain`, `parseReactComponent` and `testComponentProperties` in
 * node_server/src/utils/testComponentProperties.ts. The ts-morph tree is replaced by the
 * if-statements of the file (in document order) and its call sites.
 */
module Component {
  import opened Wrappers
  import opened Text
  import opened Logic
  import opened Model
  import opened Guards
  import opened Assertions
  import opened Patterns
  import opened SetterMaps
  import opened Miner
  import opened Hooks
  import opened OrderedSets

  /** One guarded alternative of an if-else-if chain: its guard, the text of its then-branch, and what follows. */
  datatype Alt = Alt(guard: Expr, thenText: string, next: Next)
  /** What follows a then-branch: another `if` as the else-statement, a final else, or nothing. */
  datatype Next = ElseIf(alt: Alt) | Else(text: string) | End

  /** An if-statement of the file, with the two facts the driver tests about its position. */
  datatype IfStatement = IfStatement(hasIfAncestor: bool, parentIsCaseClause: bool, chain: Alt)

  /** What the driver sees of a component file. */
  datatype SourceFile = SourceFile(text: string, ifStatements: seq<IfStatement>, calls: seq<CallSite>)

  /** One entry of the (never filled) `assertions` field of a parse result. */
  datatype AssertionSet = AssertionSet(preconditionals: Cnf, name: string, cnf: Cnf)

  datatype ParseResult = ParseResult(
    stateVariables: seq<string>,
    pbtVariables: seq<string>,
    branches: seq<Branch>,
    assertions: seq<AssertionSet>)

  // ---------------------------------------------------------------------------------------
  // extractJsxReturnContent and the branch it feeds

  /**
   * `extractJsxReturnContent(text) || text`: the capture of the first return pattern, or the
   * whole text when there is no match or the capture is empty.
   */
  function JsxOrText(text: string): (r: string)
    ensures FirstReturnBody(text).Some? && FirstReturnBody(text).value != [] ==> r == FirstReturnBody(text).value
    ensures FirstReturnBody(text).None? || FirstReturnBody(text).value == [] ==> r == text
    ensures r == text || exists k: nat :: ReturnAt(text, k).Some? && r == ReturnAt(text, k).value.0
    ensures r != text ==> !Contains(r, ");")
  {
    match FirstReturnBody(text)
    case Some(c) => if c != [] then c else text
    case None => text
  }

  /**
   * Stated over the matches themselves: with a leftmost match at `k`, the mined text is its
   * capture unless that capture is empty, and the whole text then.
   */
  lemma JsxOrTextLeftmost(text: string, k: nat)
    requires ReturnAt(text, k).Some? && forall j: nat :: j < k ==> ReturnAt(text, j).None?
    ensures ReturnAt(text, k).value.0 != [] ==> JsxOrText(text) == ReturnAt(text, k).value.0
    ensures ReturnAt(text, k).value.0 == [] ==> JsxOrText(text) == text
  {
    var n := NextReturn(text, 0);
    assert n.Some?;
    var i := n.value.0;
    assert ReturnAt(text, i).Some?;
    assert !(i < k);
    assert !(k < i);
    assert FirstReturnBody(text) == Some(ReturnAt(text, k).value.0);
  }

  /** Without any match of the return pattern the whole alternative text is mined. */
  lemma JsxOrTextNoMatch(text: string)
    requires forall k: nat :: ReturnAt(text, k).None?
    ensures JsxOrText(text) == text
  {
  }

  /** The branch for one alternative: implications read the full text, transitions the return body. */
  function MakeBranch(conditions: Cnf, text: string, props: seq<PbtAssertion>, m: SetterMap): (b: Branch)
    ensures b.conditions == conditions
    ensures |b.implications| == |props|
    ensures forall k :: 0 <= k < |props| ==>
              && b.implications[k].name == props[k].name
              && (b.implications[k].assignment <==> props[k].TextAssertion? && Contains(text, props[k].textToFind))
    ensures b.transitions == ExtractStateTransitions(JsxOrText(text), m)
  {
    Branch(conditions, Implications(props, text), ExtractStateTransitions(JsxOrText(text), m))
  }

  // ---------------------------------------------------------------------------------------
  // processIfElseChain

  /** The names of a CNF's literals, clause by clause, in order (duplicates kept). */
  function GuardNames(f: Cnf): (r: seq<string>)
    ensures forall x :: x in r <==> exists i, j :: 0 <= i < |f| && 0 <= j < |f[i]| && f[i][j].name == x
  {
    CnfNames(f)
  }

  /**
   * The alternatives of a chain as (conditions, text) arms: one per guarded alternative, then
   * one with no conditions for a final else.
   */
  function ChainArms(alt: Alt): seq<(Cnf, string)> {
    [(ExtractCnf(alt.guard), alt.thenText)]
    + match alt.next
      case ElseIf(a) => ChainArms(a)
      case Else(t) => [([], t)]
      case End => []
  }

  /** One branch per arm, in order. */
  function BranchesOf(arms: seq<(Cnf, string)>, m: SetterMap, props: seq<PbtAssertion>): seq<Branch> {
    if |arms| == 0 then [] else [MakeBranch(arms[0].0, arms[0].1, props, m)] + BranchesOf(arms[1..], m, props)
  }

  lemma {:induction false} BranchesOfMeaning(arms: seq<(Cnf, string)>, m: SetterMap, props: seq<PbtAssertion>)
    ensures |BranchesOf(arms, m, props)| == |arms|
    ensures forall k :: 0 <= k < |arms| ==> BranchesOf(arms, m, props)[k] == MakeBranch(arms[k].0, arms[k].1, props, m)
  {
    if |arms| > 0 {
      BranchesOfMeaning(arms[1..], m, props);
      assert forall k :: 1 <= k < |arms| ==> arms[1..][k - 1] == arms[k];
    }
  }

  /** The branches a chain contributes. */
  function ChainBranches(alt: Alt, m: SetterMap, props: seq<PbtAssertion>): seq<Branch> {
    BranchesOf(ChainArms(alt), m, props)
  }

  /** The guard-literal names of a chain, alternative by alternative. */
  function ChainNames(alt: Alt): seq<string> {
    GuardNames(ExtractCnf(alt.guard))
    + match alt.next
      case ElseIf(a) => ChainNames(a)
      case _ => []
  }

  /**
   * `processIfElseChain(ifStmt, map, properties, branches, uniqueStateVars)`: the branches and
   * the state-variable set after the chain has been walked.
   */
  function ProcessIfElseChain(alt: Alt, m: SetterMap, props: seq<PbtAssertion>, branches: seq<Branch>, vars: seq<string>)
    : (seq<Branch>, seq<string>)
  {
    (branches + ChainBranches(alt, m, props), AddAll(vars, ChainNames(alt)))
  }

  /** The guards of a chain's alternatives, in order. */
  function ChainGuards(alt: Alt): (r: seq<Expr>)
    ensures |r| >= 1 && r[0] == alt.guard
  {
    [alt.guard] + match alt.next
      case ElseIf(a) => ChainGuards(a)
      case _ => []
  }

  /** The then-texts of a chain's alternatives, in order. */
  function ThenTexts(alt: Alt): (r: seq<string>)
    ensures |r| == |ChainGuards(alt)|
  {
    [alt.thenText] + match alt.next
      case ElseIf(a) => ThenTexts(a)
      case _ => []
  }

  /** The text of the chain's final else, if it has one. */
  function FinalElse(alt: Alt): Option<string> {
    match alt.next
    case ElseIf(a) => FinalElse(a)
    case Else(t) => Some(t)
    case End => None
  }

  /**
   * A chain of n guarded alternatives yields n arms in order, the k-th conditioned on the k-th
   * guard's CNF and carrying the k-th then-text, plus an arm with no conditions for a final
   * else, and nothing more.
   */
  lemma {:induction false} ChainShape(alt: Alt)
    ensures var arms := ChainArms(alt);
      && |arms| == |ChainGuards(alt)| + (if FinalElse(alt).Some? then 1 else 0)
      && (forall k :: 0 <= k < |ChainGuards(alt)| ==> arms[k] == (ExtractCnf(ChainGuards(alt)[k]), ThenTexts(alt)[k]))
      && (FinalElse(alt).Some? ==> arms[|arms| - 1] == ([], FinalElse(alt).value))
  {
    match alt.next
    case ElseIf(a) =>
      ChainShape(a);
      assert forall k :: 1 <= k < |ChainGuards(alt)| ==> ChainGuards(alt)[k] == ChainGuards(a)[k - 1] && ThenTexts(alt)[k] == ThenTexts(a)[k - 1];
    case Else(t) =>
    case End =>
  }

  /** Guarded branches always carry at least one clause, so empty conditions mark exactly the final else. */
  lemma {:induction false} EmptyConditionsOnlyForElse(alt: Alt, m: SetterMap, props: seq<PbtAssertion>, k: nat)
    requires k < |ChainBranches(alt, m, props)|
    ensures ChainBranches(alt, m, props)[k].conditions == [] <==>
              FinalElse(alt).Some? && k == |ChainBranches(alt, m, props)| - 1
  {
    ChainShape(alt);
    BranchesOfMeaning(ChainArms(alt), m, props);
    if k < |ChainGuards(alt)| {
      var c := ExtractCnf(ChainGuards(alt)[k]);
      assert |c| >= 1;
    }
  }



  /**
   * One call of the chain walker: the branches already collected stay in front, followed by
   * one branch per guarded alternative and one with no conditions for a final else; the
   * variable set grows by the chain's guard names, keeping first-occurrence order.
   */
  lemma ProcessIfElseChainMeaning(alt: Alt, m: SetterMap, props: seq<PbtAssertion>, branches: seq<Branch>,
                                  vars: seq<string>, seen: seq<string>)
    requires FirstOccurrenceOrder(vars, seen)
    ensures var r := ProcessIfElseChain(alt, m, props, branches, vars);
      && |r.0| == |branches| + |ChainGuards(alt)| + (if FinalElse(alt).Some? then 1 else 0)
      && r.0[..|branches|] == branches
      && (forall k :: 0 <= k < |ChainGuards(alt)| ==>
            r.0[|branches| + k] == MakeBranch(ExtractCnf(ChainGuards(alt)[k]), ThenTexts(alt)[k], props, m))
      && (FinalElse(alt).Some? ==> r.0[|r.0| - 1] == MakeBranch([], FinalElse(alt).value, props, m))
      && FirstOccurrenceOrder(r.1, seen + ChainNames(alt))
  {
    ChainShape(alt);
    BranchesOfMeaning(ChainArms(alt), m, props);
    AddAllOrder(vars, seen, ChainNames(alt));
  }

  // ---------------------------------------------------------------------------------------
  // parseReactComponent

  /** The statement starts a chain: no if-statement ancestor, and not directly under a `case`. */
  predicate IsChainStart(st: IfStatement) {
    !st.hasIfAncestor && !st.parentIsCaseClause
  }

  /** The statements that start a chain, in document order. */
  function ChainStarts(ifs: seq<IfStatement>): (r: seq<IfStatement>)
    ensures forall s :: s in r <==> s in ifs && !s.hasIfAncestor && !s.parentIsCaseClause
    ensures |r| <= |ifs|
  {
    if |ifs| == 0 then []
    else
      (if IsChainStart(ifs[0]) then [ifs[0]] else [])
      + ChainStarts(ifs[1..])
  }

  /** The positions, from `from` on, of the statements that start a chain, in increasing order. */
  function StartIndices(ifs: seq<IfStatement>, from: nat): (idx: seq<nat>)
    requires from <= |ifs|
    ensures forall k :: 0 <= k < |idx| ==> from <= idx[k] < |ifs|
    ensures forall a, b :: 0 <= a < b < |idx| ==> idx[a] < idx[b]
    decreases |ifs| - from
  {
    if from == |ifs| then []
    else (if IsChainStart(ifs[from]) then [from] else []) + StartIndices(ifs, from + 1)
  }

  /** The start positions are exactly the positions of the qualifying statements. */
  lemma {:induction false} StartIndicesExact(ifs: seq<IfStatement>, from: nat, i: nat)
    requires from <= i < |ifs|
    ensures i in StartIndices(ifs, from) <==> IsChainStart(ifs[i])
    decreases |ifs| - from
  {
    var rest := StartIndices(ifs, from + 1);
    if i == from {
      assert from !in rest;
    } else {
      StartIndicesExact(ifs, from + 1, i);
    }
  }

  /** `ChainStarts` is the order-preserving filter: its k-th element sits at the k-th start position. */
  lemma {:induction false} ChainStartsInOrder(ifs: seq<IfStatement>, from: nat)
    requires from <= |ifs|
    ensures |StartIndices(ifs, from)| == |ChainStarts(ifs[from..])|
    ensures forall k :: 0 <= k < |StartIndices(ifs, from)| ==> ChainStarts(ifs[from..])[k] == ifs[StartIndices(ifs, from)[k]]
    decreases |ifs| - from
  {
    if from < |ifs| {
      ChainStartsInOrder(ifs, from + 1);
      assert ifs[from..][1..] == ifs[from + 1..];
      var rest := StartIndices(ifs, from + 1);
      var cs := ChainStarts(ifs[from + 1..]);
      var idx := StartIndices(ifs, from);
      var all := ChainStarts(ifs[from..]);
      if IsChainStart(ifs[from]) {
        assert all == [ifs[from]] + cs;
        assert idx == [from] + rest;
        forall k | 0 <= k < |idx|
          ensures all[k] == ifs[idx[k]]
        {
          if k > 0 {
            assert all[k] == cs[k - 1] && idx[k] == rest[k - 1];
          }
        }
      } else {
        assert all == cs && idx == rest;
      }
    }
  }

  /** The walk over the top-level if-statements, threading the branches and the variable set. */
  function Walk(ifs: seq<IfStatement>, m: SetterMap, props: seq<PbtAssertion>, branches: seq<Branch>, vars: seq<string>)
    : (seq<Branch>, seq<string>)
    decreases |ifs|
  {
    if |ifs| == 0 then (branches, vars)
    else if ifs[0].hasIfAncestor || ifs[0].parentIsCaseClause then Walk(ifs[1..], m, props, branches, vars)
    else
      var (b, v) := ProcessIfElseChain(ifs[0].chain, m, props, branches, vars);
      Walk(ifs[1..], m, props, b, v)
  }

  /** The branches of every chain started by a top-level statement, in document order. */
  function AllBranches(starts: seq<IfStatement>, m: SetterMap, props: seq<PbtAssertion>): seq<Branch> {
    if |starts| == 0 then [] else ChainBranches(starts[0].chain, m, props) + AllBranches(starts[1..], m, props)
  }

  /** The guard names of every chain started by a top-level statement, in document order. */
  function AllNames(starts: seq<IfStatement>): seq<string> {
    if |starts| == 0 then [] else ChainNames(starts[0].chain) + AllNames(starts[1..])
  }

  lemma {:induction false} WalkBranches(ifs: seq<IfStatement>, m: SetterMap, props: seq<PbtAssertion>, branches: seq<Branch>, vars: seq<string>)
    ensures Walk(ifs, m, props, branches, vars).0 == branches + AllBranches(ChainStarts(ifs), m, props)
    decreases |ifs|
  {
    if |ifs| == 0 {
      assert branches + [] == branches;
    } else if ifs[0].hasIfAncestor || ifs[0].parentIsCaseClause {
      assert ChainStarts(ifs) == ChainStarts(ifs[1..]);
      WalkBranches(ifs[1..], m, props, branches, vars);
    } else {
      var chain := ifs[0].chain;
      var cb := ChainBranches(chain, m, props);
      var b := branches + cb;
      var v := AddAll(vars, ChainNames(chain));
      var rest := ChainStarts(ifs[1..]);
      assert Walk(ifs, m, props, branches, vars) == Walk(ifs[1..], m, props, b, v);
      assert ChainStarts(ifs) == [ifs[0]] + rest;
      assert AllBranches(ChainStarts(ifs), m, props) == cb + AllBranches(rest, m, props);
      ConcatAssoc(branches, cb, AllBranches(rest, m, props));
      WalkBranches(ifs[1..], m, props, b, v);
    }
  }

  lemma ConcatAssoc<T>(a: seq<T>, b: seq<T>, c: seq<T>)
    ensures a + (b + c) == (a + b) + c
  {
  }

  lemma {:induction false} WalkVars(ifs: seq<IfStatement>, m: SetterMap, props: seq<PbtAssertion>, branches: seq<Branch>, vars: seq<string>)
    ensures Walk(ifs, m, props, branches, vars).1 == AddAll(vars, AllNames(ChainStarts(ifs)))
    decreases |ifs|
  {
    if |ifs| == 0 {
    } else if ifs[0].hasIfAncestor || ifs[0].parentIsCaseClause {
      assert ChainStarts(ifs) == ChainStarts(ifs[1..]);
      WalkVars(ifs[1..], m, props, branches, vars);
    } else {
      var chain := ifs[0].chain;
      var b := branches + ChainBranches(chain, m, props);
      var v := AddAll(vars, ChainNames(chain));
      var rest := ChainStarts(ifs[1..]);
      assert Walk(ifs, m, props, branches, vars) == Walk(ifs[1..], m, props, b, v);
      assert ChainStarts(ifs) == [ifs[0]] + rest;
      assert AllNames(ChainStarts(ifs)) == ChainNames(chain) + AllNames(rest);
      AddAllConcat(vars, ChainNames(chain), AllNames(rest));
      WalkVars(ifs[1..], m, props, b, v);
    }
  }

  lemma {:induction false} AddAllConcat(vars: seq<string>, a: seq<string>, b: seq<string>)
    ensures AddAll(AddAll(vars, a), b) == AddAll(vars, a + b)
    decreases |a|
  {
    if |a| > 0 {
      AddAllConcat(AddUnique(vars, a[0]), a[1..], b);
      assert (a + b)[1..] == a[1..] + b;
    } else {
      assert a + b == b;
    }
  }

  /** The property names, in order. */
  function Names(props: seq<PbtAssertion>): (r: seq<string>)
    ensures |r| == |props| && forall k :: 0 <= k < |props| ==> r[k] == props[k].name
  {
    if |props| == 0 then [] else [props[0].name] + Names(props[1..])
  }

  /** `parseReactComponent(file, properties)` */
  function ParseReactComponent(file: SourceFile, props: seq<PbtAssertion>): (r: seq<ParseResult>)
    ensures |r| == 1
    ensures r[0].assertions == []
    ensures r[0].pbtVariables == Names(props)
  {
    var m := ExtractUseStateHooks(file.calls);
    var (branches, vars) := Walk(file.ifStatements, m, props, [], []);
    [ParseResult(vars, Names(props), branches, [])]
  }

  /**
   * The single result's branches are those of the top-level chains in document order, and its
   * state variables are the guard-literal names of those chains, each once, in the order they
   * first occur.
   */
  lemma ParseReactComponentMeaning(file: SourceFile, props: seq<PbtAssertion>)
    ensures var starts := ChainStarts(file.ifStatements);
      && ParseReactComponent(file, props)[0].branches == AllBranches(starts, ExtractUseStateHooks(file.calls), props)
      && FirstOccurrenceOrder(ParseReactComponent(file, props)[0].stateVariables, AllNames(starts))
  {
    var m := ExtractUseStateHooks(file.calls);
    var starts := ChainStarts(file.ifStatements);
    WalkBranches(file.ifStatements, m, props, [], []);
    WalkVars(file.ifStatements, m, props, [], []);
    assert [] + AllBranches(starts, m, props) == AllBranches(starts, m, props);
    AddAllOrder([], [], AllNames(starts));
    assert [] + AllNames(starts) == AllNames(starts);
  }

  // ---------------------------------------------------------------------------------------
  // testComponentProperties

  /** Whether the whole-file scan has a non-empty entry at position `i`. */
  predicate HasScanEntry(scan: seq<seq<Transition>>, i: nat)
  {
    i < |scan| && |scan[i]| > 0
  }

  /** One branch of the merge: the scan's entry replaces the mined transitions when present. */
  function MergeBranch(b: Branch, scan: seq<seq<Transition>>, i: nat): (r: Branch)
    ensures r.conditions == b.conditions && r.implications == b.implications
    ensures HasScanEntry(scan, i) ==> r.transitions == scan[i]
    ensures !HasScanEntry(scan, i) ==> r == b
  {
    if HasScanEntry(scan, i) then b.(transitions := scan[i]) else b
  }

  /**
   * The merge: branch k (counting from 0 across the results) takes the scan's entry k (the
   * source numbers both from 1) when that entry exists and is non-empty.
   */
  function MergeBranches(branches: seq<Branch>, scan: seq<seq<Transition>>, offset: nat): (r: seq<Branch>)
    ensures |r| == |branches|
    ensures forall k :: 0 <= k < |branches| ==> r[k] == MergeBranch(branches[k], scan, offset + k)
    decreases |branches|
  {
    if |branches| == 0 then []
    else [MergeBranch(branches[0], scan, offset)] + MergeBranches(branches[1..], scan, offset + 1)
  }

  /** The merge over a list of results, the branch numbering running on across them. */
  function MergeResults(results: seq<ParseResult>, scan: seq<seq<Transition>>, offset: nat): (r: seq<ParseResult>)
    ensures |r| == |results|
    ensures forall k :: 0 <= k < |results| ==>
              && r[k].stateVariables == results[k].stateVariables
              && r[k].pbtVariables == results[k].pbtVariables
              && r[k].assertions == results[k].assertions
    decreases |results|
  {
    if |results| == 0 then []
    else
      var res := results[0];
      var merged := res.(branches := MergeBranches(res.branches, scan, offset));
      var rest := MergeResults(results[1..], scan, offset + |res.branches|);
      assert forall k :: 1 <= k < |results| ==> results[1..][k - 1] == results[k];
      [merged] + rest
  }

  /** `testComponentProperties(file, properties)` */
  function TestComponentProperties(file: SourceFile, props: seq<PbtAssertion>): (r: seq<ParseResult>)
    ensures |r| == 1
    ensures r[0].stateVariables == ParseReactComponent(file, props)[0].stateVariables
    ensures r[0].pbtVariables == Names(props) && r[0].assertions == []
  {
    MergeResults(ParseReactComponent(file, props), ScanComponentTransitions(file.text), 0)
  }

  /**
   * Each branch of the final result keeps its conditions and implications; its transitions are
   * the whole-file scan's entry for its position when that entry exists and is non-empty, and
   * the per-branch mining otherwise.
   */
  lemma TestComponentPropertiesMeaning(file: SourceFile, props: seq<PbtAssertion>, k: nat)
    requires k < |ParseReactComponent(file, props)[0].branches|
    ensures var b := ParseReactComponent(file, props)[0].branches[k];
            var scan := ScanComponentTransitions(file.text);
            var r := TestComponentProperties(file, props)[0].branches;
      && |r| == |ParseReactComponent(file, props)[0].branches|
      && r[k].conditions == b.conditions && r[k].implications == b.implications
      && r[k].transitions == (if k < |scan| && |scan[k]| > 0 then scan[k] else b.transitions)
  {
    var p := ParseReactComponent(file, props);
    var scan := ScanComponentTransitions(file.text);
    assert MergeResults(p, scan, 0)[0].branches == MergeBranches(p[0].branches, scan, 0);
  }
}
