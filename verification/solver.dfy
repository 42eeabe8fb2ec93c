/**
 * The meaning of the constraint system z3_server/solver.py builds. A request is answered
 * "failed" exactly when some trace of `trace_len` states over the state variables, together
 * with one assignment of the pbt variables, satisfies every constraint; the Z3 search itself
 * is replaced by that existence. A name the Python looks up in a dictionary it never filled,
 * or a trace index it never created, raises before the solver runs: that is `Raises`.
 */
module Solver {
  import opened Wrappers
  import opened Logic
  import opened Model
  import opened Z3Responses

  /** `TRACE_LEN` */
  const TRACE_LEN: nat := 5

  /** The property to refute: its name and a CNF over the pbt variables. */
  datatype PbtAssertion = PbtAssertion(name: string, cnf: Cnf)

  datatype SolverRequest = SolverRequest(
    stateVariables: seq<string>,
    pbtVariables: seq<string>,
    branches: seq<Branch>,
    preconditionals: Cnf,
    pbtAssertion: PbtAssertion)

  /** Building the formula failed with a Python `KeyError` or `IndexError`. */
  datatype SolveError = LookupError

  type Trace = seq<State>

  // ---------------------------------------------------------------------------------------
  // Z3 constant names

  function Digit(d: nat): (c: char)
    requires d < 10
    ensures '0' <= c <= '9'
  {
    (('0' as int) + d) as char
  }

  /** `str(i)` */
  function Digits(i: nat): (r: string)
    ensures |r| >= 1 && (i >= 10 ==> |r| >= 2)
    ensures forall k :: 0 <= k < |r| ==> '0' <= r[k] <= '9'
  {
    if i < 10 then [Digit(i)] else Digits(i / 10) + [Digit(i % 10)]
  }

  /** The name of the Z3 constant for state variable `v` at step `i`: `v + "_" + str(i)`. */
  function ConstName(v: string, i: nat): string {
    v + "_" + Digits(i)
  }

  lemma {:induction false} DigitsInjective(i: nat, j: nat)
    requires Digits(i) == Digits(j)
    ensures i == j
    decreases i
  {
    if i >= 10 && j >= 10 {
      var a := Digits(i);
      assert a[|a| - 1] == Digit(i % 10) && a[|a| - 1] == Digit(j % 10);
      assert a[..|a| - 1] == Digits(i / 10) && a[..|a| - 1] == Digits(j / 10);
      DigitsInjective(i / 10, j / 10);
    }
  }

  /** Distinct (variable, step) pairs name distinct constants, so the state variables of one step never alias another's. */
  lemma ConstNamesDistinct(u: string, i: nat, v: string, j: nat)
    requires ConstName(u, i) == ConstName(v, j)
    ensures u == v && i == j
  {
    var a := ConstName(u, i);
    if |u| < |v| {
      UnderscoreAt(v, j);
      assert false;
    } else if |v| < |u| {
      UnderscoreAt(u, i);
      assert false;
    } else {
      assert u == a[..|u|] == v;
      assert Digits(i) == a[|u| + 1..] == Digits(j);
      DigitsInjective(i, j);
    }
  }

  lemma UnderscoreAt(u: string, i: nat)
    ensures |ConstName(u, i)| > |u| && ConstName(u, i)[|u|] == '_'
  {
  }

  // ---------------------------------------------------------------------------------------
  // Which requests make the Python raise

  /** Every literal of `f` can be read at trace index `i` of a trace of `n` states over `names`. */
  predicate ReadableAt(f: Cnf, i: int, n: nat, names: seq<string>) {
    forall c :: c in f ==> forall l :: l in c ==> 0 <= i < n && l.name in names
  }

  /** Every literal of `f` names one of `names`. */
  predicate NamesIn(f: Cnf, names: seq<string>) {
    forall c :: c in f ==> forall l :: l in c ==> l.name in names
  }

  /**
   * Building the formula raises: a preconditional literal read at index 1 of a shorter trace or
   * naming an undeclared state variable; when there is at least one step, a guard literal or a
   * transition naming an undeclared state variable; a guard literal read at index `n - 1`
   * of an empty trace or naming an undeclared state variable; an implication or assertion
   * literal naming an undeclared pbt variable.
   */
  predicate Raises(req: SolverRequest, n: nat) {
    !(
      && ReadableAt(req.preconditionals, 1, n, req.stateVariables)
      && (n >= 2 ==> forall br :: br in req.branches ==>
            NamesIn(br.conditions, req.stateVariables) && forall t :: t in br.transitions ==> t.name in req.stateVariables)
      && (forall br :: br in req.branches ==>
            ReadableAt(br.conditions, n - 1, n, req.stateVariables)
            && forall l :: l in br.implications ==> l.name in req.pbtVariables)
      && NamesIn(req.pbtAssertion.cnf, req.pbtVariables))
  }

  // ---------------------------------------------------------------------------------------
  // The constraints

  /** `s` assigns exactly the variables in `names`. */
  predicate Over(s: State, names: seq<string>) {
    (forall v :: v in s ==> v in names) && Covers(s, names)
  }

  /** `s` assigns every variable in `names`. */
  predicate Covers(s: State, names: seq<string>) {
    forall v :: v in names ==> v in s
  }

  /** `pre[v] == post[v]` */
  predicate Same(pre: State, post: State, v: string) {
    v in pre && v in post && pre[v] == post[v]
  }

  /** `CheckTransition`: the variable ends in one of the listed values or keeps its value; every other state variable keeps its value. */
  predicate TransitionStep(t: Transition, pre: State, post: State, sv: seq<string>) {
    && ((t.name in post && post[t.name] in t.assignments) || Same(pre, post, t.name))
    && forall v :: v in sv && v != t.name ==> Same(pre, post, v)
  }

  predicate Unchanged(pre: State, post: State, sv: seq<string>) {
    forall v :: v in sv ==> Same(pre, post, v)
  }

  /**
   * `CheckBranch`: the guard holds before the step, and either the branch has no transitions
   * and nothing changes, or one of its transitions is taken.
   */
  predicate BranchStep(br: Branch, pre: State, post: State, sv: seq<string>) {
    && CnfHolds(br.conditions, pre)
    && if |br.transitions| == 0 then Unchanged(pre, post, sv)
       else exists t :: t in br.transitions && TransitionStep(t, pre, post, sv)
  }

  /** `CheckDelta`: some branch steps. */
  predicate Step(req: SolverRequest, pre: State, post: State) {
    exists br :: br in req.branches && BranchStep(br, pre, post, req.stateVariables)
  }

  /** `CheckPBTVars`: some branch's guard holds in `s` and all its implications hold of the pbt assignment. */
  predicate FinalMatches(req: SolverRequest, s: State, pbt: State) {
    exists br :: br in req.branches && CnfHolds(br.conditions, s) && forall l :: l in br.implications ==> LitHolds(l, pbt)
  }

  /** State `i` of the trace; indices outside it read as the empty state (never consulted unless `Raises`). */
  function At(trace: Trace, i: int): (s: State)
    ensures 0 <= i < |trace| ==> s == trace[i]
  {
    if 0 <= i < |trace| then trace[i] else map[]
  }

  /** A pbt variable named like a state constant is that constant. */
  predicate NamesShared(trace: Trace, pbt: State) {
    forall i, v :: 0 <= i < |trace| && v in trace[i] && ConstName(v, i) in pbt ==> pbt[ConstName(v, i)] == trace[i][v]
  }

  /** The trace and pbt assignment satisfy every constraint the solver is given. */
  predicate Valid(req: SolverRequest, n: nat, trace: Trace, pbt: State) {
    && |trace| == n
    && (forall i :: 0 <= i < n ==> Over(trace[i], req.stateVariables))
    && Over(pbt, req.pbtVariables)
    && NamesShared(trace, pbt)
    && CnfHolds(req.preconditionals, At(trace, 1))
    && (forall i :: 0 <= i < n - 1 ==> Step(req, trace[i], trace[i + 1]))
    && FinalMatches(req, At(trace, n - 1), pbt)
    && CnfHolds(req.pbtAssertion.cnf, pbt)
  }

  ghost predicate Satisfiable(req: SolverRequest, n: nat) {
    exists trace: Trace, pbt: State :: Valid(req, n, trace, pbt)
  }

  // ---------------------------------------------------------------------------------------
  // solveReq

  /** One state as the response lists it: a literal per state variable, in declaration order. */
  function Snapshot(sv: seq<string>, s: State): (r: seq<Literal>)
    requires Covers(s, sv)
    ensures |r| == |sv| && forall k :: 0 <= k < |sv| ==> r[k] == Literal(sv[k], s[sv[k]])
  {
    if |sv| == 0 then []
    else
      assert forall k :: 0 <= k < |sv| - 1 ==> sv[1..][k] == sv[k + 1];
      [Literal(sv[0], s[sv[0]])] + Snapshot(sv[1..], s)
  }

  function Snapshots(sv: seq<string>, trace: Trace): (r: seq<seq<Literal>>)
    requires forall i :: 0 <= i < |trace| ==> Covers(trace[i], sv)
    ensures |r| == |trace| && forall i :: 0 <= i < |trace| ==> r[i] == Snapshot(sv, trace[i])
  {
    if |trace| == 0 then []
    else
      assert forall i :: 0 <= i < |trace| - 1 ==> trace[1..][i] == trace[i + 1];
      [Snapshot(sv, trace[0])] + Snapshots(sv, trace[1..])
  }

  /**
   * `PageTransitionSolver(req, n)` followed by the result shaping of `solveReq`: an error when
   * building the formula raises; "failed" with the states of a satisfying trace and the
   * assertion's name when one exists; "passed" otherwise.
   */
  ghost function SolveWith(req: SolverRequest, n: nat): (r: Result<Z3Response, SolveError>)
    ensures r.Failure? <==> Raises(req, n)
    ensures r.Success? ==> (IsFailedResponse(r.value) <==> Satisfiable(req, n))
    ensures r.Success? && r.value.Failed? ==>
      && r.value.violatedPbt == req.pbtAssertion.name
      && |r.value.states| == n
      && exists trace: Trace, pbt: State :: Valid(req, n, trace, pbt) && r.value.states == Snapshots(req.stateVariables, trace)
  {
    if Raises(req, n) then Failure(LookupError)
    else if Satisfiable(req, n) then
      var trace := Counterexample(req, n);
      Success(Failed(Snapshots(req.stateVariables, trace), req.pbtAssertion.name))
    else Success(Passed)
  }

  /** The trace of some satisfying assignment: which one Z3 reports is not modelled. */
  ghost function Counterexample(req: SolverRequest, n: nat): (trace: Trace)
    requires Satisfiable(req, n)
    ensures exists pbt: State :: Valid(req, n, trace, pbt)
  {
    var trace: Trace :| exists pbt: State :: Valid(req, n, trace, pbt);
    trace
  }

  /** `solveReq` */
  ghost function SolveReq(req: SolverRequest): Result<Z3Response, SolveError> {
    SolveWith(req, TRACE_LEN)
  }

  // ---------------------------------------------------------------------------------------
  // Properties of the encoding

  /** The "do nothing" option: where a branch's guard holds, staying put is a step. */
  lemma StutterStep(req: SolverRequest, br: Branch, s: State)
    requires br in req.branches && Over(s, req.stateVariables) && CnfHolds(br.conditions, s)
    requires forall t :: t in br.transitions ==> t.name in req.stateVariables
    ensures Step(req, s, s)
  {
    if |br.transitions| > 0 {
      var t := br.transitions[0];
      assert TransitionStep(t, s, s, req.stateVariables);
    }
    assert BranchStep(br, s, s, req.stateVariables);
  }

  /**
   * A state variable changes in a step only through a transition for it, of a branch whose
   * guard held before the step, and only to one of that transition's values.
   */
  lemma ValueSource(req: SolverRequest, pre: State, post: State, v: string)
    requires Step(req, pre, post) && v in req.stateVariables && !Same(pre, post, v)
    ensures exists br, t :: br in req.branches && t in br.transitions && CnfHolds(br.conditions, pre)
                            && t.name == v && v in post && post[v] in t.assignments
  {
    var br :| br in req.branches && BranchStep(br, pre, post, req.stateVariables);
    var t :| t in br.transitions && TransitionStep(t, pre, post, req.stateVariables);
    assert t.name == v;
  }

  /** A state variable that no branch has a transition for keeps its first value along a valid trace. */
  lemma {:induction false} FrozenVariable(req: SolverRequest, n: nat, trace: Trace, pbt: State, v: string, i: nat)
    requires Valid(req, n, trace, pbt) && v in req.stateVariables && i < n
    requires forall br, t :: br in req.branches && t in br.transitions ==> t.name != v
    ensures v in trace[i] && v in trace[0] && trace[i][v] == trace[0][v]
  {
    if i > 0 {
      FrozenVariable(req, n, trace, pbt, v, i - 1);
      assert Step(req, trace[i - 1], trace[i]);
      if !Same(trace[i - 1], trace[i], v) {
        ValueSource(req, trace[i - 1], trace[i], v);
        assert false;
      }
    }
  }

  /**
   * The constant trace at `s` satisfies the formula when `s` meets the preconditionals (imposed
   * at index 1), can stay put, and lies in a branch whose implications give property values
   * that satisfy the assertion's CNF, which the formula adds as it is.
   */
  lemma FixpointCounterexample(req: SolverRequest, n: nat, s: State, pbt: State, br: Branch)
    requires n >= 2 && Over(s, req.stateVariables) && Over(pbt, req.pbtVariables)
    requires br in req.branches && CnfHolds(br.conditions, s)
    requires forall t :: t in br.transitions ==> t.name in req.stateVariables
    requires CnfHolds(req.preconditionals, s) && FinalMatches(req, s, pbt) && CnfHolds(req.pbtAssertion.cnf, pbt)
    requires forall i: nat, v :: v in s && ConstName(v, i) in pbt ==> pbt[ConstName(v, i)] == s[v]
    ensures Satisfiable(req, n)
  {
    var trace: Trace := seq(n, _ => s);
    StutterStep(req, br, s);
    assert At(trace, 1) == s && At(trace, n - 1) == s;
    assert Valid(req, n, trace, pbt);
  }

  /** With no branches there is no step and no matching final branch, so every request passes (or raises). */
  lemma NoBranchesPass(req: SolverRequest, n: nat)
    requires req.branches == [] && !Raises(req, n)
    ensures SolveWith(req, n) == Success(Passed)
  {
    forall trace: Trace, pbt: State
      ensures !Valid(req, n, trace, pbt)
    {
      assert !FinalMatches(req, At(trace, n - 1), pbt);
    }
  }

  /**
   * The preconditionals constrain index 1, not index 0: with one branch that may set `a` to
   * false, a trace starting from `a = true` satisfies preconditionals `a = false`.
   */
  lemma FirstStateUnconstrained()
    ensures var req := SolverRequest(["a"], ["p"], [Branch([], [Literal("p", true)], [Transition("a", [false])])],
                                     [[Literal("a", false)]], PbtAssertion("p", [[Literal("p", true)]]));
      && !Raises(req, 2)
      && Valid(req, 2, [map["a" := true], map["a" := false]], map["p" := true])
      && !CnfHolds(req.preconditionals, map["a" := true])
  {
    var req := SolverRequest(["a"], ["p"], [Branch([], [Literal("p", true)], [Transition("a", [false])])],
                             [[Literal("a", false)]], PbtAssertion("p", [[Literal("p", true)]]));
    var trace: Trace := [map["a" := true], map["a" := false]];
    var pbt := map["p" := true];
    assert TransitionStep(Transition("a", [false]), trace[0], trace[1], ["a"]);
    assert BranchStep(req.branches[0], trace[0], trace[1], ["a"]);
    assert Step(req, trace[0], trace[1]);
    assert FinalMatches(req, At(trace, 1), pbt) by {
      assert CnfHolds(req.branches[0].conditions, At(trace, 1));
    }
  }

  // ---------------------------------------------------------------------------------------
  // The request of z3_server/test_server.py

  const FixtureRequest: SolverRequest := SolverRequest(
    ["isLoading", "isDarkMode"],
    ["hasDarkModeButton"],
    [ Branch([[Literal("isLoading", true)], [Literal("isDarkMode", true)]], [Literal("hasDarkModeButton", false)], []),
      Branch([[Literal("isLoading", true)], [Literal("isDarkMode", false)]], [Literal("hasDarkModeButton", false)], []),
      Branch([[Literal("isLoading", false)], [Literal("isDarkMode", true)]], [Literal("hasDarkModeButton", true)],
             [Transition("isDarkMode", [false])]),
      Branch([[Literal("isLoading", false)], [Literal("isDarkMode", false)]], [Literal("hasDarkModeButton", false)],
             [Transition("isDarkMode", [true, false])])],
    [[Literal("isLoading", false)]],
    PbtAssertion("hasDarkModeButton", [[Literal("hasDarkModeButton", true)]]))

  /**
   * The example request fails: staying in `isLoading = false, isDarkMode = true` renders the
   * dark-mode button, so the reply is "failed" naming `hasDarkModeButton`.
   */
  lemma FixtureFails()
    ensures SolveReq(FixtureRequest).Success?
    ensures IsFailedResponse(SolveReq(FixtureRequest).value)
    ensures SolveReq(FixtureRequest).value.violatedPbt == "hasDarkModeButton"
  {
    FixtureReadable();
    FixtureSatisfiable();
  }

  lemma FixtureReadable()
    ensures !Raises(FixtureRequest, TRACE_LEN)
  {
    var req := FixtureRequest;
    var sv := req.stateVariables;
    forall br | br in req.branches
      ensures NamesIn(br.conditions, sv) && ReadableAt(br.conditions, TRACE_LEN - 1, TRACE_LEN, sv)
      ensures forall t :: t in br.transitions ==> t.name in sv
      ensures forall l :: l in br.implications ==> l.name in req.pbtVariables
    {
    }
  }

  lemma FixtureSatisfiable()
    ensures Satisfiable(FixtureRequest, TRACE_LEN)
  {
    var req := FixtureRequest;
    var s := map["isLoading" := false, "isDarkMode" := true];
    var pbt := map["hasDarkModeButton" := true];
    var br := req.branches[2];
    DisjointInitials(s, pbt);
    assert FinalMatches(req, s, pbt) by {
      assert CnfHolds(br.conditions, s);
    }
    FixpointCounterexample(req, TRACE_LEN, s, pbt, br);
  }

  /** State constants never share a name with pbt variables whose names start differently. */
  lemma DisjointInitials(s: State, pbt: State)
    requires forall v :: v in s ==> |v| > 0
    requires forall v, p :: v in s && p in pbt && |v| > 0 && |p| > 0 ==> v[0] != p[0]
    ensures forall i: nat, v :: v in s ==> ConstName(v, i) !in pbt
  {
    forall i: nat, v | v in s
      ensures ConstName(v, i) !in pbt
    {
      assert |v| > 0 ==> ConstName(v, i)[0] == v[0];
    }
  }

  /** The reply, sent as JSON, passes the frontend's validation and reads "failed" exactly when a counterexample exists. */
  lemma ReplyValidates(req: SolverRequest, n: nat)
    requires !Raises(req, n)
    ensures ParseZ3Response(EncodeZ3Response(SolveWith(req, n).value)) == Some(SolveWith(req, n).value)
    ensures IsFailedResponse(ParseZ3Response(EncodeZ3Response(SolveWith(req, n).value)).value) <==> Satisfiable(req, n)
  {
    Z3ResponseRoundTrip(SolveWith(req, n).value);
  }
}
