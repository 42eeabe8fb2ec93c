/**
 * The text-level transition miner: `extractStateTransitions` (per branch) and
 * `scanComponentTransitions` (whole file) in node_server/src/utils/testComponentProperties.ts.
 * Everything is substring containment and the patterns of module `Patterns`.
 */
module Miner {
  import opened Wrappers
  import opened Text
  import opened Patterns
  import opened SetterMaps
  import opened Model

  /** An inline arrow handler calling `setter` with `arg` in one of the four spacings the miner knows. */
  predicate DirectCall(content: string, setter: string, arg: string) {
    || Contains(content, "onClick={() => " + setter + arg)
    || Contains(content, "onClick={()=>" + setter + arg)
    || Contains(content, "onClick={ () => " + setter + arg)
    || Contains(content, "onClick={ ()=>" + setter + arg)
  }

  /** The values pushed by the inline patterns: `false` first, then `true`. */
  function DirectAssignments(content: string, setter: string): seq<bool> {
    (if DirectCall(content, setter, "(false)") then [false] else [])
    + (if DirectCall(content, setter, "(true)") then [true] else [])
  }

  /** Append whichever of `true`, `false` (in that order) is not yet in `acc`. */
  function AddMissing(acc: seq<bool>): (r: seq<bool>)
    ensures acc <= r
    ensures true in r && false in r
    ensures forall b :: b in acc ==> b in r
    ensures |r| <= |acc| + 2
  {
    var t := if true in acc then acc else acc + [true];
    if false in t then t else t + [false]
  }

  /**
   * The values a named handler body contributes for `setter`, in the order the source tests
   * them. The toggle patterns (`prev =>`, `!prev`, ...) and the unrecognised use both add
   * whichever values are missing, so they are one case here.
   */
  function HandlerStep(acc: seq<bool>, body: string, setter: string): (r: seq<bool>)
    ensures acc <= r
  {
    if Contains(body, setter + "(true)") || Contains(body, setter + "(true);") then acc + [true]
    else if Contains(body, setter + "(false)") || Contains(body, setter + "(false);") then acc + [false]
    else AddMissing(acc)
  }

  /**
   * The handler body an onClick capture refers to, looked up in `defs`: none when the trimmed
   * capture contains `=>`, when no definition matches, or when the body is empty.
   */
  function HandlerBody(defs: string, capture: string): Option<string> {
    var name := Trim(capture);
    if Contains(name, "=>") then None
    else match FindHandlerDef(defs, name, 0)
      case Some(body) => if body != [] then Some(body) else None
      case None => None
  }

  /** One iteration of the onClick loop: the handler named by `capture`, if it mentions `setter`. */
  function Absorb(acc: seq<bool>, capture: string, defs: string, setter: string): (r: seq<bool>)
    ensures acc <= r
  {
    match HandlerBody(defs, capture)
    case Some(body) => if Contains(body, setter) then HandlerStep(acc, body, setter) else acc
    case None => acc
  }

  /** Fold the named handlers referenced by `captures` into `acc`. */
  function NamedAssignments(acc: seq<bool>, captures: seq<string>, defs: string, setter: string): seq<bool>
    decreases |captures|
  {
    if |captures| == 0 then acc
    else NamedAssignments(Absorb(acc, captures[0], defs, setter), captures[1..], defs, setter)
  }

  /** The fold only appends. */
  lemma {:induction false} NamedAssignmentsExtends(acc: seq<bool>, captures: seq<string>, defs: string, setter: string)
    ensures acc <= NamedAssignments(acc, captures, defs, setter)
    decreases |captures|
  {
    if |captures| > 0 {
      var acc' := Absorb(acc, captures[0], defs, setter);
      NamedAssignmentsExtends(acc', captures[1..], defs, setter);
      var r := NamedAssignments(acc', captures[1..], defs, setter);
      assert NamedAssignments(acc, captures, defs, setter) == r;
      PrefixTrans(acc, acc', r);
    }
  }

  lemma PrefixTrans<T>(a: seq<T>, b: seq<T>, c: seq<T>)
    requires a <= b && b <= c
    ensures a <= c
  {
    assert a == b[..|a|] && b == c[..|b|];
    assert c[..|b|][..|a|] == c[..|a|];
  }

  /** All values pushed for `setter` from `content`, with handler definitions looked up in `defs`. */
  function SetterAssignments(content: string, defs: string, setter: string): seq<bool> {
    NamedAssignments(DirectAssignments(content, setter), OnClickCaptures(content, 0), defs, setter)
  }

  // ---------------------------------------------------------------------------------------
  // The set of values, stated independently of push order.

  /** What one handler body means for `setter`: the values it may set. */
  function Effect(body: string, setter: string): set<bool> {
    if !Contains(body, setter) then {}
    else if Contains(body, setter + "(true)") then {true}
    else if Contains(body, setter + "(false)") then {false}
    else {true, false}
  }

  function CaptureEffect(defs: string, capture: string, setter: string): set<bool> {
    match HandlerBody(defs, capture)
    case Some(body) => Effect(body, setter)
    case None => {}
  }

  /** A string containing `p + q` contains `p`. */
  lemma ContainsPrefixOf(s: string, p: string, q: string)
    requires Contains(s, p + q)
    ensures Contains(s, p)
  {
    var i := IndexOf(s, p + q, 0).value;
    assert OccursAt(s, p + q, i);
    assert s[i..i + |p|] == s[i..i + |p + q|][..|p|] == (p + q)[..|p|] == p;
    assert OccursAt(s, p, i);
    ContainsIff(s, p);
  }

  lemma StepMeaning(acc: seq<bool>, body: string, setter: string)
    requires Contains(body, setter)
    ensures forall b :: b in HandlerStep(acc, body, setter) <==> b in acc || b in Effect(body, setter)
  {
    SemicolonVariants(body, setter);
  }

  /** The `S(true);` and `S(false);` tests of the source are subsumed by `S(true)` and `S(false)`. */
  lemma SemicolonVariants(body: string, setter: string)
    ensures Contains(body, setter + "(true);") ==> Contains(body, setter + "(true)")
    ensures Contains(body, setter + "(false);") ==> Contains(body, setter + "(false)")
  {
    assert setter + "(true);" == (setter + "(true)") + ";";
    assert setter + "(false);" == (setter + "(false)") + ";";
    if Contains(body, setter + "(true);") {
      ContainsPrefixOf(body, setter + "(true)", ";");
    }
    if Contains(body, setter + "(false);") {
      ContainsPrefixOf(body, setter + "(false)", ";");
    }
  }

  lemma AbsorbMeaning(acc: seq<bool>, capture: string, defs: string, setter: string)
    ensures forall b :: b in Absorb(acc, capture, defs, setter) <==> b in acc || b in CaptureEffect(defs, capture, setter)
  {
    match HandlerBody(defs, capture)
    case Some(body) =>
      if Contains(body, setter) {
        StepMeaning(acc, body, setter);
      }
    case None =>
  }

  /** Some capture in `captures` names a handler whose effect for `setter` includes `b`. */
  ghost predicate SomeEffect(b: bool, captures: seq<string>, defs: string, setter: string) {
    exists k :: 0 <= k < |captures| && b in CaptureEffect(defs, captures[k], setter)
  }

  /**
   * A value is pushed for a setter iff an inline pattern pushes it or some onClick capture
   * names a handler whose body's effect includes it.
   */
  lemma {:induction false} NamedAssignmentsMeaning(acc: seq<bool>, captures: seq<string>, defs: string, setter: string, b: bool)
    ensures b in NamedAssignments(acc, captures, defs, setter) <==> b in acc || SomeEffect(b, captures, defs, setter)
    decreases |captures|
  {
    if |captures| > 0 {
      var acc' := Absorb(acc, captures[0], defs, setter);
      AbsorbMeaning(acc, captures[0], defs, setter);
      NamedAssignmentsMeaning(acc', captures[1..], defs, setter, b);
      assert NamedAssignments(acc, captures, defs, setter) == NamedAssignments(acc', captures[1..], defs, setter);
      assert SomeEffect(b, captures[1..], defs, setter) ==> SomeEffect(b, captures, defs, setter) by {
        if SomeEffect(b, captures[1..], defs, setter) {
          var k :| 0 <= k < |captures[1..]| && b in CaptureEffect(defs, captures[1..][k], setter);
          assert captures[1..][k] == captures[k + 1];
        }
      }
      assert SomeEffect(b, captures, defs, setter) && b !in acc' ==> SomeEffect(b, captures[1..], defs, setter) by {
        if SomeEffect(b, captures, defs, setter) && b !in acc' {
          var k :| 0 <= k < |captures| && b in CaptureEffect(defs, captures[k], setter);
          assert captures[1..][k - 1] == captures[k];
        }
      }
    }
  }

  /** The set of values mined for a setter, stated without reference to push order. */
  lemma SetterAssignmentsMeaning(content: string, defs: string, setter: string, b: bool)
    ensures b in SetterAssignments(content, defs, setter) <==>
      || (b == false && DirectCall(content, setter, "(false)"))
      || (b == true && DirectCall(content, setter, "(true)"))
      || exists k :: 0 <= k < |OnClickCaptures(content, 0)| && b in CaptureEffect(defs, OnClickCaptures(content, 0)[k], setter)
  {
    var direct := DirectAssignments(content, setter);
    NamedAssignmentsMeaning(direct, OnClickCaptures(content, 0), defs, setter, b);
    assert b in direct <==> (b == false && DirectCall(content, setter, "(false)")) || (b == true && DirectCall(content, setter, "(true)"));
  }

  /**
   * Captures that are arrow functions refer to no handler, so when every capture contains
   * `=>` (inline toggles, block-bodied arrows) only the inline literal patterns count.
   */
  lemma ArrowCapturesIgnored(content: string, defs: string, setter: string)
    requires forall k :: 0 <= k < |OnClickCaptures(content, 0)| ==> Contains(Trim(OnClickCaptures(content, 0)[k]), "=>")
    ensures SetterAssignments(content, defs, setter) == DirectAssignments(content, setter)
  {
    ArrowFold(DirectAssignments(content, setter), OnClickCaptures(content, 0), defs, setter);
  }

  lemma {:induction false} ArrowFold(acc: seq<bool>, captures: seq<string>, defs: string, setter: string)
    requires forall k :: 0 <= k < |captures| ==> Contains(Trim(captures[k]), "=>")
    ensures NamedAssignments(acc, captures, defs, setter) == acc
    decreases |captures|
  {
    if |captures| > 0 {
      assert HandlerBody(defs, captures[0]).None?;
      assert Absorb(acc, captures[0], defs, setter) == acc;
      assert forall k :: 1 <= k < |captures| ==> captures[1..][k - 1] == captures[k];
      ArrowFold(acc, captures[1..], defs, setter);
    }
  }

  /**
   * Pushes are not deduplicated: an inline `S(false)` together with a named handler that
   * calls `S(false)` (and not `S(true)`) yields `false` twice.
   */
  lemma FalsePushedTwice(content: string, defs: string, setter: string, k: nat)
    requires DirectCall(content, setter, "(false)") && !DirectCall(content, setter, "(true)")
    requires k < |OnClickCaptures(content, 0)|
    requires CaptureEffect(defs, OnClickCaptures(content, 0)[k], setter) == {false}
    ensures multiset(SetterAssignments(content, defs, setter))[false] >= 2
  {
    assert DirectAssignments(content, setter) == [false];
    FoldKeepsFalse(DirectAssignments(content, setter), OnClickCaptures(content, 0), defs, setter, k);
  }

  /** Once a handler with effect exactly `{false}` is folded, one more `false` is on the sequence. */
  lemma {:induction false} FoldKeepsFalse(acc: seq<bool>, captures: seq<string>, defs: string, setter: string, k: nat)
    requires k < |captures| && CaptureEffect(defs, captures[k], setter) == {false}
    ensures multiset(NamedAssignments(acc, captures, defs, setter))[false] >= multiset(acc)[false] + 1
    decreases |captures|
  {
    var acc' := Absorb(acc, captures[0], defs, setter);
    if k == 0 {
      AbsorbFalse(acc, captures[0], defs, setter);
      assert multiset(acc')[false] == multiset(acc)[false] + 1;
      NamedAssignmentsExtends(acc', captures[1..], defs, setter);
      PrefixCount(acc', NamedAssignments(acc', captures[1..], defs, setter));
    } else {
      PrefixCount(acc, acc');
      assert captures[1..][k - 1] == captures[k];
      FoldKeepsFalse(acc', captures[1..], defs, setter, k - 1);
    }
  }

  lemma AbsorbFalse(acc: seq<bool>, capture: string, defs: string, setter: string)
    requires CaptureEffect(defs, capture, setter) == {false}
    ensures Absorb(acc, capture, defs, setter) == acc + [false]
  {
    var body := HandlerBody(defs, capture).value;
    SemicolonVariants(body, setter);
    assert multiset(acc + [false])[false] == multiset(acc)[false] + 1;
  }

  lemma PrefixCount(a: seq<bool>, b: seq<bool>)
    requires a <= b
    ensures multiset(a)[false] <= multiset(b)[false]
  {
    assert b == a + b[|a|..];
  }

  // ---------------------------------------------------------------------------------------
  // extractStateTransitions

  /**
   * The loop of `extractStateTransitions` from the entries `m` on, with `processed` the
   * variables already given a transition. Handler definitions are searched in `content` itself.
   */
  function ExtractFrom(content: string, m: SetterMap, processed: set<string>): (r: seq<Transition>)
    ensures forall t :: t in r ==> |t.assignments| > 0 && t.name !in processed
    ensures forall i, j :: 0 <= i < j < |r| ==> r[i].name != r[j].name
  {
    if |m| == 0 then []
    else
      var (setter, v) := m[0];
      var a := SetterAssignments(content, content, setter);
      if v in processed || |a| == 0 then
        ExtractFrom(content, m[1..], processed)
      else
        [Transition(v, a)] + ExtractFrom(content, m[1..], processed + {v})
  }

  /**
   * Entry `e` of `m` is where transition `t` comes from: it is for `t`'s variable, its setter
   * yields `t`'s values, and no earlier setter for that variable yields any.
   */
  ghost predicate OriginAt(content: string, m: SetterMap, e: int, t: Transition) {
    && 0 <= e < |m| && m[e].1 == t.name
    && t.assignments == SetterAssignments(content, content, m[e].0)
    && forall f :: 0 <= f < e && m[f].1 == t.name ==> |SetterAssignments(content, content, m[f].0)| == 0
  }

  lemma OriginShift(content: string, m: SetterMap, e: int, t: Transition)
    requires |m| > 0 && OriginAt(content, m[1..], e, t)
    requires m[0].1 == t.name ==> |SetterAssignments(content, content, m[0].0)| == 0
    ensures OriginAt(content, m, e + 1, t)
  {
    assert m[1..][e] == m[e + 1];
    forall f | 0 <= f < e + 1 && m[f].1 == t.name
      ensures |SetterAssignments(content, content, m[f].0)| == 0
    {
      if f > 0 {
        assert m[1..][f - 1] == m[f];
      }
    }
  }

  /**
   * Each transition comes from the first entry for its variable whose setter yields values:
   * a variable already given a transition is skipped for later setters.
   */
  lemma {:induction false} ExtractFromOrigin(content: string, m: SetterMap, processed: set<string>, t: Transition)
    requires t in ExtractFrom(content, m, processed)
    ensures exists e :: OriginAt(content, m, e, t)
    decreases |m|
  {
    var (setter, v) := m[0];
    var a := SetterAssignments(content, content, setter);
    if v in processed || |a| == 0 {
      ExtractFromOrigin(content, m[1..], processed, t);
      var e :| OriginAt(content, m[1..], e, t);
      OriginShift(content, m, e, t);
    } else if t == Transition(v, a) {
      assert OriginAt(content, m, 0, t);
    } else {
      ExtractFromOrigin(content, m[1..], processed + {v}, t);
      var e :| OriginAt(content, m[1..], e, t);
      OriginShift(content, m, e, t);
    }
  }

  /** Every variable, not yet processed, with a setter that yields values gets a transition. */
  lemma {:induction false} ExtractFromComplete(content: string, m: SetterMap, processed: set<string>, e: nat)
    requires e < |m| && m[e].1 !in processed && |SetterAssignments(content, content, m[e].0)| > 0
    ensures exists t :: t in ExtractFrom(content, m, processed) && t.name == m[e].1
    decreases |m|
  {
    var (setter, v) := m[0];
    var a := SetterAssignments(content, content, setter);
    if v in processed || |a| == 0 {
      assert e > 0 && m[1..][e - 1] == m[e];
      ExtractFromComplete(content, m[1..], processed, e - 1);
    } else if v == m[e].1 {
      assert ExtractFrom(content, m, processed)[0] == Transition(v, a);
    } else {
      assert e > 0 && m[1..][e - 1] == m[e];
      ExtractFromComplete(content, m[1..], processed + {v}, e - 1);
      var t :| t in ExtractFrom(content, m[1..], processed + {v}) && t.name == m[e].1;
      assert t in ExtractFrom(content, m, processed);
    }
  }

  /** `extractStateTransitions(content, stateSetterMap)` */
  function ExtractStateTransitions(content: string, m: SetterMap): seq<Transition> {
    ExtractFrom(content, m, {})
  }

  // ---------------------------------------------------------------------------------------
  // scanComponentTransitions

  /** Transitions for one return capture: every setter, with no per-variable skip. */
  function TransitionsFor(content: string, defs: string, m: SetterMap): (r: seq<Transition>)
    ensures |r| <= |m|
    ensures forall t :: t in r ==> |t.assignments| > 0
    ensures forall t :: t in r ==>
              exists e :: 0 <= e < |m| && m[e].1 == t.name && t.assignments == SetterAssignments(content, defs, m[e].0)
  {
    if |m| == 0 then []
    else
      var a := SetterAssignments(content, defs, m[0].0);
      var rest := TransitionsFor(content, defs, m[1..]);
      assert forall e :: 1 <= e < |m| ==> m[1..][e - 1] == m[e];
      (if |a| > 0 then [Transition(m[0].1, a)] else []) + rest
  }

  /**
   * The scan has no per-variable skip: every setter whose mined values are non-empty yields
   * its transition, even when an earlier setter already did so for the same variable.
   */
  lemma {:induction false} TransitionsForComplete(content: string, defs: string, m: SetterMap, e: nat)
    requires e < |m| && |SetterAssignments(content, defs, m[e].0)| > 0
    ensures Transition(m[e].1, SetterAssignments(content, defs, m[e].0)) in TransitionsFor(content, defs, m)
    decreases |m|
  {
    var t := Transition(m[e].1, SetterAssignments(content, defs, m[e].0));
    var a := SetterAssignments(content, defs, m[0].0);
    var rest := TransitionsFor(content, defs, m[1..]);
    var head := if |a| > 0 then [Transition(m[0].1, a)] else [];
    assert TransitionsFor(content, defs, m) == head + rest;
    if e > 0 {
      assert m[1..][e - 1] == m[e];
      TransitionsForComplete(content, defs, m[1..], e - 1);
      assert t in rest;
    } else {
      assert head == [t];
    }
  }

  /** The per-capture transitions, in capture order: entry `k` is the source's entry `k + 1`. */
  function TransitionsPerCapture(captures: seq<string>, text: string, m: SetterMap): (r: seq<seq<Transition>>)
    ensures |r| == |captures|
    ensures forall k :: 0 <= k < |r| ==> r[k] == TransitionsFor(captures[k], text, m)
  {
    if |captures| == 0 then [] else [TransitionsFor(captures[0], text, m)] + TransitionsPerCapture(captures[1..], text, m)
  }

  /**
   * `scanComponentTransitions`: one entry per match of the return pattern over the whole file,
   * onClick captures taken from the return body and handler definitions from the whole file.
   */
  function ScanComponentTransitions(text: string): (r: seq<seq<Transition>>)
    ensures |r| == |ReturnBodies(text, 0)|
  {
    TransitionsPerCapture(ReturnBodies(text, 0), text, ScanSetterMap(UseStateDecls(text, 0)))
  }
}
