/**
 * User-declared property assertions and the first-match registry of detectors that decides
 * whether a branch's text satisfies one (`processAssertion`, `TextAssertionHandler` in
 * node_server/src/utils/testComponentProperties.ts).
 */
module Assertions {
  import opened Logic
  import opened Text

  /**
   * A property assertion. The source distinguishes the kinds by which key is present
   * (`textToFind` or `labelToFind`); here the kind is the constructor.
   */
  datatype PbtAssertion =
    | TextAssertion(name: string, textToFind: string, lhs: Cnf, rhs: Cnf)
    | LabelAssertion(name: string, labelToFind: string, lhs: Cnf, rhs: Cnf)

  /** A detector. The source registers one, for text assertions. */
  datatype Handler = TextHandler {
    /** `canHandle`: the text handler accepts exactly the assertions carrying `textToFind`. */
    predicate CanHandle(a: PbtAssertion) {
      match this
      case TextHandler => a.TextAssertion?
    }

    /** `evaluate`: substring containment of the text to find in the content. */
    predicate Evaluate(a: PbtAssertion, content: string)
      requires CanHandle(a)
    {
      match this
      case TextHandler => Contains(content, a.textToFind)
    }
  }

  /** The registry, in the order the source lists it. */
  const Registry: seq<Handler> := [TextHandler]

  /** The first handler in `handlers` that can handle `a` decides; with none, the result is false. */
  function Dispatch(handlers: seq<Handler>, a: PbtAssertion, content: string): (r: bool)
    ensures r ==> exists k :: 0 <= k < |handlers| && handlers[k].CanHandle(a)
    ensures forall k ::
              (0 <= k < |handlers| && handlers[k].CanHandle(a) && (forall m :: 0 <= m < k ==> !handlers[m].CanHandle(a)))
              ==> (r <==> handlers[k].Evaluate(a, content))
  {
    if |handlers| == 0 then false
    else if handlers[0].CanHandle(a) then handlers[0].Evaluate(a, content)
    else
      var r := Dispatch(handlers[1..], a, content);
      assert forall k :: 1 <= k < |handlers| ==> handlers[1..][k - 1] == handlers[k];
      r
  }

  /** `processAssertion`: dispatch through the registry. */
  function ProcessAssertion(a: PbtAssertion, content: string): bool {
    Dispatch(Registry, a, content)
  }

  /**
   * A text assertion holds of a content iff its text occurs in the whole content (so an
   * empty text always holds); a label assertion has no handler and is always false.
   */
  lemma ProcessAssertionMeaning(a: PbtAssertion, content: string)
    ensures a.TextAssertion? ==> (ProcessAssertion(a, content) <==> Contains(content, a.textToFind))
    ensures a.TextAssertion? && a.textToFind == [] ==> ProcessAssertion(a, content)
    ensures a.LabelAssertion? ==> !ProcessAssertion(a, content)
  {
    if a.TextAssertion? {
      ContainsIff(content, a.textToFind);
    }
    assert Registry[0] == TextHandler;
  }

  /** One literal per assertion, in assertion order, named after it, true iff its detector accepts `content`. */
  function Implications(props: seq<PbtAssertion>, content: string): (r: seq<Literal>)
    ensures |r| == |props|
    ensures forall k :: 0 <= k < |props| ==> r[k].name == props[k].name
    ensures forall k :: 0 <= k < |props| ==>
      (r[k].assignment <==> props[k].TextAssertion? && Contains(content, props[k].textToFind))
  {
    if |props| == 0 then []
    else
      ProcessAssertionMeaning(props[0], content);
      var rest := Implications(props[1..], content);
      assert forall k :: 1 <= k < |props| ==> props[1..][k - 1] == props[k];
      [Literal(props[0].name, ProcessAssertion(props[0], content))] + rest
  }
}
