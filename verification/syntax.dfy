/**
 * The few ts-morph node shapes the hook scanners look at, abstracted to what they test:
 * whether a callee is an identifier and its text, and whether a declaration's name is an
 * array binding pattern and which of its elements are holes.
 */
module Syntax {
  /** The callee of a call expression. */
  datatype Callee = IdentCallee(text: string) | OtherCallee

  /**
   * An element of an array binding pattern: a binding element with its name node's text and
   * its full text (which includes a default initializer, if any), or an omitted element (a hole,
   * whose text is empty).
   */
  datatype BindingElem = Element(name: string, text: string) | Omitted

  /** The name node of a variable declaration. */
  datatype BindingName = ArrayBinding(elements: seq<BindingElem>) | OtherName

  /** A callee that is the identifier `useState`. */
  predicate IsUseState(c: Callee) {
    c.IdentCallee? && c.text == "useState"
  }

  /** `node.getText()` of a binding-pattern element. */
  function ElemText(e: BindingElem): string {
    match e
    case Element(_, text) => text
    case Omitted => ""
  }
}
