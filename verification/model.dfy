/** The records the extractor produces for each branch of a conditional-rendering chain. */
module Model {
  import opened Logic

  /** State variable `name` may be set to any of `assignments` by interacting with a branch. */
  datatype Transition = Transition(name: string, assignments: seq<bool>)

  /**
   * One alternative of an if / else-if / else chain: the guard under which it renders,
   * one literal per declared assertion, and the transitions mined from its output.
   */
  datatype Branch = Branch(conditions: Cnf, implications: seq<Literal>, transitions: seq<Transition>)
}
