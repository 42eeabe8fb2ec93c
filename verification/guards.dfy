/**
 * Guard-to-CNF extraction (`extractConditionsInCNF` in
 * node_server/src/utils/testComponentProperties.ts). The guard is an abstract syntax
 * tree; every shape the extractor does not recognise is `Other`.
 */
module Guards {
  import opened Logic

  /**
   * A guard expression. `Not` and the binary operators `&&`, `||` are the only shapes the
   * extractor looks into; parenthesised expressions, calls, comparisons and every other
   * node are `Other`.
   */
  datatype Expr =
    | Ident(name: string)
    | Not(operand: Expr)
    | And(left: Expr, right: Expr)
    | Or(left: Expr, right: Expr)
    | Other(text: string)

  /** The identifiers occurring anywhere in `e`. */
  function IdentNames(e: Expr): set<string> {
    match e
    case Ident(x) => {x}
    case Not(a) => IdentNames(a)
    case And(a, b) => IdentNames(a) + IdentNames(b)
    case Or(a, b) => IdentNames(a) + IdentNames(b)
    case Other(_) => {}
  }

  /**
   * The extractor. An identifier is a positive literal, the negation of an identifier a
   * negative one; `&&` concatenates the clause lists; `||` merges the two sides into one
   * clause when each side is exactly one clause. Everything else falls back to one empty
   * clause, which is a clause and not an empty CNF.
   */
  function ExtractCnf(e: Expr): (r: Cnf)
    ensures |r| >= 1
    ensures forall i, j :: 0 <= i < |r| && 0 <= j < |r[i]| ==> r[i][j].name in IdentNames(e)
  {
    match e
    case Ident(x) => [[Literal(x, true)]]
    case Not(Ident(x)) => [[Literal(x, false)]]
    case And(a, b) =>
      var l := ExtractCnf(a);
      var r := ExtractCnf(b);
      assert forall i :: |l| <= i < |l + r| ==> (l + r)[i] == r[i - |l|];
      l + r
    case Or(a, b) =>
      var l := ExtractCnf(a);
      var r := ExtractCnf(b);
      if |l| == 1 && |r| == 1 then
        assert forall j :: |l[0]| <= j < |l[0] + r[0]| ==> (l[0] + r[0])[j] == r[0][j - |l[0]|];
        [l[0] + r[0]]
      else [[]]
    case _ => [[]]
  }

  /** The guard shapes handled exactly, without falling back anywhere inside. */
  predicate Supported(e: Expr) {
    match e
    case Ident(_) => true
    case Not(a) => a.Ident?
    case And(a, b) => Supported(a) && Supported(b)
    case Or(a, b) => Supported(a) && Supported(b) && |ExtractCnf(a)| == 1 && |ExtractCnf(b)| == 1
    case Other(_) => false
  }

  /**
   * The truth of a guard in a state, as JavaScript evaluates it on booleans. The value of an
   * unrecognised sub-expression is supplied by `unknown`.
   */
  function Eval(e: Expr, s: State, unknown: string -> bool): bool {
    match e
    case Ident(x) => x in s && s[x]
    case Not(a) => !Eval(a, s, unknown)
    case And(a, b) => Eval(a, s, unknown) && Eval(b, s, unknown)
    case Or(a, b) => Eval(a, s, unknown) || Eval(b, s, unknown)
    case Other(t) => unknown(t)
  }

  /**
   * On supported guards over defined variables, the extracted CNF is logically equivalent to
   * the guard, whatever the unknown sub-expressions would evaluate to.
   */
  lemma {:induction false} ExtractCnfSound(e: Expr, s: State, unknown: string -> bool)
    requires Supported(e)
    requires IdentNames(e) <= s.Keys
    ensures CnfHolds(ExtractCnf(e), s) <==> Eval(e, s, unknown)
  {
    match e
    case Ident(x) =>
      SingleClause([Literal(x, true)], s);
    case Not(a) =>
      SingleClause([Literal(a.name, false)], s);
    case And(a, b) =>
      ExtractCnfSound(a, s, unknown);
      ExtractCnfSound(b, s, unknown);
      CnfHoldsAppend(ExtractCnf(a), ExtractCnf(b), s);
    case Or(a, b) =>
      ExtractCnfSound(a, s, unknown);
      ExtractCnfSound(b, s, unknown);
      var l := ExtractCnf(a);
      var r := ExtractCnf(b);
      SingleClause(l[0], s);
      SingleClause(r[0], s);
      SingleClause(l[0] + r[0], s);
      assert l == [l[0]] && r == [r[0]];
      ClauseHoldsAppend(l[0], r[0], s);
  }

  /** A guard built only from identifiers, negated identifiers and `&&`. */
  predicate Conjunctive(e: Expr) {
    match e
    case Ident(_) => true
    case Not(a) => a.Ident?
    case And(a, b) => Conjunctive(a) && Conjunctive(b)
    case _ => false
  }

  /** The signed leaves of a conjunctive guard, left to right. */
  function Leaves(e: Expr): seq<Literal>
    requires Conjunctive(e)
  {
    match e
    case Ident(x) => [Literal(x, true)]
    case Not(a) => [Literal(a.name, false)]
    case And(a, b) => Leaves(a) + Leaves(b)
  }

  /** Each literal as a clause of its own. */
  function Singletons(ls: seq<Literal>): (r: Cnf)
    ensures |r| == |ls|
    ensures forall i :: 0 <= i < |ls| ==> r[i] == [ls[i]]
  {
    if |ls| == 0 then [] else [[ls[0]]] + Singletons(ls[1..])
  }

  lemma SingletonsAppend(xs: seq<Literal>, ys: seq<Literal>)
    ensures Singletons(xs + ys) == Singletons(xs) + Singletons(ys)
  {
    var l, r := Singletons(xs + ys), Singletons(xs) + Singletons(ys);
    assert |l| == |r|;
    forall i | 0 <= i < |l|
      ensures l[i] == r[i]
    {
      if i < |xs| {
        assert (xs + ys)[i] == xs[i];
      } else {
        assert (xs + ys)[i] == ys[i - |xs|];
      }
    }
  }

  /** A pure conjunction yields one singleton clause per leaf, left to right. */
  lemma {:induction false} ConjunctionGivesSingletons(e: Expr)
    requires Conjunctive(e)
    ensures ExtractCnf(e) == Singletons(Leaves(e))
  {
    match e
    case Ident(_) =>
    case Not(_) =>
    case And(a, b) =>
      ConjunctionGivesSingletons(a);
      ConjunctionGivesSingletons(b);
      SingletonsAppend(Leaves(a), Leaves(b));
  }

  /**
   * The fallback cases: an unrecognised node, `!` of anything but an identifier, and `||`
   * with a side that is not exactly one clause all yield exactly one empty clause.
   */
  lemma FallbackShapes(t: string, a: Expr, b: Expr)
    ensures ExtractCnf(Other(t)) == [[]]
    ensures !a.Ident? ==> ExtractCnf(Not(a)) == [[]]
    ensures |ExtractCnf(a)| != 1 || |ExtractCnf(b)| != 1 ==> ExtractCnf(Or(a, b)) == [[]]
  {
  }

  /**
   * An unrecognised operand of `||` contributes the empty clause, which the merge absorbs:
   * the disjunction is extracted as if that operand were not there.
   */
  lemma UnsupportedDisjunctAbsorbed(t: string, b: Expr)
    requires |ExtractCnf(b)| == 1
    ensures ExtractCnf(Or(Other(t), b)) == ExtractCnf(b)
    ensures ExtractCnf(Or(b, Other(t))) == ExtractCnf(b)
  {
    var r := ExtractCnf(b);
    assert [] + r[0] == r[0] && r[0] + [] == r[0];
  }

  /**
   * A guard containing an unrecognised conjunct extracts to a CNF that holds in no state:
   * the solver never considers its branch active.
   */
  lemma UnsupportedConjunctNeverHolds(t: string, b: Expr, s: State)
    ensures !CnfHolds(ExtractCnf(And(Other(t), b)), s)
    ensures !CnfHolds(ExtractCnf(Other(t)), s)
  {
    EmptyShapes(ExtractCnf(And(Other(t), b)), s);
    EmptyShapes(ExtractCnf(Other(t)), s);
  }
}
