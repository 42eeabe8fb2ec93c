/**
 * Literals and CNF formulas, the vocabulary shared by the extractor (which produces them)
 * and the solver (which evaluates them), together with their truth in a state.
 */
module Logic {

  /** A signed reference to a named boolean variable. */
  datatype Literal = Literal(name: string, assignment: bool)

  /** A disjunction of literals. */
  type Clause = seq<Literal>

  /** A conjunction of clauses. */
  type Cnf = seq<Clause>

  /** An assignment of boolean values to variable names. */
  type State = map<string, bool>

  /** The literal's variable is defined in `s` and has the literal's value there. */
  predicate LitHolds(l: Literal, s: State) {
    l.name in s && s[l.name] == l.assignment
  }

  /** The solver's `Or([...])` over a clause: false for the empty clause. */
  predicate ClauseHolds(c: Clause, s: State) {
    |c| > 0 && (LitHolds(c[0], s) || ClauseHolds(c[1..], s))
  }

  /** The solver's `And([...])` over a CNF: true for the empty CNF. */
  predicate CnfHolds(f: Cnf, s: State) {
    |f| == 0 || (ClauseHolds(f[0], s) && CnfHolds(f[1..], s))
  }

  /** Some literal of `c` holds in `s`. */
  ghost predicate HasTrueLiteral(c: Clause, s: State) {
    exists j :: 0 <= j < |c| && LitHolds(c[j], s)
  }

  /** A clause holds iff one of its literals holds. */
  lemma {:induction false} ClauseHoldsIff(c: Clause, s: State)
    ensures ClauseHolds(c, s) <==> HasTrueLiteral(c, s)
    decreases |c|
  {
    if |c| > 0 {
      ClauseHoldsIff(c[1..], s);
      if LitHolds(c[0], s) {
        assert 0 <= 0 < |c| && LitHolds(c[0], s);
      } else if ClauseHolds(c[1..], s) {
        var j :| 0 <= j < |c[1..]| && LitHolds(c[1..][j], s);
        assert LitHolds(c[j + 1], s);
      }
    }
  }

  /** A CNF holds iff every clause has a literal that holds. */
  lemma CnfHoldsIff(f: Cnf, s: State)
    ensures CnfHolds(f, s) <==> forall i :: 0 <= i < |f| ==> HasTrueLiteral(f[i], s)
  {
    CnfHoldsEvery(f, s);
    forall i | 0 <= i < |f|
      ensures ClauseHolds(f[i], s) <==> HasTrueLiteral(f[i], s)
    {
      ClauseHoldsIff(f[i], s);
    }
  }

  lemma {:induction false} CnfHoldsEvery(f: Cnf, s: State)
    ensures CnfHolds(f, s) <==> forall i :: 0 <= i < |f| ==> ClauseHolds(f[i], s)
    decreases |f|
  {
    if |f| > 0 {
      CnfHoldsEvery(f[1..], s);
      assert forall i :: 1 <= i < |f| ==> f[1..][i - 1] == f[i];
    }
  }

  /** The empty CNF holds everywhere; a CNF containing the empty clause holds nowhere. */
  lemma EmptyShapes(f: Cnf, s: State)
    ensures CnfHolds([], s)
    ensures [] in f ==> !CnfHolds(f, s)
  {
    CnfHoldsIff(f, s);
    if [] in f {
      var i :| 0 <= i < |f| && f[i] == [];
    }
  }

  /** Appending CNFs conjoins them. */
  lemma {:induction false} CnfHoldsAppend(f: Cnf, g: Cnf, s: State)
    ensures CnfHolds(f + g, s) <==> CnfHolds(f, s) && CnfHolds(g, s)
    decreases |f|
  {
    if |f| > 0 {
      assert (f + g)[0] == f[0];
      assert (f + g)[1..] == f[1..] + g;
      CnfHoldsAppend(f[1..], g, s);
    } else {
      assert f + g == g;
    }
  }

  /** Appending clauses disjoins them. */
  lemma {:induction false} ClauseHoldsAppend(c: Clause, d: Clause, s: State)
    ensures ClauseHolds(c + d, s) <==> ClauseHolds(c, s) || ClauseHolds(d, s)
    decreases |c|
  {
    if |c| > 0 {
      assert (c + d)[0] == c[0];
      assert (c + d)[1..] == c[1..] + d;
      ClauseHoldsAppend(c[1..], d, s);
    } else {
      assert c + d == d;
    }
  }

  /** A one-clause CNF holds iff its clause does. */
  lemma SingleClause(c: Clause, s: State)
    ensures CnfHolds([c], s) <==> ClauseHolds(c, s)
  {
    assert [c][1..] == [];
  }

  /** The variable names a CNF mentions, clause by clause and literal by literal. */
  function CnfNames(f: Cnf): (r: seq<string>)
    ensures forall x :: x in r <==> exists i, j :: 0 <= i < |f| && 0 <= j < |f[i]| && f[i][j].name == x
  {
    if |f| == 0 then []
    else
      var r := ClauseNames(f[0]) + CnfNames(f[1..]);
      assert forall i :: 1 <= i < |f| ==> f[1..][i - 1] == f[i];
      r
  }

  function ClauseNames(c: Clause): (r: seq<string>)
    ensures |r| == |c|
    ensures forall j :: 0 <= j < |c| ==> r[j] == c[j].name
  {
    if |c| == 0 then [] else [c[0].name] + ClauseNames(c[1..])
  }
}
