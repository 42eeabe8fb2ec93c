/**
 * `getStateVariables` in src/getState.ts: every name bound by an array pattern that
 * destructures a `useState(...)` call, over the variable declarations of a file in document
 * order. Reading the file with ts-morph is replaced by the list of declarations.
 */
module GetState {
  import opened Syntax

  /** The initializer of a declaration, as far as `asKind(SyntaxKind.CallExpression)` tells. */
  datatype Init = CallInit(callee: Callee) | OtherInit | NoInit

  datatype VarDecl = VarDecl(init: Init, name: BindingName)

  /** The declaration is initialised by a call whose callee is the identifier `useState`. */
  predicate InitialisedByUseState(d: VarDecl) {
    d.init.CallInit? && IsUseState(d.init.callee)
  }

  /** The names of the binding elements, in order; holes contribute nothing. */
  function ElementNames(els: seq<BindingElem>): seq<string> {
    if |els| == 0 then []
    else ElementNames(els[..|els| - 1]) + (if els[|els| - 1].Element? then [els[|els| - 1].name] else [])
  }

  /** What one declaration contributes. */
  function DeclNames(d: VarDecl): seq<string> {
    if InitialisedByUseState(d) && d.name.ArrayBinding? then ElementNames(d.name.elements) else []
  }

  /** What the declarations contribute, in declaration order, duplicates kept. */
  function StateNames(decls: seq<VarDecl>): seq<string> {
    if |decls| == 0 then [] else StateNames(decls[..|decls| - 1]) + DeclNames(decls[|decls| - 1])
  }

  /** `getStateVariables` */
  method GetStateVariables(decls: seq<VarDecl>) returns (stateVars: seq<string>)
    ensures stateVars == StateNames(decls)
  {
    stateVars := [];
    var i := 0;
    while i < |decls|
      invariant 0 <= i <= |decls|
      invariant stateVars == StateNames(decls[..i])
    {
      var d := decls[i];
      if d.init.CallInit? && IsUseState(d.init.callee) && d.name.ArrayBinding? {
        var els := d.name.elements;
        var j := 0;
        while j < |els|
          invariant 0 <= j <= |els|
          invariant stateVars == StateNames(decls[..i]) + ElementNames(els[..j])
        {
          if els[j].Element? {
            stateVars := stateVars + [els[j].name];
          }
          assert els[..j + 1][..j] == els[..j];
          j := j + 1;
        }
        assert els[..j] == els;
      }
      assert decls[..i + 1][..i] == decls[..i];
      i := i + 1;
    }
    assert decls[..i] == decls;
  }

  lemma {:induction false} ElementNamesMeaning(els: seq<BindingElem>, x: string)
    ensures x in ElementNames(els) <==> exists k :: 0 <= k < |els| && els[k].Element? && els[k].name == x
    ensures |ElementNames(els)| <= |els|
    decreases |els|
  {
    if |els| > 0 {
      var init := els[..|els| - 1];
      ElementNamesMeaning(init, x);
      assert forall k :: 0 <= k < |init| ==> init[k] == els[k];
      if x in ElementNames(els) && x !in ElementNames(init) {
        assert els[|els| - 1].Element? && els[|els| - 1].name == x;
      }
    }
  }

  /**
   * A name is reported iff it is the name of a (non-hole) element of the array pattern of a
   * declaration initialised by `useState(...)`.
   */
  lemma {:induction false} StateNamesMeaning(decls: seq<VarDecl>, x: string)
    ensures x in StateNames(decls) <==>
      exists k, e :: 0 <= k < |decls| && InitialisedByUseState(decls[k]) && decls[k].name.ArrayBinding?
                     && 0 <= e < |decls[k].name.elements| && decls[k].name.elements[e].Element? && decls[k].name.elements[e].name == x
    decreases |decls|
  {
    if |decls| > 0 {
      var init := decls[..|decls| - 1];
      var d := decls[|decls| - 1];
      StateNamesMeaning(init, x);
      assert StateNames(decls) == StateNames(init) + DeclNames(d);
      assert forall k :: 0 <= k < |init| ==> init[k] == decls[k];
      if d.name.ArrayBinding? {
        ElementNamesMeaning(d.name.elements, x);
      }
    }
  }

  /** Every element name is reported, value and setter alike, and a repeated declaration repeats them. */
  lemma DuplicatesKept(a: string, b: string)
    ensures var d := VarDecl(CallInit(IdentCallee("useState")), ArrayBinding([Element(a, a), Omitted, Element(b, b)]));
            StateNames([d, d]) == [a, b, a, b]
  {
    var d := VarDecl(CallInit(IdentCallee("useState")), ArrayBinding([Element(a, a), Omitted, Element(b, b)]));
    assert [d, d][..1] == [d];
    assert [d][..0] == [];
    var els := [Element(a, a), Omitted, Element(b, b)];
    assert els[..2][..1] == els[..1];
    assert els[..1][..0] == [];
    assert els[..2] == [Element(a, a), Omitted];
    assert els[..1] == [Element(a, a)];
    assert ElementNames(els[..1]) == [a];
    assert ElementNames(els[..2]) == [a];
    assert ElementNames(els) == [a, b];
    assert StateNames([d]) == [a, b];
  }
}
