/**
 * `checkCssPropertyValue` in css_parser/cssParser.js over the AST the `css` package produces.
 * Parsing the CSS text is not part of the model: the AST is the input.
 */
module CssParser {
  import opened Wrappers

  /** A declaration of a rule; comments inside a rule carry no property. */
  datatype Declaration = Declaration(property: string, value: string) | DeclComment

  /** A top-level rule; at-rules and comments have no selector list. */
  datatype Rule = Rule(selectors: Option<seq<string>>, declarations: seq<Declaration>)

  datatype Stylesheet = Stylesheet(rules: seq<Rule>)

  datatype Ast = Ast(stylesheet: Option<Stylesheet>)

  /** The rule lists `cssClass` among its selectors and declares `property: value`. */
  predicate Assigns(rule: Rule, cssClass: string, property: string, value: string) {
    rule.selectors.Some? && cssClass in rule.selectors.value && Declaration(property, value) in rule.declarations
  }

  /** Some top-level rule of the stylesheet assigns the value. */
  predicate Assigned(ast: Option<Ast>, cssClass: string, property: string, value: string) {
    && ast.Some? && ast.value.stylesheet.Some?
    && exists k :: 0 <= k < |ast.value.stylesheet.value.rules| && Assigns(ast.value.stylesheet.value.rules[k], cssClass, property, value)
  }

  /** `checkCssPropertyValue(cssString, cssClass, property, value)` with the parsed AST given. */
  method CheckCssPropertyValue(ast: Option<Ast>, cssClass: string, property: string, value: string) returns (found: bool)
    ensures found <==> Assigned(ast, cssClass, property, value)
  {
    if ast.None? || ast.value.stylesheet.None? {
      return false;
    }
    var rules := ast.value.stylesheet.value.rules;
    var i := 0;
    while i < |rules|
      invariant 0 <= i <= |rules|
      invariant forall k :: 0 <= k < i ==> !Assigns(rules[k], cssClass, property, value)
    {
      var rule := rules[i];
      if rule.selectors.Some? && cssClass in rule.selectors.value {
        var decls := rule.declarations;
        var j := 0;
        while j < |decls|
          invariant 0 <= j <= |decls|
          invariant forall m :: 0 <= m < j ==> decls[m] != Declaration(property, value)
        {
          var dec := decls[j];
          if dec.Declaration? && dec.property == property && dec.value == value {
            assert Assigns(rules[i], cssClass, property, value);
            return true;
          }
          j := j + 1;
        }
      }
      i := i + 1;
    }
    return false;
  }

  /** Rules without a selector list never matter, whatever they contain. */
  lemma SelectorlessRulesIgnored(sheet: seq<Rule>, extra: Rule, cssClass: string, property: string, value: string)
    requires extra.selectors.None?
    ensures Assigned(Some(Ast(Some(Stylesheet(sheet + [extra])))), cssClass, property, value)
        <==> Assigned(Some(Ast(Some(Stylesheet(sheet)))), cssClass, property, value)
  {
    var r := sheet + [extra];
    assert forall k :: 0 <= k < |sheet| ==> r[k] == sheet[k];
  }

  /**
   * Selectors are compared whole: when no rule lists `cssClass` itself among its selectors,
   * the value is never found, however many selectors contain it as a part.
   */
  lemma UnlistedClassUnassigned(sheet: seq<Rule>, cssClass: string, property: string, value: string)
    requires forall k :: 0 <= k < |sheet| && sheet[k].selectors.Some? ==> cssClass !in sheet[k].selectors.value
    ensures !Assigned(Some(Ast(Some(Stylesheet(sheet)))), cssClass, property, value)
  {
  }

  /** For instance, a rule for `body div` does not style `body`. */
  lemma WholeSelectorMatch(property: string, value: string)
    ensures !Assigned(Some(Ast(Some(Stylesheet([Rule(Some(["body div"]), [Declaration(property, value)])])))), "body", property, value)
  {
    assert "body" != "body div";
  }
}
