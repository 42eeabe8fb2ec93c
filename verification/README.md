# Property-based testing of React components through a bounded model checker — a Dafny model

The system tests declared properties of a React component, such as "a dark-mode button is shown".
It does this without rendering the component. Its pipeline has four stages:

1. **Extraction.** The component source is read into a symbolic model:
   - the guards of its top-level `if` / `else if` / `else` rendering chains become CNF formulas over state variables;
   - each alternative becomes a *branch*, with one boolean implication per declared property;
   - the `onClick` handlers in each alternative's output are mined for the state transitions they may cause.
2. **Solving.** A Z3 server builds a bounded-trace formula from that model. The formula asks for a run of `TRACE_LEN` states whose state at index 1 (the second one) satisfies the preconditionals, whose every step is a valid transition, and whose last state lies in a branch whose implications, read as property values, satisfy the assertion's CNF. A satisfying run is reported as a failed test.
3. **Validation.** Requests and replies are checked against zod schemas.
4. **Searches.** Two small helpers search a component's `useState` declarations and a parsed stylesheet.

This project models each stage in Dafny.

| Dafny module (file) | models |
|---|---|
| `Guards` (guards.dfy) | `extractConditionsInCNF`: guard expression to CNF |
| `Assertions` (assertions.dfy) | `TextAssertionHandler`, the handler registry, `processAssertion` |
| `Text`, `Patterns` (text.dfy, patterns.dfy) | `includes`, `trim`, and the four regular expressions of the extractor |
| `OrderedSets` (ordered_sets.dfy) | the insertion-ordered JavaScript `Set` of state-variable names |
| `SetterMaps` (setters.dfy) | the insertion-ordered JavaScript `Map` from setter to state variable, and the map the whole-file scan builds |
| `Miner` (miner.dfy) | `extractStateTransitions` and `scanComponentTransitions` |
| `Syntax`, `Hooks` (syntax.dfy, hooks.dfy) | `extractUseStateHooks` over abstract call sites |
| `Component` (component.dfy) | `extractJsxReturnContent`, `processIfElseChain`, `parseReactComponent`, `testComponentProperties` |
| `Logic`, `Model` (logic.dfy, model.dfy) | literals, CNFs and their truth in a state; branches and transitions |
| `Solver` (solver.dfy) | the constraints of `PageTransitionSolver` and the result shaping of `solveReq` |
| `Json`, `PropertySchemas`, `Z3Responses` | the zod schemas of `PropertyDefinition.ts` and `Z3Response.ts` |
| `GetState` (get_state.dfy) | `getStateVariables` over abstract variable declarations |
| `CssParser` (css_parser.dfy) | `checkCssPropertyValue` over an already parsed stylesheet |

How inputs are represented:

- **ts-morph trees.** Abstract datatypes replace them. `Expr` stands for a guard. `Alt` / `Next` stand for an if-chain. `IfStatement` records the two positional facts the driver tests. `CallSite` records a call with its parent and grandparent.
- **Regular expressions.** Each is a match function at a fixed position plus a leftmost search. Each match function is paired with a declarative description of the text a match needs, and lemmas prove the two agree in both directions. The state-declaration pattern is a list of elements (literals, `\s*`, `\s+`, `(\w+)`) run by one greedy matcher. The greedy runs and lazy groups of the other patterns are worked out by hand.
- **Z3 formula.** A predicate over concrete traces (`seq<map<string, bool>>`) and one assignment of the property variables. "sat" is the existence of a satisfying trace.
- **Python lookup errors.** A dictionary lookup of an undeclared name (`KeyError`) and a trace index that was never created (`IndexError`) are both modelled as `Raises`. That makes the reply an error.

Two places where the model follows the code rather than the declared types:

- **Request shape.** The declared Python request type in z3_server/datatypes.py disagrees with what `solver.py` dereferences. The model follows `solver.py`:
  - `pbt_assertion` is a single assertion with a `name` and a `cnf`;
  - `preconditionals` is a CNF;
  - transitions carry a list of boolean `assignments`.
- **`useState` guard.** `extractUseStateHooks` is modelled as written: it records a pair only when the `useState` call's direct parent is an array literal inside a variable declaration. `Hooks.DirectDeclarationsRecordNothing` shows what follows: the usual `const [v, setV] = useState(x)` records nothing.

## Model

| member | source | states |
|---|---|---|
| Guards.ExtractCnf | node_server/src/utils/testComponentProperties.ts:332-376 | the extracted CNF always has at least one clause (the fallback is one empty clause, never an empty CNF), and every literal names an identifier of the guard |
| Guards.ExtractCnfSound | node_server/src/utils/testComponentProperties.ts:332-372 | on guards built from identifiers, `!identifier`, `&&`, and disjunctions of single-clause sides, the CNF holds in a state exactly when the guard evaluates to true there |
| Guards.ConjunctionGivesSingletons | node_server/src/utils/testComponentProperties.ts:334-356 | a pure conjunction of identifiers and negated identifiers gives one singleton clause per leaf, left to right: `x` gives `[[(x,true)]]` and `!x` gives `[[(x,false)]]` |
| Guards.FallbackShapes | node_server/src/utils/testComponentProperties.ts:338-375 | an unrecognised node, `!` of a non-identifier, and a disjunction with a side that is not exactly one clause each give exactly `[[]]` |
| Guards.UnsupportedDisjunctAbsorbed | node_server/src/utils/testComponentProperties.ts:359-370 | an unrecognised operand of a disjunction is silently absorbed: the disjunction extracts as the other operand alone |
| Guards.UnsupportedConjunctNeverHolds | node_server/src/utils/testComponentProperties.ts:348-375 | a guard whose conjunct is unrecognised extracts to a CNF that holds in no state |
| Assertions.Dispatch | node_server/src/utils/testComponentProperties.ts:29-43 | the first registered handler that can handle the assertion decides; if none can, the result is false |
| Assertions.ProcessAssertionMeaning | node_server/src/utils/testComponentProperties.ts:18-43 | a text assertion holds iff its text occurs in the content, so an empty text always holds; a label assertion has no handler and is false |
| Assertions.Implications | node_server/src/utils/testComponentProperties.ts:139-145 | one literal per property, in property order, named after the property, true iff it is a text assertion whose text occurs in the alternative's full text |
| Text.ContainsIff | node_server/src/utils/testComponentProperties.ts:25 | `includes` holds iff the pattern occurs at some index; the empty string is included in every string |
| Text.Trim | node_server/src/utils/testComponentProperties.ts:276 | `trim` removes exactly the leading and trailing whitespace runs: the result is an infix with whitespace on both sides, and neither its first nor its last character is whitespace |
| Patterns.ReturnCapture | node_server/src/utils/testComponentProperties.ts:202 | from the start of the capture, the match ends just after the first `);`, and there is a match iff some `);` follows; the capture is the text up to the whitespace run before that `);`, so it is empty or ends in a non-space, and it contains no `);` |
| Patterns.ReturnAt | node_server/src/utils/testComponentProperties.ts:202 | a match at an index needs `return`, optional whitespace and `(`; its capture and end are those of the lazy capture that starts just past the whitespace after that `(` |
| Patterns.ReturnAtSound | node_server/src/utils/testComponentProperties.ts:202 | every match has the pattern's shape: `return`, a whitespace run, `(`, and a later `);` |
| Patterns.ReturnAtComplete | node_server/src/utils/testComponentProperties.ts:202 | wherever the text has that shape, the pattern matches |
| Patterns.ReturnAtIff | node_server/src/utils/testComponentProperties.ts:202 | the pattern matches at an index exactly when the text has that shape there |
| Patterns.FirstReturnBody | node_server/src/utils/testComponentProperties.ts:200-205 | there is a capture iff the pattern matches somewhere; the capture is that of the leftmost match |
| Patterns.FirstReturnBodyFinds | node_server/src/utils/testComponentProperties.ts:200-205 | a return statement is found whenever the text has the shape of one anywhere |
| Patterns.ReturnBodies | node_server/src/utils/testComponentProperties.ts:400-404 | the global `exec` loop's captures; none contains `);`, so a body ends at the first `);` even inside a nested handler |
| Patterns.OnClickAt | node_server/src/utils/testComponentProperties.ts:273 | an `onClick={…}` match captures exactly the text between the brace and the first `}`, which is non-empty |
| Patterns.OnClickAtIff | node_server/src/utils/testComponentProperties.ts:273 | the onClick pattern matches at an index exactly when the text there is `onClick={`, a character other than `}`, and a later `}` |
| Patterns.NextOnClickFinds | node_server/src/utils/testComponentProperties.ts:273-275 | the global `exec` finds a match at or before any position where the text has the onClick shape |
| Patterns.BodyAfterParenSound | node_server/src/utils/testComponentProperties.ts:282 | a body found after a `)` follows whitespace, `=>`, whitespace and `{`, and runs from that brace up to the first `};` |
| Patterns.BodyAfterParenExact | node_server/src/utils/testComponentProperties.ts:282 | whenever the arrow, the brace and a closing `};` are there, the body is exactly the text between the brace and the first `};` |
| Patterns.BodyAfterParenIff | node_server/src/utils/testComponentProperties.ts:282 | after a `)`, the rest of the pattern captures a given body exactly when the text has that shape with that body |
| Patterns.BodyAfterParenNone | node_server/src/utils/testComponentProperties.ts:282 | the rest of the pattern fails after a `)` exactly when no body fits that shape |
| Patterns.ParamsEndSound | node_server/src/utils/testComponentProperties.ts:282 | the lazy `\(.*?\)` stops at a `)` that is reached without crossing a line terminator and after which the rest of the pattern matches, and at no earlier such `)` |
| Patterns.ParamsEndExact | node_server/src/utils/testComponentProperties.ts:282 | whenever such a `)` exists with none before it, the scan stops there |
| Patterns.ParamsEndFirst | node_server/src/utils/testComponentProperties.ts:282 | the scan from just after the `(` finds exactly the first `)` where the group can close |
| Patterns.DefHeadAtSound | node_server/src/utils/testComponentProperties.ts:282 | when `const\s+name\s*=\s*\(` is found, the text has that shape, with the name as literal text and the `(` where the model says |
| Patterns.DefHeadForced | node_server/src/utils/testComponentProperties.ts:282 | for an empty name or one that does not begin with whitespace, every occurrence of that shape is found, reaching the same `(` |
| Patterns.HandlerDefAtSound | node_server/src/utils/testComponentProperties.ts:282 | a body found at an index has the whole definition shape there: the head naming the handler, the first `)` where the lazy group can close, the arrow and brace, and the body up to the first `};` |
| Patterns.HandlerDefAtComplete | node_server/src/utils/testComponentProperties.ts:282 | for an empty name or one that does not begin with whitespace, every position with that definition shape yields exactly its body |
| Patterns.FindHandlerDef | node_server/src/utils/testComponentProperties.ts:282-283 | the body of the leftmost matching definition of the handler (no match before it), or none when no position matches; a body never contains `};` |
| Patterns.FindHandlerDefMeaning | node_server/src/utils/testComponentProperties.ts:282-283 | for an empty name or one that does not begin with whitespace, the search returns the body of the leftmost position with the definition shape, and none when no position has it |
| Patterns.MatchElemsSound | node_server/src/utils/testComponentProperties.ts:390 | what the greedy matcher of a sequential pattern of literals, `\s*`, `\s+` and `(\w+)` finds is a match in the regular-expression sense, with the same word spans and end |
| Patterns.MatchElemsComplete | node_server/src/utils/testComponentProperties.ts:390 | for a pattern in which no run can give characters back, every regular-expression match is the one the greedy matcher finds |
| Patterns.UseStatePatternSeparated | node_server/src/utils/testComponentProperties.ts:390 | in the state-declaration pattern no run can give characters back, and exactly two words are captured |
| Patterns.UseStateAt | node_server/src/utils/testComponentProperties.ts:390 | a `const [v, s] = useState` match ends inside the text and yields two non-empty names |
| Patterns.UseStateAtSound | node_server/src/utils/testComponentProperties.ts:390 | a declaration found at an index has the pattern's shape, and the two names are the text of its two `\w+` runs |
| Patterns.UseStateAtComplete | node_server/src/utils/testComponentProperties.ts:390 | wherever the text has the shape of a declaration, it is found, with those two names and that end |
| Patterns.UseStateAtIff | node_server/src/utils/testComponentProperties.ts:390 | the pattern matches at an index with given names and end exactly when the text has that shape with those names |
| Patterns.NextUseState | node_server/src/utils/testComponentProperties.ts:390-393 | the leftmost position at or after the start where the pattern matches, with none before it, or none when there is no match |
| Patterns.NextUseStateMeaning | node_server/src/utils/testComponentProperties.ts:390-393 | the global `exec` finds the leftmost position with the shape of a declaration, and none when no position has that shape |
| SetterMaps.Put | node_server/src/utils/testComponentProperties.ts:230 | `Map.set` keeps keys distinct; afterwards the key maps to the new value and every other key is unchanged; an existing key keeps its position and a new key goes last |
| Miner.AddMissing | node_server/src/utils/testComponentProperties.ts:304-310 | after the toggle or unknown-use case, both `true` and `false` are present, nothing is lost, and at most two values are added |
| Miner.SetterAssignmentsMeaning | node_server/src/utils/testComponentProperties.ts:257-314 | a value is mined for a setter iff an inline arrow pattern sets it, or an onClick capture names a handler whose body sets it (`S(true)` before `S(false)`; a toggle or unknown use gives both) |
| Miner.ArrowCapturesIgnored | node_server/src/utils/testComponentProperties.ts:276-279 | when every onClick capture contains `=>`, only the four inline literal patterns contribute |
| Miner.FalsePushedTwice | node_server/src/utils/testComponentProperties.ts:257-296 | pushes are not deduplicated: an inline `S(false)` plus a handler that only calls `S(false)` yields `false` at least twice |
| Miner.ExtractFrom | node_server/src/utils/testComponentProperties.ts:249-326 | every emitted transition has non-empty assignments and a variable not yet processed, and no two transitions name the same variable |
| Miner.ExtractFromOrigin | node_server/src/utils/testComponentProperties.ts:250-325 | each transition comes from the first setter for its variable whose values (mined from the same text) are non-empty |
| Miner.ExtractFromComplete | node_server/src/utils/testComponentProperties.ts:250-325 | every unprocessed variable with a setter that yields values gets a transition |
| SetterMaps.ScanSetterMap | node_server/src/utils/testComponentProperties.ts:387-397 | the whole-file setter map has distinct setters, and each entry comes from a `useState` declaration match |
| SetterMaps.ScanSetterMapLastWins | node_server/src/utils/testComponentProperties.ts:393-397 | a setter maps to the state variable of its last declaration, and a setter that is never declared has no entry |
| SetterMaps.ScanSetterMapKeyOrder | node_server/src/utils/testComponentProperties.ts:393-397 | the map's setters, in iteration order, are exactly the distinct declared setters, ordered by first declaration |
| Miner.TransitionsFor | node_server/src/utils/testComponentProperties.ts:409-481 | each transition of a scanned return body comes from a setter of the map, with that setter's values mined from the body (definitions from the whole file) |
| Miner.TransitionsForComplete | node_server/src/utils/testComponentProperties.ts:409-481 | there is no per-variable skip: every setter with non-empty values yields its transition |
| Miner.TransitionsPerCapture | node_server/src/utils/testComponentProperties.ts:404-484 | one entry per return match, in match order; entry k is numbered k+1 by the source |
| Hooks.ExtractUseStateHooks | node_server/src/utils/testComponentProperties.ts:208-238 | the map has distinct setters, and each entry is the pair a recording call produced |
| Hooks.LastRecordingWins | node_server/src/utils/testComponentProperties.ts:218-235 | a setter maps to the variable of the last call recording it, and has no entry if no call records it |
| Hooks.DirectDeclarationsRecordNothing | node_server/src/utils/testComponentProperties.ts:220-223 | when every `useState` call's parent is the declaration itself, the map is empty |
| Hooks.ArrayLiteralInitialiserRecords | node_server/src/utils/testComponentProperties.ts:220-231 | `const [a, b] = [useState(x), …]` records `b -> a` |
| Component.JsxOrText | node_server/src/utils/testComponentProperties.ts:128-149 | the mined text is the first return match's capture when there is one and it is non-empty, and the whole alternative text otherwise |
| Component.JsxOrTextLeftmost | node_server/src/utils/testComponentProperties.ts:200-205 | stated over the matches: with a leftmost match at `k`, the mined text is its capture unless that is empty, and the whole text then |
| Component.JsxOrTextNoMatch | node_server/src/utils/testComponentProperties.ts:200-205 | with no match of the return pattern anywhere, the whole alternative text is mined |
| Component.MakeBranch | node_server/src/utils/testComponentProperties.ts:123-155 | a branch keeps its conditions, has one implication per property computed from the full alternative text, and takes its transitions from the mined return body |
| Component.ChainShape | node_server/src/utils/testComponentProperties.ts:110-196 | n guarded alternatives give n arms in order with their guards' CNFs and then-texts, plus one arm with `[]` conditions for a final else and nothing else |
| Component.EmptyConditionsOnlyForElse | node_server/src/utils/testComponentProperties.ts:151-185 | a branch of a chain has empty conditions iff it is the last branch and the chain has a final else |
| Component.ProcessIfElseChainMeaning | node_server/src/utils/testComponentProperties.ts:103-197 | the collected branches stay in front, followed by the chain's branches in order; the variable set grows by the chain's guard names in first-occurrence order |
| Component.ChainStarts | node_server/src/utils/testComponentProperties.ts:63-72 | an if-statement starts a chain iff it has no if-statement ancestor and its parent is not a case clause; no more starts than statements |
| Component.StartIndices | node_server/src/utils/testComponentProperties.ts:64-72 | the positions of the chain-starting statements, strictly increasing and within the list |
| Component.StartIndicesExact | node_server/src/utils/testComponentProperties.ts:64-72 | a position is among them iff the statement there starts a chain |
| Component.ChainStartsInOrder | node_server/src/utils/testComponentProperties.ts:64-75 | `filter` keeps document order: the k-th chain walked is the statement at the k-th start position |
| OrderedSets.AddAllOrder | node_server/src/utils/testComponentProperties.ts:116-121 | adding names to the insertion-ordered set keeps it free of duplicates and ordered by first occurrence |
| Component.ParseReactComponent | node_server/src/utils/testComponentProperties.ts:45-100 | exactly one result; its `assertions` is always empty; its `pbt_variables` are the property names in order |
| Component.ParseReactComponentMeaning | node_server/src/utils/testComponentProperties.ts:52-99 | the result's branches are those of the top-level chains in document order; its state variables are the distinct guard names, in first-occurrence order |
| Component.MergeBranch | node_server/src/utils/testComponentProperties.ts:502-504 | a branch keeps its conditions and implications; its transitions become the scan entry when that entry exists and is non-empty, and it is unchanged otherwise |
| Component.MergeBranches | node_server/src/utils/testComponentProperties.ts:498-507 | branch k of the list is merged with the scan entry at the running index `offset + k`, so the numbering continues across the list |
| Component.MergeResults | node_server/src/utils/testComponentProperties.ts:500-507 | the merge changes only branches: state variables, property variables and assertions are untouched |
| Component.TestComponentProperties | node_server/src/utils/testComponentProperties.ts:489-510 | one result, with the parsed state variables, the property names and no assertions |
| Component.TestComponentPropertiesMeaning | node_server/src/utils/testComponentProperties.ts:489-510 | each final branch keeps its guard and implications; its transitions are the whole-file scan's entry for its position when non-empty, else the per-branch mining |
| Logic.ClauseHoldsIff | z3_server/solver.py:38-46 | a clause holds iff one of its literals names a variable whose value equals its assignment |
| Logic.CnfHoldsIff | z3_server/solver.py:38-46 | a CNF holds iff every clause has a literal that holds |
| Logic.EmptyShapes | z3_server/solver.py:38-46 | the empty CNF holds everywhere; a CNF containing an empty clause holds nowhere |
| Logic.CnfNames | node_server/src/utils/testComponentProperties.ts:117-121 | the names collected from a guard's CNF are exactly the names of its literals |
| Solver.ConstNamesDistinct | z3_server/solver.py:122-124 | the constants `v_i` of distinct (variable, step) pairs have distinct names, so state variables never alias one another |
| Solver.Snapshots | z3_server/solver.py:11-17 | one snapshot per trace state, each listing every state variable in declaration order with its value |
| Solver.SolveWith | z3_server/solver.py:4-20 | error iff building the formula raises; otherwise "failed" iff a satisfying trace exists, with the assertion's name and the n states of such a trace, else "passed" |
| Solver.StutterStep | z3_server/solver.py:76-103 | where some branch's guard holds, staying in the same state is a valid step (the "do nothing" option, or no transitions) |
| Solver.ValueSource | z3_server/solver.py:76-110 | a state variable changes only through a transition for it, of a branch whose guard held before, and only to one of that transition's values |
| Solver.FrozenVariable | z3_server/solver.py:76-129 | along a valid trace, a state variable no transition names keeps its first value |
| Solver.FixpointCounterexample | z3_server/solver.py:112-131 | the constant trace at a state makes the request satisfiable when that state meets the preconditionals (imposed at index 1), can stay put, and lies in a final branch whose implied property values satisfy `pbt_assertion.cnf` |
| Solver.NoBranchesPass | z3_server/solver.py:57-68 | with no branches, no final branch matches, so a request that does not raise passes |
| Solver.FirstStateUnconstrained | z3_server/solver.py:126 | the preconditionals constrain index 1, not index 0: a valid trace may start in a state that violates them |
| Solver.FixtureFails | z3_server/test_server.py:5-47 | the example request yields "failed", naming `hasDarkModeButton` |
| Solver.ReplyValidates | z3_server/solver.py:10-20 | the reply, encoded as JSON, passes the frontend's response schema unchanged, and reads "failed" iff a counterexample exists |
| PropertySchemas.ParseLiteral | node_server/src/types/PropertyDefinition.ts:54-57 | a literal parses iff the object has a string `name` and a boolean `assignment`, and takes those values |
| PropertySchemas.ParseClauseItems | node_server/src/types/PropertyDefinition.ts:24-27 | a list of literals parses iff every item does, item by item |
| PropertySchemas.ParseTextAssertion | node_server/src/types/PropertyDefinition.ts:21-32 | the text shape accepts exactly an object with a string `name` and `textToFind` and CNFs `lhs` and `rhs`, and takes those values |
| PropertySchemas.ParseLabelAssertion | node_server/src/types/PropertyDefinition.ts:35-46 | the label shape accepts exactly an object with a string `name` and `labelToFind` and CNFs `lhs` and `rhs`, and takes those values |
| PropertySchemas.ParseAssertion | node_server/src/types/PropertyDefinition.ts:49-52 | the union accepts exactly what one of the shapes accepts; it yields a text assertion iff the text shape fits, and reads `name`, `lhs`, `rhs` and the distinguishing field from the object |
| PropertySchemas.OptionalBoolDefaultTrue | node_server/src/types/PropertyDefinition.ts:61 | an absent flag reads as true; a present one must be a boolean |
| PropertySchemas.ParseNodeApiRequest | node_server/src/types/PropertyDefinition.ts:59-63 | a request parses iff it has a string `filepath`, a valid optional flag and an array of valid assertions; the flag defaults to true, and assertion k is the parse of item k |
| PropertySchemas.LiteralRoundTrip | node_server/src/types/PropertyDefinition.ts:54-57 | an encoded literal parses back to itself |
| PropertySchemas.CnfRoundTrip | node_server/src/types/PropertyDefinition.ts:24-31 | an encoded list of lists of literals parses back to itself |
| PropertySchemas.AssertionRoundTrip | node_server/src/types/PropertyDefinition.ts:21-52 | both assertion kinds parse back to themselves through the union |
| PropertySchemas.NodeApiRequestRoundTrip | node_server/src/types/PropertyDefinition.ts:59-63 | an encoded request parses back to itself |
| PropertySchemas.TextShapeWins | node_server/src/types/PropertyDefinition.ts:49-52 | an object carrying both `textToFind` and `labelToFind` parses as a text assertion |
| PropertySchemas.DefaultStateful | node_server/src/types/PropertyDefinition.ts:61 | a request without `useStatefulTesting` parses with the flag true |
| PropertySchemas.ExtraKeyIgnored | node_server/src/types/PropertyDefinition.ts:21-46 | undeclared keys are stripped and change nothing |
| PropertySchemas.RejectedShapes | node_server/src/types/PropertyDefinition.ts:49-52 | non-objects and objects without `name` are rejected |
| Z3Responses.ParsePassed | frontend/src/types/Z3Response.ts:12-16 | the passed shape needs exactly an empty `states` array and `violated_pbt` equal to "" |
| Z3Responses.ParseFailed | frontend/src/types/Z3Response.ts:19-23 | the failed shape needs `states` as a list of lists of literals and any string `violated_pbt` |
| Z3Responses.ParseZ3Response | frontend/src/types/Z3Response.ts:26-37 | the `result` tag selects the shape: "passed" gives exactly the passed shape's parse, "failed" exactly the failed shape's, and any other tag is rejected; `isFailedResponse` holds iff the tag is "failed" |
| Z3Responses.Z3ResponseRoundTrip | frontend/src/types/Z3Response.ts:12-29 | every response, encoded, parses back to itself |
| Z3Responses.PassedIsStrict | frontend/src/types/Z3Response.ts:12-16 | a passed reply with a state, or with a non-empty `violated_pbt`, is rejected |
| GetState.GetStateVariables | src/getState.ts:3-24 | the nested loops return exactly the declaration-by-declaration, element-by-element list of names |
| GetState.StateNamesMeaning | src/getState.ts:8-19 | a name is reported iff it names a non-hole element of the array pattern of a declaration initialised by a call to the identifier `useState` |
| GetState.ElementNamesMeaning | src/getState.ts:16-19 | an element name is listed iff a non-hole element carries it; holes add nothing |
| GetState.DuplicatesKept | src/getState.ts:6-23 | every element name is reported (value, setter, any extra), holes are skipped, and a repeated declaration repeats them |
| CssParser.CheckCssPropertyValue | css_parser/cssParser.js:14-44 | true iff there is a stylesheet and some top-level rule lists the class among its selectors and declares exactly that property and value; false without an AST or stylesheet |
| CssParser.SelectorlessRulesIgnored | css_parser/cssParser.js:28-30 | rules without a selector list never change the answer |
| CssParser.UnlistedClassUnassigned | css_parser/cssParser.js:27-30 | when no rule lists the class itself among its selectors, the value is never found, whatever other selectors contain |
| CssParser.WholeSelectorMatch | css_parser/cssParser.js:30 | selectors are compared whole: a rule for `body div` does not match the class `body` |

## Left out

- Reading files and building the ts-morph project are not modelled. The inputs are abstract trees and strings instead. This covers testComponentProperties.ts:49-50 and 380-384, getState.ts:4-5, and cssParser.js:7-12.
- The `console.warn` diagnostics are not modelled. They are output only.
- The Z3 search is not modelled: satisfiability is the existence of a trace. Which model Z3 reports is not modelled either. Neither is the `bool(None)` the Python would read for a constant the model leaves unassigned.
- Solver.SolveWith: a "failed" reply carries the states of *some* satisfying trace, not necessarily the one Z3 picks.
- Patterns.HandlerDefAtComplete / Patterns.DefHeadForced / Patterns.FindHandlerDefMeaning: these completeness statements need a handler name that is empty or does not begin with whitespace. The name the source splices in is always trimmed (node_server/src/utils/testComponentProperties.ts:276), so such a name never reaches it. A name that does begin with whitespace would let the pattern's `\s+` give characters back to it. Those extra matches are not promised.
- Patterns.HandlerDefAt: the source builds the definition pattern with `new RegExp` from the trimmed handler name, unescaped (node_server/src/utils/testComponentProperties.ts:282 and :440). The model matches the name as literal text. A name with regular-expression metacharacters can therefore match differently in the source. When the spliced pattern is not a valid regular expression (a capture such as `foo(`), `new RegExp` throws a SyntaxError that nothing catches, and the whole call fails; the model instead reports no definition and carries on.
- Miner.ScanComponentTransitions: its own contract states only the number of entries. The content of each entry is stated by Miner.TransitionsPerCapture and Miner.TransitionsFor.
- The positional facts of if-statements are given as booleans, not computed from a tree: whether a statement has an if-statement ancestor and whether its parent is a case clause. The non-if-statement arm of the chain walker (testComponentProperties.ts:193-195) cannot arise in this representation.
- Element texts stand in for ts-morph's `getText()`. Its formatting of binding elements, such as spacing around default initialisers, is not modelled.
- zod's issue lists and error messages are not modelled. A parse either succeeds with the typed value or fails.
- JSON numbers are integers in the model. No schema modelled here accepts a number.
- `css.parse` and its parse errors are not modelled: the parsed AST is the input. Rules nested inside `@media` blocks hang off selector-less rules, so they are not examined, exactly as in the code.
- HTTP plumbing is not modelled: node_server/src/server.ts, z3_server/run_server.py and node_server/send_z3_request.py. The request in z3_server/test_server.py is used only as a fixture.
- The frontend UI, the example components and the HTML parsers are not modelled. The parsers rest on node-html-parser's selector engine.
- The obsolete `server/` directory is not modelled.
- Type-only files whose shapes have drifted from the code that reads them are not modelled: SolverRequest.ts and both PropertyTestResult.ts.
- Solver.SolveWith / Solver.ReplyValidates: the reply is modelled as the `result`, `states` and `violated_pbt` arguments that z3_server/solver.py:10-20 passes, read against the frontend's schema in frontend/src/types/Z3Response.ts. The pydantic models of z3_server/datatypes.py, which z3_server/run_server.py:17 uses to validate the request and the reply, are not modelled. As written they would refuse those arguments: `SolverResponse` declares no `result` field and types `violated_pbt` as a `Literal`, not a string (datatypes.py:23-25). `SolverRequest.pbt_assertions` also names `PbtAssertion`, which is not a pydantic model (datatypes.py:6, 21).
