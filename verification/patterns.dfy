/**
 * The regular expressions of node_server/src/utils/testComponentProperties.ts, each modelled
 * as a match at a fixed position plus a leftmost search. The greedy `\s*` runs in these
 * patterns are always followed by a non-space literal, so backtracking into them never finds
 * another match; the lazy groups end at the first occurrence of the closing literal.
 */
module Patterns {
  import opened Wrappers
  import opened Text

  /** Every character of `s` from `i` up to `j` is `\w`. */
  predicate WordRun(s: string, i: nat, j: nat) {
    i <= j <= |s| && forall k {:trigger IsWordChar(s[k])} :: i <= k < j ==> IsWordChar(s[k])
  }

  /** The position after the maximal run of `\w` characters starting at `i`. */
  function SkipWord(s: string, i: nat): (j: nat)
    requires i <= |s|
    ensures WordRun(s, i, j)
    ensures j == |s| || !IsWordChar(s[j])
    decreases |s| - i
  {
    if i < |s| && IsWordChar(s[i]) then SkipWord(s, i + 1) else i
  }

  /** `\s*` from `i` ends at `p`, where the literal `lit` begins. */
  predicate WsThen(s: string, i: nat, p: nat, lit: string) {
    WsRun(s, i, p) && StartsAt(s, lit, p)
  }

  /** A whitespace run that stops before a non-space character is the run `SkipWs` finds. */
  lemma {:induction false} WsRunForced(s: string, i: nat, p: nat)
    requires WsRun(s, i, p) && (p == |s| || !IsWs(s[p]))
    ensures SkipWs(s, i) == p
    decreases p - i
  {
    if i < p {
      WsRunForced(s, i + 1, p);
    }
  }

  /** Before a literal that does not begin with a space, greedy `\s*` leaves nothing to backtrack into. */
  lemma WsThenForced(s: string, i: nat, p: nat, lit: string)
    requires WsThen(s, i, p, lit) && |lit| > 0 && !IsWs(lit[0])
    ensures SkipWs(s, i) == p
  {
    assert s[p + 0] == lit[0];
    WsRunForced(s, i, p);
  }

  /** A run of word characters that stops before a non-word character is the run `SkipWord` finds. */
  lemma {:induction false} WordRunForced(s: string, i: nat, j: nat)
    requires WordRun(s, i, j) && (j == |s| || !IsWordChar(s[j]))
    ensures SkipWord(s, i) == j
    decreases j - i
  {
    if i < j {
      WordRunForced(s, i + 1, j);
    }
  }

  /** A one-character pattern occurs exactly where that character is. */
  lemma OccursAtChar(s: string, ch: char, k: nat)
    ensures OccursAt(s, [ch], k) <==> k < |s| && s[k] == ch
  {
    if OccursAt(s, [ch], k) {
      assert s[k + 0] == [ch][0];
    }
    if k < |s| && s[k] == ch {
      assert forall m :: 0 <= m < 1 ==> s[k + m] == [ch][m];
    }
  }

  // ---------------------------------------------------------------------------------------
  // /return\s*\(\s*([\s\S]*?)\s*\);/

  /**
   * The part of the return pattern after `(\s*`, from `c`: the lazy capture up to the spaces
   * preceding the first `);`, and the index just after that `);`.
   */
  function ReturnCapture(s: string, c: nat): (r: Option<(string, nat)>)
    requires c <= |s|
    ensures r.Some? ==> c + 2 <= r.value.1 <= |s| && StartsAt(s, ");", r.value.1 - 2)
    ensures r.Some? ==> exists e :: c <= e <= r.value.1 - 2
                          && r.value.0 == s[c..e]
                          && AllWs(s[e..r.value.1 - 2])
                          && (forall k :: c <= k < r.value.1 - 2 ==> !OccursAt(s, ");", k))
    ensures r.Some? ==> !Contains(r.value.0, ");")
    ensures r.Some? ==> r.value.0 == [] || !IsWs(r.value.0[|r.value.0| - 1])
    ensures r.None? <==> forall k :: c <= k ==> !OccursAt(s, ");", k)
  {
    match IndexOf(s, ");", c)
    case None => None
    case Some(q) =>
      var e := SkipWsBack(s, c, q);
      NotContainsInfix(s, c, e, ");");
      Some((s[c..e], q + 2))
  }

  /** `return\s*\(` matches at `i`: `return`, then `(` after the whitespace run that follows it. */
  predicate ReturnHead(s: string, i: nat) {
    StartsAt(s, "return", i) && StartsAt(s, "(", SkipWs(s, i + 6))
  }

  /** Where the capture begins after `return\s*\(`: past the whitespace run that follows `(`. */
  function CaptureStart(s: string, i: nat): (c: nat)
    requires ReturnHead(s, i)
    ensures i + 7 <= c <= |s|
  {
    SkipWs(s, SkipWs(s, i + 6) + 1)
  }

  /**
   * A match of the return pattern starting exactly at `i`: the capture and the index just
   * after the match. The capture starts after the spaces following `(` and ends before the
   * spaces preceding the first `);`.
   */
  function ReturnAt(s: string, i: nat): (r: Option<(string, nat)>)
    ensures r.Some? ==> ReturnHead(s, i)
    ensures ReturnHead(s, i) ==> r == ReturnCapture(s, CaptureStart(s, i))
    ensures r.Some? ==> i + 8 <= r.value.1 <= |s| && !Contains(r.value.0, ");")
  {
    if ReturnHead(s, i) then ReturnCapture(s, CaptureStart(s, i)) else None
  }

  /** From `a`: `\s*`, then `(` at `p`, and some `);` after it. */
  ghost predicate ParenThenClose(s: string, a: nat, p: nat) {
    WsThen(s, a, p, "(") && exists q: nat :: p < q && OccursAt(s, ");", q)
  }

  /** Some `(` after a whitespace run from `a` is followed by a `);`. */
  ghost predicate ParenAfter(s: string, a: nat) {
    exists p: nat :: ParenThenClose(s, a, p)
  }

  /** The text has the shape of a return match at `i`: `return`, `\s*`, `(`, and some later `);`. */
  ghost predicate ReturnShape(s: string, i: nat) {
    StartsAt(s, "return", i) && ParenAfter(s, i + 6)
  }

  /** A `(` after a whitespace run from `a`, followed by a `);`, is the shape `ParenAfter` names. */
  lemma ParenAfterIntro(s: string, a: nat, p: nat, q: nat)
    requires WsThen(s, a, p, "(") && p < q && OccursAt(s, ");", q)
    ensures ParenAfter(s, a)
  {
    assert ParenThenClose(s, a, p);
  }

  /** A match is `return`, a whitespace run, `(`, and some later `);`. */
  lemma ReturnAtSound(s: string, i: nat)
    requires ReturnAt(s, i).Some?
    ensures ReturnShape(s, i)
  {
    var j := SkipWs(s, i + 6);
    var q := ReturnAt(s, i).value.1 - 2;
    assert j < q && OccursAt(s, ");", q);
    ParenAfterIntro(s, i + 6, j, q);
  }

  /** After a `(` at `p`, the lazy capture finds any `);` that follows it. */
  lemma CaptureAfterParen(s: string, p: nat, q: nat)
    requires p < q && OccursAt(s, ");", q)
    ensures ReturnCapture(s, SkipWs(s, p + 1)).Some?
  {
    var c := SkipWs(s, p + 1);
    assert !IsWs(s[q]) by {
      assert s[q + 0] == ");"[0];
    }
    assert c <= q;
  }

  /** The positions of the `(` and of a later `);` that the return shape promises. */
  lemma ReturnShapeWitness(s: string, i: nat) returns (p: nat, q: nat)
    requires ReturnShape(s, i)
    ensures WsThen(s, i + 6, p, "(") && p < q && OccursAt(s, ");", q)
  {
    p :| ParenThenClose(s, i + 6, p);
    q :| p < q && OccursAt(s, ");", q);
  }

  /** Wherever the text has the shape of a return match, the pattern matches. */
  lemma ReturnAtComplete(s: string, i: nat)
    requires ReturnShape(s, i)
    ensures ReturnAt(s, i).Some?
  {
    var p, q := ReturnShapeWitness(s, i);
    WsThenForced(s, i + 6, p, "(");
    assert ReturnHead(s, i);
    assert CaptureStart(s, i) == SkipWs(s, p + 1);
    CaptureAfterParen(s, p, q);
    assert ReturnAt(s, i) == ReturnCapture(s, CaptureStart(s, i));
  }

  /** The return pattern matches at `i` exactly when the text has its shape there. */
  lemma ReturnAtIff(s: string, i: nat)
    ensures ReturnAt(s, i).Some? <==> ReturnShape(s, i)
  {
    if ReturnAt(s, i).Some? {
      ReturnAtSound(s, i);
    }
    if ReturnShape(s, i) {
      ReturnAtComplete(s, i);
    }
  }

  /**
   * The leftmost match of the return pattern at or after `from`: start, capture and end.
   * No match starts in the last five characters, since `return` alone takes six.
   */
  function NextReturn(s: string, from: nat): (r: Option<(nat, string, nat)>)
    ensures r.Some? ==> from <= r.value.0 && ReturnAt(s, r.value.0) == Some((r.value.1, r.value.2))
    ensures r.Some? ==> forall k :: from <= k < r.value.0 ==> ReturnAt(s, k).None?
    ensures r.None? ==> forall k :: from <= k ==> ReturnAt(s, k).None?
    decreases |s| - from
  {
    if from + 6 > |s| then None
    else if ReturnAt(s, from).Some? then Some((from, ReturnAt(s, from).value.0, ReturnAt(s, from).value.1))
    else
      var r := NextReturn(s, from + 1);
      if r.Some? then NoReturnExtend(s, from, r.value.0); r else r
  }

  /** No match at `from` extends a match-free stretch starting one further to the left. */
  lemma NoReturnExtend(s: string, from: nat, upto: nat)
    requires ReturnAt(s, from).None?
    requires forall k :: from + 1 <= k < upto ==> ReturnAt(s, k).None?
    ensures forall k :: from <= k < upto ==> ReturnAt(s, k).None?
  {
  }

  /** `text.match(returnRegex)?.[1]`: the capture of the first match, if any. */
  function FirstReturnBody(s: string): (r: Option<string>)
    ensures r.Some? <==> exists k: nat :: ReturnAt(s, k).Some?
    ensures r.Some? ==> exists k: nat :: ReturnAt(s, k).Some? && r.value == ReturnAt(s, k).value.0
                                        && forall m: nat :: m < k ==> ReturnAt(s, m).None?
  {
    match NextReturn(s, 0)
    case Some((_, cap, _)) => Some(cap)
    case None => None
  }

  /** `match` finds a return statement whenever the text has the shape of one somewhere. */
  lemma FirstReturnBodyFinds(s: string, i: nat)
    requires ReturnShape(s, i)
    ensures FirstReturnBody(s).Some?
  {
    ReturnAtComplete(s, i);
  }

  /** The captures of successive `exec` calls of the global return pattern from `from`. */
  function ReturnBodies(s: string, from: nat): (r: seq<string>)
    ensures forall k :: 0 <= k < |r| ==> !Contains(r[k], ");")
    decreases |s| - from
  {
    match NextReturn(s, from)
    case None => []
    case Some((_, cap, end)) => [cap] + ReturnBodies(s, end)
  }

  // ---------------------------------------------------------------------------------------
  // /onClick=\{([^}]+)\}/g

  /** A match of the onClick pattern at `i`: a non-empty capture up to the first `}`. */
  function OnClickAt(s: string, i: nat): (r: Option<(string, nat)>)
    ensures r.Some? ==> StartsAt(s, "onClick={", i)
    ensures r.Some? ==> i + 10 <= r.value.1 <= |s| && s[r.value.1 - 1] == '}' && r.value.0 == s[i + 9..r.value.1 - 1]
    ensures r.Some? ==> |r.value.0| > 0 && '}' !in r.value.0
  {
    if !StartsAt(s, "onClick={", i) then None
    else match IndexOf(s, "}", i + 9)
      case None => None
      case Some(q) =>
        if q == i + 9 then None
        else
          assert forall k :: i + 9 <= k < q ==> s[k] != '}' by {
            forall k | i + 9 <= k < q ensures s[k] != '}' {
              assert !OccursAt(s, "}", k);
              assert s[k..k + 1] == [s[k]];
            }
          }
          Some((s[i + 9..q], q + 1))
  }

  /** The text has the shape of an onClick match at `i`: `onClick={`, a character other than `}`, and a later `}`. */
  ghost predicate OnClickShape(s: string, i: nat) {
    StartsAt(s, "onClick={", i) && i + 9 < |s| && s[i + 9] != '}' && exists q :: i + 9 < q < |s| && s[q] == '}'
  }

  /** The onClick pattern matches at `i` exactly when the text has its shape there. */
  lemma OnClickAtIff(s: string, i: nat)
    ensures OnClickAt(s, i).Some? <==> OnClickShape(s, i)
  {
    if StartsAt(s, "onClick={", i) {
      OccursAtChar(s, '}', i + 9);
      var n := IndexOf(s, "}", i + 9);
      if n.Some? {
        OccursAtChar(s, '}', n.value);
      } else {
        forall q | i + 9 < q < |s|
          ensures s[q] != '}'
        {
          OccursAtChar(s, '}', q);
        }
      }
    }
  }

  /** The leftmost onClick match at or after `from`. */
  function NextOnClick(s: string, from: nat): (r: Option<(nat, string, nat)>)
    ensures r.Some? ==> from <= r.value.0 && OnClickAt(s, r.value.0) == Some((r.value.1, r.value.2))
    ensures r.Some? ==> forall k :: from <= k < r.value.0 ==> OnClickAt(s, k).None?
    ensures r.None? ==> forall k :: from <= k ==> OnClickAt(s, k).None?
    decreases |s| - from
  {
    if from >= |s| then None
    else match OnClickAt(s, from)
      case Some((cap, end)) => Some((from, cap, end))
      case None => NextOnClick(s, from + 1)
  }

  /** The global `exec` finds an onClick match at or before any position where the text has the shape of one. */
  lemma NextOnClickFinds(s: string, from: nat, i: nat)
    requires from <= i && OnClickShape(s, i)
    ensures NextOnClick(s, from).Some? && NextOnClick(s, from).value.0 <= i
  {
    OnClickAtIff(s, i);
  }

  /** The captures of successive `exec` calls of the global onClick pattern from `from`. */
  function OnClickCaptures(s: string, from: nat): (r: seq<string>)
    ensures forall k :: 0 <= k < |r| ==> |r[k]| > 0 && '}' !in r[k]
    decreases |s| - from
  {
    match NextOnClick(s, from)
    case None => []
    case Some((_, cap, end)) => [cap] + OnClickCaptures(s, end)
  }

  // ---------------------------------------------------------------------------------------
  // new RegExp(`const\\s+${name}\\s*=\\s*\\(.*?\\)\\s*=>\\s*\\{([\\s\\S]*?)\\};`)

  /** After the `)` at `t`: `\s*` up to `=>` at `d`, then `\s*` up to `{` at `e`. */
  predicate ArrowBrace(s: string, t: nat, d: nat, e: nat) {
    t < |s| && WsThen(s, t + 1, d, "=>") && WsThen(s, d + 2, e, "{")
  }

  /** `k` is the first `};` after the `{` at `e`, where the lazy body capture stops. */
  predicate BodyEnds(s: string, e: nat, k: nat) {
    e < k && OccursAt(s, "};", k) && forall m :: e < m < k ==> !OccursAt(s, "};", m)
  }

  /** After the `)` at `t`: `\s*=>\s*\{` and then the lazy body up to the first `};`. */
  function BodyAfterParen(s: string, t: nat): (r: Option<string>)
    requires t < |s|
    ensures r.Some? ==> !Contains(r.value, "};")
  {
    var d := SkipWs(s, t + 1);
    if !StartsAt(s, "=>", d) then None
    else
      var e := SkipWs(s, d + 2);
      if !StartsAt(s, "{", e) then None
      else match IndexOf(s, "};", e + 1)
        case None => None
        case Some(k) =>
          NotContainsInfix(s, e + 1, k, "};");
          Some(s[e + 1..k])
  }

  /** After the `)` at `t`, the arrow and brace are there and `body` runs from the brace up to the first `};`. */
  ghost predicate BodyShape(s: string, t: nat, body: string) {
    exists d: nat, e: nat, k: nat :: ArrowBrace(s, t, d, e) && BodyEnds(s, e, k) && body == s[e + 1..k]
  }

  /** A body is found only after an arrow and a brace, and it runs up to the first `};`. */
  lemma BodyAfterParenSound(s: string, t: nat)
    requires t < |s| && BodyAfterParen(s, t).Some?
    ensures BodyShape(s, t, BodyAfterParen(s, t).value)
  {
    var d := SkipWs(s, t + 1);
    var e := SkipWs(s, d + 2);
    var k := IndexOf(s, "};", e + 1).value;
    assert ArrowBrace(s, t, d, e) && BodyEnds(s, e, k);
  }

  /** Whenever the arrow, the brace and a closing `};` are there, the body is the text up to the first `};`. */
  lemma BodyAfterParenExact(s: string, t: nat, d: nat, e: nat, k: nat)
    requires ArrowBrace(s, t, d, e) && BodyEnds(s, e, k)
    ensures BodyAfterParen(s, t) == Some(s[e + 1..k])
  {
    WsThenForced(s, t + 1, d, "=>");
    WsThenForced(s, d + 2, e, "{");
    var n := IndexOf(s, "};", e + 1);
    assert n == Some(k);
  }

  /** The rest of the pattern after the `)` at `t` captures `body` exactly when the text has that shape. */
  lemma BodyAfterParenIff(s: string, t: nat, body: string)
    requires t < |s|
    ensures BodyAfterParen(s, t) == Some(body) <==> BodyShape(s, t, body)
  {
    if BodyAfterParen(s, t) == Some(body) {
      BodyAfterParenSound(s, t);
    }
    if BodyShape(s, t, body) {
      var d: nat, e: nat, k: nat :| ArrowBrace(s, t, d, e) && BodyEnds(s, e, k) && body == s[e + 1..k];
      BodyAfterParenExact(s, t, d, e, k);
    }
  }

  /** The rest of the pattern after the `)` at `t` fails exactly when the text has no such shape. */
  lemma BodyAfterParenNone(s: string, t: nat)
    requires t < |s|
    ensures BodyAfterParen(s, t).None? <==> forall body :: !BodyShape(s, t, body)
  {
    if BodyAfterParen(s, t).Some? {
      BodyAfterParenSound(s, t);
    }
    forall body | BodyShape(s, t, body)
      ensures BodyAfterParen(s, t).Some?
    {
      BodyAfterParenIff(s, t, body);
    }
  }

  /**
   * `\(.*?\)` can close at the `)` at `t` after the `(` at `c`: no line terminator lies in
   * between, and the rest of the pattern matches after it.
   */
  predicate ParamsClose(s: string, c: nat, t: nat) {
    c < t < |s| && s[t] == ')' && (forall u {:trigger IsLineTerminator(s[u])} :: c < u < t ==> !IsLineTerminator(s[u]))
    && BodyAfterParen(s, t).Some?
  }

  /** The lazy `.*?` takes the first such `)`. */
  predicate FirstParamsClose(s: string, c: nat, t: nat) {
    ParamsClose(s, c, t) && forall u :: c < u < t ==> !ParamsClose(s, c, u)
  }

  /**
   * The lazy `\(.*?\)` after the `(` at `c`, scanning from `p`: the first `)` at which the
   * rest of the pattern matches, with no line terminator crossed on the way.
   */
  function ParamsEnd(s: string, c: nat, p: nat): (r: Option<nat>)
    requires p <= |s|
    ensures r.Some? ==> p <= r.value < |s| && s[r.value] == ')'
    decreases |s| - p
  {
    if p >= |s| then None
    else if s[p] == ')' && BodyAfterParen(s, p).Some? then Some(p)
    else if IsLineTerminator(s[p]) then None
    else ParamsEnd(s, c, p + 1)
  }

  /** Given no line terminator between `c` and `p`, the scan stops at the first `)` where the group can close. */
  lemma ParamsEndSound(s: string, c: nat, p: nat)
    requires c < p <= |s|
    requires forall u {:trigger IsLineTerminator(s[u])} :: c < u < p ==> !IsLineTerminator(s[u])
    ensures ParamsEnd(s, c, p).Some? ==> ParamsClose(s, c, ParamsEnd(s, c, p).value)
    ensures ParamsEnd(s, c, p).Some? ==> forall u :: p <= u < ParamsEnd(s, c, p).value ==> !ParamsClose(s, c, u)
  {
    ParamsEndCloses(s, c, p);
    ParamsEndSkips(s, c, p);
  }

  /** Given no line terminator between `c` and `p`, the group can close where the scan stops. */
  lemma {:induction false} ParamsEndCloses(s: string, c: nat, p: nat)
    requires c < p <= |s|
    requires forall u {:trigger IsLineTerminator(s[u])} :: c < u < p ==> !IsLineTerminator(s[u])
    ensures ParamsEnd(s, c, p).Some? ==> ParamsClose(s, c, ParamsEnd(s, c, p).value)
    decreases |s| - p
  {
    if p < |s| && !(s[p] == ')' && BodyAfterParen(s, p).Some?) && !IsLineTerminator(s[p]) {
      ParamsEndCloses(s, c, p + 1);
    }
  }

  /** The group cannot close anywhere the scan passes over. */
  lemma {:induction false} ParamsEndSkips(s: string, c: nat, p: nat)
    requires p <= |s|
    ensures ParamsEnd(s, c, p).Some? ==> forall u :: p <= u < ParamsEnd(s, c, p).value ==> !ParamsClose(s, c, u)
    decreases |s| - p
  {
    if p < |s| && !(s[p] == ')' && BodyAfterParen(s, p).Some?) && !IsLineTerminator(s[p]) {
      ParamsEndSkips(s, c, p + 1);
    }
  }

  /** Given no line terminator between `c` and `p`, the scan stops at the first `)` from `p` where the group can close. */
  lemma {:induction false} ParamsEndExact(s: string, c: nat, p: nat, t: nat)
    requires c < p <= t && ParamsClose(s, c, t)
    requires forall u {:trigger IsLineTerminator(s[u])} :: c < u < p ==> !IsLineTerminator(s[u])
    requires forall u :: p <= u < t ==> !ParamsClose(s, c, u)
    ensures ParamsEnd(s, c, p) == Some(t)
    decreases t - p
  {
    if p < t {
      assert !IsLineTerminator(s[p]);
      assert !ParamsClose(s, c, p);
      ParamsEndExact(s, c, p + 1, t);
    }
  }

  /** The scan from just after the `(` finds exactly the `)` where the lazy group closes. */
  lemma ParamsEndFirst(s: string, c: nat, t: nat)
    requires FirstParamsClose(s, c, t)
    ensures ParamsEnd(s, c, c + 1) == Some(t)
  {
    ParamsEndExact(s, c, c + 1, t);
  }

  /**
   * `const\s+` up to the name at `a`, `\s*=` with `=` at `b`, and `\s*\(` with `(` at `c`.
   * The name is matched as literal text.
   */
  predicate DefHead(s: string, name: string, i: nat, a: nat, b: nat, c: nat) {
    StartsAt(s, "const", i) && i + 5 < a && WsThen(s, i + 5, a, name)
    && WsThen(s, a + |name|, b, "=") && WsThen(s, b + 1, c, "(")
  }

  /** `\s*=\s*\(` from `q`: the position of the `(`. */
  function EqParenAt(s: string, q: nat): (r: Option<nat>)
    requires q <= |s|
    ensures r.Some? ==> StartsAt(s, "(", r.value)
  {
    var b := SkipWs(s, q);
    if !StartsAt(s, "=", b) then None
    else
      var c := SkipWs(s, b + 1);
      if !StartsAt(s, "(", c) then None else Some(c)
  }

  /** `\s+name` from `p`, then `\s*=\s*\(`: the position of the `(`. */
  function NameEqParenAt(s: string, name: string, p: nat): (r: Option<nat>)
    requires p <= |s|
    ensures r.Some? ==> StartsAt(s, "(", r.value)
  {
    var a := SkipWs(s, p);
    if a == p || !StartsAt(s, name, a) then None else EqParenAt(s, a + |name|)
  }

  /** The position of the `(` that `const\s+name\s*=\s*\(` reaches from `i`, if it matches there. */
  function DefHeadAt(s: string, name: string, i: nat): (r: Option<nat>)
    ensures r.Some? ==> StartsAt(s, "const", i) && StartsAt(s, "(", r.value)
  {
    if !StartsAt(s, "const", i) then None else NameEqParenAt(s, name, i + 5)
  }

  /** `const\s+name\s*=\s*\(` matches at `i`, reaching the `(` at `c`. */
  ghost predicate HeadShape(s: string, name: string, i: nat, c: nat) {
    exists a: nat, b: nat :: DefHead(s, name, i, a, b, c)
  }

  /** The head is found only where the text has its shape. */
  lemma DefHeadAtSound(s: string, name: string, i: nat)
    requires DefHeadAt(s, name, i).Some?
    ensures HeadShape(s, name, i, DefHeadAt(s, name, i).value)
  {
    var a := SkipWs(s, i + 5);
    assert NameEqParenAt(s, name, i + 5) == EqParenAt(s, a + |name|);
    var b := SkipWs(s, a + |name|);
    assert DefHead(s, name, i, a, b, SkipWs(s, b + 1));
  }

  /** `\s*=\s*\(` from `q`, with `=` at `b` and `(` at `c`, is found as such. */
  lemma EqParenForced(s: string, q: nat, b: nat, c: nat)
    requires WsThen(s, q, b, "=") && WsThen(s, b + 1, c, "(")
    ensures EqParenAt(s, q) == Some(c)
  {
    WsThenForced(s, q, b, "=");
    WsThenForced(s, b + 1, c, "(");
  }

  /** When the run from `p` is non-empty and ends at the name, the rest of the head follows the name. */
  lemma NameEqParenStep(s: string, name: string, p: nat, a: nat)
    requires p <= |s| && SkipWs(s, p) == a && a != p && StartsAt(s, name, a)
    ensures NameEqParenAt(s, name, p) == EqParenAt(s, a + |name|)
  {
  }

  /**
   * For a name that is empty or does not begin with whitespace (as a trimmed name), the
   * greedy runs leave no choice: the head reaches the `(` the shape names.
   */
  lemma DefHeadForced(s: string, name: string, i: nat, c: nat)
    requires HeadShape(s, name, i, c)
    requires name == [] || !IsWs(name[0])
    ensures DefHeadAt(s, name, i) == Some(c)
  {
    var a: nat, b: nat :| DefHead(s, name, i, a, b, c);
    if name == [] {
      DefHeadForcedEmpty(s, name, i, a, b, c);
    } else {
      WsThenForced(s, i + 5, a, name);
      NameEqParenStep(s, name, i + 5, a);
      EqParenForced(s, a + |name|, b, c);
    }
  }

  /** With an empty name, `\s+` and `\s*` together take the whole run up to `=`. */
  lemma DefHeadForcedEmpty(s: string, name: string, i: nat, a: nat, b: nat, c: nat)
    requires name == [] && DefHead(s, name, i, a, b, c)
    ensures DefHeadAt(s, name, i) == Some(c)
  {
    assert WsRun(s, i + 5, b);
    WsThenForced(s, i + 5, b, "=");
    NameEqParenStep(s, name, i + 5, b);
    EqParenForced(s, b, b, c);
  }

  /** A match of the handler-definition pattern for handler `name` at `i`: the body capture. */
  function HandlerDefAt(s: string, name: string, i: nat): (r: Option<string>)
    ensures r.Some? ==> StartsAt(s, "const", i) && !Contains(r.value, "};")
  {
    match DefHeadAt(s, name, i)
    case None => None
    case Some(c) => ParamsAndBody(s, c)
  }

  /** From the `(` at `c`: the lazy parameter group, then the body after its closing `)`. */
  function ParamsAndBody(s: string, c: nat): (r: Option<string>)
    requires c < |s|
    ensures r.Some? ==> !Contains(r.value, "};")
  {
    match ParamsEnd(s, c, c + 1)
    case None => None
    case Some(t) => BodyAfterParen(s, t)
  }

  /**
   * The text has the shape of a definition of `name` at `i` with body `body`: the head up to
   * `(`, the lazy parameter group closing at its first possible `)`, the arrow and brace,
   * and the body up to the first `};`.
   */
  ghost predicate HandlerDefMatch(s: string, name: string, i: nat, body: string) {
    exists c: nat, t: nat :: HeadShape(s, name, i, c) && FirstParamsClose(s, c, t) && BodyShape(s, t, body)
  }

  /** What the model captures after the `(` has the shape of the parameter group and body. */
  lemma ParamsAndBodySound(s: string, c: nat)
    requires c < |s| && ParamsAndBody(s, c).Some?
    ensures exists t: nat :: FirstParamsClose(s, c, t) && BodyShape(s, t, ParamsAndBody(s, c).value)
  {
    var t := ParamsEnd(s, c, c + 1).value;
    ParamsEndSound(s, c, c + 1);
    assert FirstParamsClose(s, c, t);
    BodyAfterParenSound(s, t);
  }

  /** Every match of the model has the shape of the pattern. */
  lemma HandlerDefAtSound(s: string, name: string, i: nat)
    requires HandlerDefAt(s, name, i).Some?
    ensures HandlerDefMatch(s, name, i, HandlerDefAt(s, name, i).value)
  {
    var c := DefHeadAt(s, name, i).value;
    DefHeadAtSound(s, name, i);
    assert HandlerDefAt(s, name, i) == ParamsAndBody(s, c);
    ParamsAndBodySound(s, c);
  }

  /** For a name that is empty or does not begin with whitespace, every shape is found, with its body. */
  lemma HandlerDefAtComplete(s: string, name: string, i: nat, body: string)
    requires name == [] || !IsWs(name[0])
    requires HandlerDefMatch(s, name, i, body)
    ensures HandlerDefAt(s, name, i) == Some(body)
  {
    var c: nat, t: nat :| HeadShape(s, name, i, c) && FirstParamsClose(s, c, t) && BodyShape(s, t, body);
    DefHeadForced(s, name, i, c);
    ParamsEndFirst(s, c, t);
    BodyAfterParenIff(s, t, body);
  }

  /** `content.match(funcDefRegex)?.[1]`: the body of the leftmost definition of `name` at or after `from`. */
  function FindHandlerDef(s: string, name: string, from: nat): (r: Option<string>)
    ensures r.Some? ==> exists k :: from <= k && HandlerDefAt(s, name, k) == r
                                   && forall m :: from <= m < k ==> HandlerDefAt(s, name, m).None?
    ensures r.None? ==> forall k :: from <= k ==> HandlerDefAt(s, name, k).None?
    decreases |s| - from
  {
    if from >= |s| then None
    else if HandlerDefAt(s, name, from).Some? then HandlerDefAt(s, name, from)
    else FindHandlerDef(s, name, from + 1)
  }

  /**
   * For a name that is empty or does not begin with whitespace, the search returns the body
   * of the leftmost position with the shape of a definition, and none when there is none.
   */
  lemma FindHandlerDefMeaning(s: string, name: string, from: nat)
    requires name == [] || !IsWs(name[0])
    ensures FindHandlerDef(s, name, from).Some? ==>
              exists k: nat :: from <= k && HandlerDefMatch(s, name, k, FindHandlerDef(s, name, from).value)
                          && forall m: nat, body :: from <= m < k ==> !HandlerDefMatch(s, name, m, body)
    ensures FindHandlerDef(s, name, from).None? ==>
              forall k: nat, body :: from <= k ==> !HandlerDefMatch(s, name, k, body)
  {
    forall m: nat, body | from <= m && HandlerDefMatch(s, name, m, body)
      ensures HandlerDefAt(s, name, m) == Some(body)
    {
      HandlerDefAtComplete(s, name, m, body);
    }
    if FindHandlerDef(s, name, from).Some? {
      var k :| from <= k && HandlerDefAt(s, name, k) == FindHandlerDef(s, name, from)
               && forall m :: from <= m < k ==> HandlerDefAt(s, name, m).None?;
      HandlerDefAtSound(s, name, k);
    }
  }

  // ---------------------------------------------------------------------------------------
  // /const\s+\[\s*(\w+)\s*,\s*(\w+)\s*\]\s*=\s*useState/g

  /** An element of a sequential pattern: a literal, `\s*`, `\s+`, or a captured `(\w+)`. */
  datatype Elem = Lit(text: string) | AnyWs | SomeWs | Word

  /** A pattern made of elements matched one after the other. */
  datatype Pattern = Done | Then(elem: Elem, rest: Pattern)

  /** `const\s+\[\s*(\w+)\s*,\s*(\w+)\s*\]\s*=\s*useState`, element by element. */
  const UseStatePattern: Pattern :=
    Then(Lit("const"), Then(SomeWs, Then(Lit("["), Then(AnyWs,
    Then(Word, Then(AnyWs, Then(Lit(","), Then(AnyWs,
    Then(Word, Then(AnyWs, Then(Lit("]"), Then(AnyWs, Then(Lit("="), Then(AnyWs, Then(Lit("useState"), Done)))))))))))))))

  /** The number of captured words in `pat`. */
  function WordCount(pat: Pattern): nat {
    match pat
    case Done => 0
    case Then(x, rest) => (if x.Word? then 1 else 0) + WordCount(rest)
  }

  /**
   * The regex engine on `pat` at `p`, with every run greedy and no backtracking: the spans of
   * the captured words and the end of the match.
   */
  function MatchElems(s: string, pat: Pattern, p: nat): (r: Option<(seq<(nat, nat)>, nat)>)
    requires p <= |s|
    ensures r.Some? ==> p <= r.value.1 <= |s| && |r.value.0| == WordCount(pat)
    ensures r.Some? ==> forall k :: 0 <= k < |r.value.0| ==> p <= r.value.0[k].0 < r.value.0[k].1 <= r.value.1
  {
    match pat
    case Done => Some(([], p))
    case Then(Lit(t), rest) => if StartsAt(s, t, p) then MatchElems(s, rest, p + |t|) else None
    case Then(AnyWs, rest) => MatchElems(s, rest, SkipWs(s, p))
    case Then(SomeWs, rest) => var q := SkipWs(s, p); if q == p then None else MatchElems(s, rest, q)
    case Then(Word, rest) =>
      var q := SkipWord(s, p);
      if q == p then None
      else match MatchElems(s, rest, q)
        case None => None
        case Some((spans, end)) => Some(([(p, q)] + spans, end))
  }

  /**
   * The regex semantics of `pat`: some choice of run lengths matches from `p` to `end`, with the
   * captured words at `spans`.
   */
  ghost predicate ElemsMatch(s: string, pat: Pattern, p: nat, spans: seq<(nat, nat)>, end: nat) {
    match pat
    case Done => spans == [] && end == p
    case Then(Lit(t), rest) => StartsAt(s, t, p) && ElemsMatch(s, rest, p + |t|, spans, end)
    case Then(AnyWs, rest) => exists q: nat :: WsRun(s, p, q) && ElemsMatch(s, rest, q, spans, end)
    case Then(SomeWs, rest) => exists q: nat :: p < q && WsRun(s, p, q) && ElemsMatch(s, rest, q, spans, end)
    case Then(Word, rest) =>
      |spans| > 0 && spans[0].0 == p && p < spans[0].1 && WordRun(s, p, spans[0].1)
      && ElemsMatch(s, rest, spans[0].1, spans[1..], end)
  }

  /** `pat` begins with a word or with a non-empty literal that does not begin with `\s`. */
  predicate StartsNotWs(pat: Pattern) {
    pat.Then? && (pat.elem.Word? || (pat.elem.Lit? && |pat.elem.text| > 0 && !IsWs(pat.elem.text[0])))
  }

  /** `pat` begins with a non-empty literal that does not begin with `\w`. */
  predicate StartsWithNonWordLit(pat: Pattern) {
    pat.Then? && pat.elem.Lit? && |pat.elem.text| > 0 && !IsWordChar(pat.elem.text[0])
  }

  /** `pat` can follow a word: it begins with `\s+`, or with a literal that does not begin with `\w`, possibly after `\s*`. */
  predicate StopsWord(pat: Pattern) {
    StartsWithNonWordLit(pat)
    || (pat.Then? && pat.elem.SomeWs?)
    || (pat.Then? && pat.elem.AnyWs? && StartsWithNonWordLit(pat.rest))
  }

  /**
   * No run in `pat` can ever give characters back: a whitespace run is followed by a word or by
   * a literal that does not begin with `\s`, and a word by what `StopsWord` allows.
   */
  predicate Separated(pat: Pattern) {
    match pat
    case Done => true
    case Then(x, rest) =>
      (if x.AnyWs? || x.SomeWs? then StartsNotWs(rest) else if x.Word? then StopsWord(rest) else true)
      && Separated(rest)
  }

  /** In the state-declaration pattern no run ever gives characters back, and two words are captured. */
  lemma UseStatePatternSeparated()
    ensures Separated(UseStatePattern) && WordCount(UseStatePattern) == 2
  {
    UseStatePatternRuns();
    UseStatePatternWords();
  }

  /** In the state-declaration pattern no run ever gives characters back. */
  lemma UseStatePatternRuns()
    ensures Separated(UseStatePattern)
  {
    assert Separated(UseStatePattern.rest.rest.rest.rest.rest.rest.rest.rest.rest.rest.rest.rest.rest.rest.rest);
    assert Separated(UseStatePattern.rest.rest.rest.rest.rest.rest.rest.rest.rest.rest.rest.rest.rest.rest);
    assert Separated(UseStatePattern.rest.rest.rest.rest.rest.rest.rest.rest.rest.rest.rest.rest.rest);
    assert Separated(UseStatePattern.rest.rest.rest.rest.rest.rest.rest.rest.rest.rest.rest.rest);
    assert Separated(UseStatePattern.rest.rest.rest.rest.rest.rest.rest.rest.rest.rest.rest);
    assert Separated(UseStatePattern.rest.rest.rest.rest.rest.rest.rest.rest.rest.rest);
    assert Separated(UseStatePattern.rest.rest.rest.rest.rest.rest.rest.rest.rest);
    assert Separated(UseStatePattern.rest.rest.rest.rest.rest.rest.rest.rest);
    assert Separated(UseStatePattern.rest.rest.rest.rest.rest.rest.rest);
    assert Separated(UseStatePattern.rest.rest.rest.rest.rest.rest);
    assert Separated(UseStatePattern.rest.rest.rest.rest.rest);
    assert Separated(UseStatePattern.rest.rest.rest.rest);
    assert Separated(UseStatePattern.rest.rest.rest);
    assert Separated(UseStatePattern.rest.rest);
    assert Separated(UseStatePattern.rest);
    assert Separated(UseStatePattern);
  }

  /** The state-declaration pattern captures two words. */
  lemma UseStatePatternWords()
    ensures WordCount(UseStatePattern) == 2
  {
    assert WordCount(UseStatePattern.rest.rest.rest.rest.rest.rest.rest.rest.rest.rest.rest.rest.rest.rest.rest) == 0;
    assert WordCount(UseStatePattern.rest.rest.rest.rest.rest.rest.rest.rest.rest.rest.rest.rest.rest.rest) == 0;
    assert WordCount(UseStatePattern.rest.rest.rest.rest.rest.rest.rest.rest.rest.rest.rest.rest.rest) == 0;
    assert WordCount(UseStatePattern.rest.rest.rest.rest.rest.rest.rest.rest.rest.rest.rest.rest) == 0;
    assert WordCount(UseStatePattern.rest.rest.rest.rest.rest.rest.rest.rest.rest.rest.rest) == 0;
    assert WordCount(UseStatePattern.rest.rest.rest.rest.rest.rest.rest.rest.rest.rest) == 0;
    assert WordCount(UseStatePattern.rest.rest.rest.rest.rest.rest.rest.rest.rest) == 0;
    assert WordCount(UseStatePattern.rest.rest.rest.rest.rest.rest.rest.rest) == 1;
    assert WordCount(UseStatePattern.rest.rest.rest.rest.rest.rest.rest) == 1;
    assert WordCount(UseStatePattern.rest.rest.rest.rest.rest.rest) == 1;
    assert WordCount(UseStatePattern.rest.rest.rest.rest.rest) == 1;
    assert WordCount(UseStatePattern.rest.rest.rest.rest) == 2;
    assert WordCount(UseStatePattern.rest.rest.rest) == 2;
    assert WordCount(UseStatePattern.rest.rest) == 2;
    assert WordCount(UseStatePattern.rest) == 2;
    assert WordCount(UseStatePattern) == 2;
  }

  /** A match of a pattern that begins with a word or such a literal starts with a non-space. */
  lemma WsStop(s: string, pat: Pattern, q: nat, spans: seq<(nat, nat)>, end: nat)
    requires StartsNotWs(pat) && ElemsMatch(s, pat, q, spans, end)
    ensures q < |s| && !IsWs(s[q])
  {
    if pat.elem.Word? {
      assert IsWordChar(s[q]);
    } else {
      assert s[q + 0] == pat.elem.text[0];
    }
  }

  /** A match of a pattern that can follow a word starts with a non-word character. */
  lemma WordStop(s: string, pat: Pattern, x: nat, spans: seq<(nat, nat)>, end: nat)
    requires StopsWord(pat) && ElemsMatch(s, pat, x, spans, end)
    ensures x < |s| && !IsWordChar(s[x])
  {
    if pat.elem.Lit? {
      assert s[x + 0] == pat.elem.text[0];
    } else if pat.elem.SomeWs? {
      var q: nat :| x < q && WsRun(s, x, q) && ElemsMatch(s, pat.rest, q, spans, end);
      assert IsWs(s[x]);
    } else {
      var q: nat :| WsRun(s, x, q) && ElemsMatch(s, pat.rest, q, spans, end);
      if q == x {
        assert s[x + 0] == pat.rest.elem.text[0];
      } else {
        assert IsWs(s[x]);
      }
    }
  }

  /** What the engine finds is a match in the regex semantics, with the same captures and end. */
  lemma {:induction false} MatchElemsSound(s: string, pat: Pattern, p: nat)
    requires p <= |s| && MatchElems(s, pat, p).Some?
    ensures ElemsMatch(s, pat, p, MatchElems(s, pat, p).value.0, MatchElems(s, pat, p).value.1)
  {
    match pat
    case Done =>
    case Then(Lit(t), rest) =>
      MatchElemsSound(s, rest, p + |t|);
    case Then(AnyWs, rest) =>
      MatchElemsSound(s, rest, SkipWs(s, p));
    case Then(SomeWs, rest) =>
      MatchElemsSound(s, rest, SkipWs(s, p));
    case Then(Word, rest) =>
      var q := SkipWord(s, p);
      MatchElemsSound(s, rest, q);
      var r := MatchElems(s, rest, q).value;
      assert MatchElems(s, pat, p) == Some(([(p, q)] + r.0, r.1));
      assert ([(p, q)] + r.0)[1..] == r.0;
  }

  /** When no run can give characters back, every match in the regex semantics is the one the engine finds. */
  lemma {:induction false} MatchElemsComplete(s: string, pat: Pattern, p: nat, spans: seq<(nat, nat)>, end: nat)
    requires p <= |s| && Separated(pat) && ElemsMatch(s, pat, p, spans, end)
    ensures MatchElems(s, pat, p) == Some((spans, end))
  {
    match pat
    case Done =>
    case Then(Lit(t), rest) =>
      MatchElemsComplete(s, rest, p + |t|, spans, end);
    case Then(AnyWs, rest) =>
      var q: nat :| WsRun(s, p, q) && ElemsMatch(s, rest, q, spans, end);
      WsStop(s, rest, q, spans, end);
      WsRunForced(s, p, q);
      MatchElemsComplete(s, rest, q, spans, end);
    case Then(SomeWs, rest) =>
      var q: nat :| p < q && WsRun(s, p, q) && ElemsMatch(s, rest, q, spans, end);
      WsStop(s, rest, q, spans, end);
      WsRunForced(s, p, q);
      MatchElemsComplete(s, rest, q, spans, end);
    case Then(Word, rest) =>
      var x := spans[0].1;
      WordStop(s, rest, x, spans[1..], end);
      WordRunForced(s, p, x);
      MatchElemsComplete(s, rest, x, spans[1..], end);
      assert [(p, x)] + spans[1..] == spans;
  }

  /**
   * `const\s+\[\s*(\w+)\s*,\s*(\w+)\s*\]\s*=\s*useState` matches at `i`, capturing the value
   * name `v` and the setter name `w` as the text of their spans, and ends at `end`.
   */
  ghost predicate UseStateMatch(s: string, i: nat, v: string, w: string, end: nat) {
    exists spans: seq<(nat, nat)> ::
      ElemsMatch(s, UseStatePattern, i, spans, end) && |spans| == 2
      && spans[0].0 <= spans[0].1 <= |s| && spans[1].0 <= spans[1].1 <= |s|
      && v == s[spans[0].0..spans[0].1] && w == s[spans[1].0..spans[1].1]
  }

  /** A match of the state-declaration pattern at `i`: (value name, setter name) and the end. */
  function UseStateAt(s: string, i: nat): (r: Option<((string, string), nat)>)
    ensures r.Some? ==> i < r.value.1 <= |s| && |r.value.0.0| > 0 && |r.value.0.1| > 0
  {
    if i > |s| then None
    else match MatchElems(s, UseStatePattern, i)
      case None => None
      case Some((spans, end)) =>
        UseStatePatternSeparated();
        Some(((s[spans[0].0..spans[0].1], s[spans[1].0..spans[1].1]), end))
  }

  /** The pattern matches at `i` with these captures and this end exactly when the text has that shape. */
  lemma UseStateAtIff(s: string, i: nat, v: string, w: string, end: nat)
    ensures UseStateAt(s, i) == Some(((v, w), end)) <==> UseStateMatch(s, i, v, w, end)
  {
    if UseStateAt(s, i) == Some(((v, w), end)) {
      UseStateAtSound(s, i);
    }
    if UseStateMatch(s, i, v, w, end) {
      UseStateAtComplete(s, i, v, w, end);
    }
  }

  /** A declaration the model finds has the shape of the pattern, with the same captures and end. */
  lemma UseStateAtSound(s: string, i: nat)
    requires UseStateAt(s, i).Some?
    ensures UseStateMatch(s, i, UseStateAt(s, i).value.0.0, UseStateAt(s, i).value.0.1, UseStateAt(s, i).value.1)
  {
    MatchElemsSound(s, UseStatePattern, i);
    var m := MatchElems(s, UseStatePattern, i).value;
    UseStatePatternSeparated();
    assert UseStateAt(s, i) == Some(((s[m.0[0].0..m.0[0].1], s[m.0[1].0..m.0[1].1]), m.1));
  }

  /** Every declaration shape is found, with its captures and end. */
  lemma UseStateAtComplete(s: string, i: nat, v: string, w: string, end: nat)
    requires UseStateMatch(s, i, v, w, end)
    ensures UseStateAt(s, i) == Some(((v, w), end))
  {
    var spans: seq<(nat, nat)> :| ElemsMatch(s, UseStatePattern, i, spans, end) && |spans| == 2
      && spans[0].0 <= spans[0].1 <= |s| && spans[1].0 <= spans[1].1 <= |s|
      && v == s[spans[0].0..spans[0].1] && w == s[spans[1].0..spans[1].1];
    assert StartsAt(s, "const", i);
    UseStatePatternSeparated();
    MatchElemsComplete(s, UseStatePattern, i, spans, end);
  }

  /** The state-declaration pattern matches at `k`. */
  predicate UseStateMatchesAt(s: string, k: nat) {
    k <= |s| && MatchElems(s, UseStatePattern, k).Some?
  }

  /** The leftmost position at or after `from` where the state-declaration pattern matches. */
  function NextUseState(s: string, from: nat): (r: Option<nat>)
    ensures r.Some? ==> from <= r.value && UseStateMatchesAt(s, r.value)
    ensures r.Some? ==> forall k :: from <= k < r.value ==> !UseStateMatchesAt(s, k)
    ensures r.None? ==> forall k :: from <= k ==> !UseStateMatchesAt(s, k)
    decreases |s| - from
  {
    if from >= |s| then NoUseStateAtEnd(s, from); None
    else if UseStateMatchesAt(s, from) then Some(from)
    else
      var r := NextUseState(s, from + 1);
      if r.Some? then NoUseStateExtend(s, from, r.value); r else NoUseStateFrom(s, from); r
  }

  /** The pattern begins with a non-empty literal, so it cannot match at the end of the text. */
  lemma NoUseStateAtEnd(s: string, from: nat)
    requires from >= |s|
    ensures forall k :: from <= k ==> !UseStateMatchesAt(s, k)
  {
    forall k | from <= k
      ensures !UseStateMatchesAt(s, k)
    {
      if k <= |s| {
        assert !StartsAt(s, "const", k);
      }
    }
  }

  /** No match at `from` extends a match-free stretch starting one further to the left. */
  lemma NoUseStateExtend(s: string, from: nat, upto: nat)
    requires !UseStateMatchesAt(s, from)
    requires forall k :: from + 1 <= k < upto ==> !UseStateMatchesAt(s, k)
    ensures forall k :: from <= k < upto ==> !UseStateMatchesAt(s, k)
  {
  }

  /** No match at `from` extends a match-free suffix starting one further to the left. */
  lemma NoUseStateFrom(s: string, from: nat)
    requires !UseStateMatchesAt(s, from)
    requires forall k :: from + 1 <= k ==> !UseStateMatchesAt(s, k)
    ensures forall k :: from <= k ==> !UseStateMatchesAt(s, k)
  {
  }

  /**
   * The search returns the leftmost position at or after `from` where the text has the shape
   * of a state declaration, and none when there is none.
   */
  lemma NextUseStateMeaning(s: string, from: nat)
    ensures NextUseState(s, from).Some? ==>
              var k := NextUseState(s, from).value;
              UseStateMatch(s, k, UseStateAt(s, k).value.0.0, UseStateAt(s, k).value.0.1, UseStateAt(s, k).value.1)
              && forall m: nat, v: string, w: string, e: nat :: from <= m < k ==> !UseStateMatch(s, m, v, w, e)
    ensures NextUseState(s, from).None? ==>
              forall k: nat, v: string, w: string, e: nat :: from <= k ==> !UseStateMatch(s, k, v, w, e)
  {
    forall k: nat, v: string, w: string, e: nat | from <= k && UseStateMatch(s, k, v, w, e)
      ensures UseStateMatchesAt(s, k)
    {
      UseStateAtIff(s, k, v, w, e);
    }
    if NextUseState(s, from).Some? {
      var k := NextUseState(s, from).value;
      var r := UseStateAt(s, k).value;
      UseStateAtIff(s, k, r.0.0, r.0.1, r.1);
    }
  }

  /** The (value, setter) captures of successive `exec` calls from `from`. */
  function UseStateDecls(s: string, from: nat): seq<(string, string)>
    decreases |s| - from
  {
    match NextUseState(s, from)
    case None => []
    case Some(k) =>
      var r := UseStateAt(s, k).value;
      [r.0] + UseStateDecls(s, r.1)
  }
}
