/**
 * The zod schemas of node_server/src/types/PropertyDefinition.ts: the literal, the text and
 * label assertion shapes and their union, and the request body of the component-testing
 * endpoint. A parse yields the typed value or nothing; zod's issue lists are not modelled.
 * `z.object` ignores (strips) keys it does not declare.
 */
module PropertySchemas {
  import opened Wrappers
  import opened Json
  import opened Logic
  import opened Assertions

  /** The parsed request body. */
  datatype NodeApiRequest = NodeApiRequest(filepath: string, useStatefulTesting: bool, textAssertions: seq<PbtAssertion>)

  /** `z.string()` at `key` of object `fields`. */
  function StringField(fields: map<string, Json>, key: string): (r: Option<string>)
    ensures r.Some? <==> key in fields && fields[key].JStr?
    ensures r.Some? ==> fields[key] == JStr(r.value)
  {
    if key in fields && fields[key].JStr? then Some(fields[key].s) else None
  }

  /** `z.boolean()` at `key` of object `fields`. */
  function BoolField(fields: map<string, Json>, key: string): (r: Option<bool>)
    ensures r.Some? <==> key in fields && fields[key].JBool?
    ensures r.Some? ==> fields[key] == JBool(r.value)
  {
    if key in fields && fields[key].JBool? then Some(fields[key].b) else None
  }

  /** `LiteralSchema`: an object with a string `name` and a boolean `assignment`. */
  function ParseLiteral(j: Json): (r: Option<Literal>)
    ensures r.Some? <==> j.JObj? && StringField(j.fields, "name").Some? && BoolField(j.fields, "assignment").Some?
    ensures r.Some? ==> j.fields["name"] == JStr(r.value.name) && j.fields["assignment"] == JBool(r.value.assignment)
  {
    if !j.JObj? then None
    else match (StringField(j.fields, "name"), BoolField(j.fields, "assignment"))
      case (Some(n), Some(a)) => Some(Literal(n, a))
      case _ => None
  }

  /** `z.array(LiteralSchema)` over the items of an array: every item must parse. */
  function ParseClauseItems(items: seq<Json>): (r: Option<Clause>)
    ensures r.Some? <==> forall k :: 0 <= k < |items| ==> ParseLiteral(items[k]).Some?
    ensures r.Some? ==> |r.value| == |items| && forall k :: 0 <= k < |items| ==> ParseLiteral(items[k]) == Some(r.value[k])
  {
    if |items| == 0 then Some([])
    else
      assert forall k :: 1 <= k < |items| ==> items[1..][k - 1] == items[k];
      match (ParseLiteral(items[0]), ParseClauseItems(items[1..]))
      case (Some(l), Some(c)) => Some([l] + c)
      case _ => None
  }

  function ParseClause(j: Json): Option<Clause> {
    if j.JArr? then ParseClauseItems(j.items) else None
  }

  /** `z.array(z.array(LiteralSchema))` over the items of an array. */
  function ParseCnfItems(items: seq<Json>): (r: Option<Cnf>)
    ensures r.Some? <==> forall k :: 0 <= k < |items| ==> ParseClause(items[k]).Some?
    ensures r.Some? ==> |r.value| == |items| && forall k :: 0 <= k < |items| ==> ParseClause(items[k]) == Some(r.value[k])
  {
    if |items| == 0 then Some([])
    else
      assert forall k :: 1 <= k < |items| ==> items[1..][k - 1] == items[k];
      match (ParseClause(items[0]), ParseCnfItems(items[1..]))
      case (Some(c), Some(f)) => Some([c] + f)
      case _ => None
  }

  function ParseCnf(j: Json): Option<Cnf> {
    if j.JArr? then ParseCnfItems(j.items) else None
  }

  /**
   * What both assertion schemas demand, with `key` the one field that tells them apart: an
   * object with a string `name`, a string at `key`, and CNFs at `lhs` and `rhs`.
   */
  predicate AssertionShape(j: Json, key: string) {
    && j.JObj? && StringField(j.fields, "name").Some? && StringField(j.fields, key).Some?
    && "lhs" in j.fields && ParseCnf(j.fields["lhs"]).Some?
    && "rhs" in j.fields && ParseCnf(j.fields["rhs"]).Some?
  }

  /** The fields every parsed assertion takes from the object: `name`, `lhs` and `rhs`. */
  predicate SharedFieldsRead(j: Json, a: PbtAssertion) {
    && j.JObj? && "name" in j.fields && j.fields["name"] == JStr(a.name)
    && "lhs" in j.fields && ParseCnf(j.fields["lhs"]) == Some(a.lhs)
    && "rhs" in j.fields && ParseCnf(j.fields["rhs"]) == Some(a.rhs)
  }

  /** `TextPBTAssertionSchema` */
  function ParseTextAssertion(j: Json): (r: Option<PbtAssertion>)
    ensures r.Some? <==> AssertionShape(j, "textToFind")
    ensures r.Some? ==> r.value.TextAssertion? && SharedFieldsRead(j, r.value)
                        && j.fields["textToFind"] == JStr(r.value.textToFind)
  {
    if !j.JObj? then None
    else
      var f := j.fields;
      match (StringField(f, "name"), StringField(f, "textToFind"), FieldCnf(f, "lhs"), FieldCnf(f, "rhs"))
      case (Some(n), Some(t), Some(l), Some(r)) => Some(TextAssertion(n, t, l, r))
      case _ => None
  }

  /** `LabelPBTAssertionSchema` */
  function ParseLabelAssertion(j: Json): (r: Option<PbtAssertion>)
    ensures r.Some? <==> AssertionShape(j, "labelToFind")
    ensures r.Some? ==> r.value.LabelAssertion? && SharedFieldsRead(j, r.value)
                        && j.fields["labelToFind"] == JStr(r.value.labelToFind)
  {
    if !j.JObj? then None
    else
      var f := j.fields;
      match (StringField(f, "name"), StringField(f, "labelToFind"), FieldCnf(f, "lhs"), FieldCnf(f, "rhs"))
      case (Some(n), Some(t), Some(l), Some(r)) => Some(LabelAssertion(n, t, l, r))
      case _ => None
  }

  /** `z.array(z.array(LiteralSchema))` at `key` of object `f`. */
  function FieldCnf(f: map<string, Json>, key: string): (r: Option<Cnf>)
    ensures r.Some? ==> key in f && ParseCnf(f[key]) == r
    ensures key in f ==> r == ParseCnf(f[key])
  {
    if key in f then ParseCnf(f[key]) else None
  }

  /** `PBTAssertionSchema`: the text shape is tried first, then the label shape. */
  function ParseAssertion(j: Json): (r: Option<PbtAssertion>)
    ensures r.Some? <==> AssertionShape(j, "textToFind") || AssertionShape(j, "labelToFind")
    ensures r.Some? ==> SharedFieldsRead(j, r.value)
    ensures r.Some? ==> (r.value.TextAssertion? <==> AssertionShape(j, "textToFind"))
    ensures r.Some? && r.value.TextAssertion? ==> j.fields["textToFind"] == JStr(r.value.textToFind)
    ensures r.Some? && r.value.LabelAssertion? ==> j.fields["labelToFind"] == JStr(r.value.labelToFind)
  {
    match ParseTextAssertion(j)
    case Some(a) => Some(a)
    case None => ParseLabelAssertion(j)
  }

  function ParseAssertionItems(items: seq<Json>): (r: Option<seq<PbtAssertion>>)
    ensures r.Some? <==> forall k :: 0 <= k < |items| ==> ParseAssertion(items[k]).Some?
    ensures r.Some? ==> |r.value| == |items| && forall k :: 0 <= k < |items| ==> ParseAssertion(items[k]) == Some(r.value[k])
  {
    if |items| == 0 then Some([])
    else
      assert forall k :: 1 <= k < |items| ==> items[1..][k - 1] == items[k];
      match (ParseAssertion(items[0]), ParseAssertionItems(items[1..]))
      case (Some(a), Some(rest)) => Some([a] + rest)
      case _ => None
  }

  /** `z.boolean().optional().default(true)`: an absent key reads as true; a present one must be a boolean. */
  function OptionalBoolDefaultTrue(f: map<string, Json>, key: string): (r: Option<bool>)
    ensures key !in f ==> r == Some(true)
    ensures key in f ==> r == BoolField(f, key)
  {
    if key !in f then Some(true) else BoolField(f, key)
  }

  /** `NodeAPIRequestSchema` */
  function ParseNodeApiRequest(j: Json): (r: Option<NodeApiRequest>)
    ensures r.Some? <==>
      && j.JObj? && StringField(j.fields, "filepath").Some?
      && OptionalBoolDefaultTrue(j.fields, "useStatefulTesting").Some?
      && "textAssertions" in j.fields && j.fields["textAssertions"].JArr?
      && ParseAssertionItems(j.fields["textAssertions"].items).Some?
    ensures r.Some? ==> j.fields["filepath"] == JStr(r.value.filepath)
    ensures r.Some? && "useStatefulTesting" !in j.fields ==> r.value.useStatefulTesting
    ensures r.Some? && "useStatefulTesting" in j.fields ==> j.fields["useStatefulTesting"] == JBool(r.value.useStatefulTesting)
    ensures r.Some? ==> |r.value.textAssertions| == |j.fields["textAssertions"].items|
    ensures r.Some? ==> forall k :: 0 <= k < |r.value.textAssertions| ==>
              ParseAssertion(j.fields["textAssertions"].items[k]) == Some(r.value.textAssertions[k])
  {
    if !j.JObj? then None
    else
      var f := j.fields;
      match (StringField(f, "filepath"), OptionalBoolDefaultTrue(f, "useStatefulTesting"), "textAssertions" in f)
      case (Some(p), Some(u), true) =>
        if f["textAssertions"].JArr? then
          match ParseAssertionItems(f["textAssertions"].items)
          case Some(ts) => Some(NodeApiRequest(p, u, ts))
          case None => None
        else None
      case _ => None
  }

  // ---------------------------------------------------------------------------------------
  // Encoders: the JSON a client sends for a value; every parser above reads it back.

  function EncodeLiteral(l: Literal): Json {
    JObj(map["name" := JStr(l.name), "assignment" := JBool(l.assignment)])
  }

  function EncodeClause(c: Clause): (r: Json)
    ensures r.JArr? && |r.items| == |c| && forall k :: 0 <= k < |c| ==> r.items[k] == EncodeLiteral(c[k])
  {
    JArr(seq(|c|, k requires 0 <= k < |c| => EncodeLiteral(c[k])))
  }

  function EncodeCnf(f: Cnf): (r: Json)
    ensures r.JArr? && |r.items| == |f| && forall k :: 0 <= k < |f| ==> r.items[k] == EncodeClause(f[k])
  {
    JArr(seq(|f|, k requires 0 <= k < |f| => EncodeClause(f[k])))
  }

  function EncodeAssertion(a: PbtAssertion): Json {
    match a
    case TextAssertion(n, t, l, r) =>
      JObj(map["name" := JStr(n), "textToFind" := JStr(t), "lhs" := EncodeCnf(l), "rhs" := EncodeCnf(r)])
    case LabelAssertion(n, t, l, r) =>
      JObj(map["name" := JStr(n), "labelToFind" := JStr(t), "lhs" := EncodeCnf(l), "rhs" := EncodeCnf(r)])
  }

  function EncodeNodeApiRequest(q: NodeApiRequest): Json {
    JObj(map[
      "filepath" := JStr(q.filepath),
      "useStatefulTesting" := JBool(q.useStatefulTesting),
      "textAssertions" := JArr(seq(|q.textAssertions|, k requires 0 <= k < |q.textAssertions| => EncodeAssertion(q.textAssertions[k])))])
  }

  lemma LiteralRoundTrip(l: Literal)
    ensures ParseLiteral(EncodeLiteral(l)) == Some(l)
  {
  }

  lemma {:induction false} ClauseItemsRoundTrip(c: Clause)
    ensures ParseClause(EncodeClause(c)) == Some(c)
  {
    var items := EncodeClause(c).items;
    forall k | 0 <= k < |items|
      ensures ParseLiteral(items[k]) == Some(c[k])
    {
      LiteralRoundTrip(c[k]);
    }
    var r := ParseClauseItems(items);
    assert r.value == c;
  }

  lemma CnfRoundTrip(f: Cnf)
    ensures ParseCnf(EncodeCnf(f)) == Some(f)
  {
    var items := EncodeCnf(f).items;
    forall k | 0 <= k < |items|
      ensures ParseClause(items[k]) == Some(f[k])
    {
      ClauseItemsRoundTrip(f[k]);
    }
    var r := ParseCnfItems(items);
    assert r.value == f;
  }

  /** Both assertion kinds read back as themselves through the union. */
  lemma AssertionRoundTrip(a: PbtAssertion)
    ensures ParseAssertion(EncodeAssertion(a)) == Some(a)
  {
    CnfRoundTrip(a.lhs);
    CnfRoundTrip(a.rhs);
    var f := EncodeAssertion(a).fields;
    assert FieldCnf(f, "lhs") == Some(a.lhs);
    assert FieldCnf(f, "rhs") == Some(a.rhs);
  }

  lemma NodeApiRequestRoundTrip(q: NodeApiRequest)
    ensures ParseNodeApiRequest(EncodeNodeApiRequest(q)) == Some(q)
  {
    var items := EncodeNodeApiRequest(q).fields["textAssertions"].items;
    forall k | 0 <= k < |items|
      ensures ParseAssertion(items[k]) == Some(q.textAssertions[k])
    {
      AssertionRoundTrip(q.textAssertions[k]);
    }
    var r := ParseAssertionItems(items);
    assert r.value == q.textAssertions;
  }

  /**
   * An object carrying both `textToFind` and `labelToFind` (and valid otherwise) parses as a
   * text assertion: the union commits to its first member.
   */
  lemma TextShapeWins(n: string, t: string, lbl: string, l: Cnf, r: Cnf)
    ensures ParseAssertion(JObj(map["name" := JStr(n), "textToFind" := JStr(t), "labelToFind" := JStr(lbl),
                                    "lhs" := EncodeCnf(l), "rhs" := EncodeCnf(r)]))
            == Some(TextAssertion(n, t, l, r))
  {
    CnfRoundTrip(l);
    CnfRoundTrip(r);
    var f := map["name" := JStr(n), "textToFind" := JStr(t), "labelToFind" := JStr(lbl), "lhs" := EncodeCnf(l), "rhs" := EncodeCnf(r)];
    assert FieldCnf(f, "lhs") == Some(l);
    assert FieldCnf(f, "rhs") == Some(r);
  }

  /** A request that leaves out `useStatefulTesting` asks for stateful testing. */
  lemma DefaultStateful(q: NodeApiRequest)
    ensures var j := EncodeNodeApiRequest(q);
            ParseNodeApiRequest(JObj(j.fields - {"useStatefulTesting"})) == Some(q.(useStatefulTesting := true))
  {
    NodeApiRequestRoundTrip(q);
    var f := EncodeNodeApiRequest(q).fields;
    var g := f - {"useStatefulTesting"};
    assert g["filepath"] == f["filepath"] && g["textAssertions"] == f["textAssertions"];
  }

  /** Keys a schema does not declare are stripped: adding one changes nothing. */
  lemma ExtraKeyIgnored(a: PbtAssertion, key: string, v: Json)
    requires key !in {"name", "textToFind", "labelToFind", "lhs", "rhs"}
    ensures ParseAssertion(JObj(EncodeAssertion(a).fields[key := v])) == Some(a)
  {
    AssertionRoundTrip(a);
    CnfRoundTrip(a.lhs);
    CnfRoundTrip(a.rhs);
    var f := EncodeAssertion(a).fields[key := v];
    assert FieldCnf(f, "lhs") == Some(a.lhs);
    assert FieldCnf(f, "rhs") == Some(a.rhs);
  }

  /** Non-objects, and objects missing `name`, are rejected by the union. */
  lemma RejectedShapes(j: Json)
    requires !j.JObj? || "name" !in j.fields
    ensures ParseAssertion(j) == None
  {
  }
}
