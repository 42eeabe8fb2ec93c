/**
 * The solver's reply as the frontend validates it (frontend/src/types/Z3Response.ts): a union
 * discriminated on `result`, with a passed shape that carries no states and an empty
 * `violated_pbt`, and a failed shape that carries the counterexample trace.
 */
module Z3Responses {
  import opened Wrappers
  import opened Json
  import opened Logic
  import opened PropertySchemas

  datatype Z3Response = Passed | Failed(states: seq<seq<Literal>>, violatedPbt: string)

  /** `isFailedResponse` */
  predicate IsFailedResponse(r: Z3Response) {
    r.Failed?
  }

  /** `PassedResponseSchema`: `states` an empty array (`z.array(z.never()).length(0)`), `violated_pbt` exactly "". */
  function ParsePassed(f: map<string, Json>): (r: Option<Z3Response>)
    ensures r.Some? <==> "states" in f && f["states"] == JArr([]) && "violated_pbt" in f && f["violated_pbt"] == JStr("")
    ensures r.Some? ==> r.value == Passed
  {
    if "states" in f && f["states"].JArr? && |f["states"].items| == 0 && "violated_pbt" in f && f["violated_pbt"] == JStr("")
    then Some(Passed) else None
  }

  /** `FailedResponseSchema`: `states` a list of lists of literals, `violated_pbt` any string. */
  function ParseFailed(f: map<string, Json>): (r: Option<Z3Response>)
    ensures r.Some? <==> "states" in f && ParseCnf(f["states"]).Some? && "violated_pbt" in f && f["violated_pbt"].JStr?
    ensures r.Some? ==> r.value.Failed? && f["violated_pbt"] == JStr(r.value.violatedPbt)
    ensures r.Some? ==> ParseCnf(f["states"]) == Some(r.value.states)
  {
    match (FieldCnf(f, "states"), StringField(f, "violated_pbt"))
    case (Some(st), Some(v)) => Some(Failed(st, v))
    case _ => None
  }

  /** `Z3ResponseSchema`: the `result` tag picks the shape; any other tag is rejected. */
  function ParseZ3Response(j: Json): (r: Option<Z3Response>)
    ensures r.Some? ==> j.JObj? && "result" in j.fields
    ensures r.Some? ==> (IsFailedResponse(r.value) <==> j.fields["result"] == JStr("failed"))
    ensures r.Some? ==> j.fields["result"] == JStr("passed") || j.fields["result"] == JStr("failed")
    ensures j.JObj? && "result" in j.fields && j.fields["result"] == JStr("passed") ==> r == ParsePassed(j.fields)
    ensures j.JObj? && "result" in j.fields && j.fields["result"] == JStr("failed") ==> r == ParseFailed(j.fields)
  {
    if !j.JObj? || "result" !in j.fields then None
    else if j.fields["result"] == JStr("passed") then ParsePassed(j.fields)
    else if j.fields["result"] == JStr("failed") then ParseFailed(j.fields)
    else None
  }

  /** The JSON the solver service sends for a response. */
  function EncodeZ3Response(r: Z3Response): Json {
    match r
    case Passed => JObj(map["result" := JStr("passed"), "states" := JArr([]), "violated_pbt" := JStr("")])
    case Failed(states, v) => JObj(map["result" := JStr("failed"), "states" := EncodeCnf(states), "violated_pbt" := JStr(v)])
  }

  lemma Z3ResponseRoundTrip(r: Z3Response)
    ensures ParseZ3Response(EncodeZ3Response(r)) == Some(r)
  {
    if r.Failed? {
      CnfRoundTrip(r.states);
      var f := EncodeZ3Response(r).fields;
      assert FieldCnf(f, "states") == Some(r.states);
    }
  }

  /** A passed reply with any state, or a non-empty `violated_pbt`, is rejected. */
  lemma PassedIsStrict(states: seq<Json>, v: string)
    requires |states| > 0 || v != ""
    ensures ParseZ3Response(JObj(map["result" := JStr("passed"), "states" := JArr(states), "violated_pbt" := JStr(v)])) == None
  {
    var f := map["result" := JStr("passed"), "states" := JArr(states), "violated_pbt" := JStr(v)];
    if v != "" {
      assert f["violated_pbt"] != JStr("");
    }
  }
}
