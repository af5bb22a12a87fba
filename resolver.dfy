/**
 * The parameter resolver: the query of the request target seeds the
 * parameters, then the body's parameters are assigned over them when the
 * body is JSON holding an object or form-encoded text. A body that does not
 * decode, or decodes to anything but an object, is skipped without error.
 */
module Resolver {
  import opened Wrappers
  import opened Text
  import opened OrderedMap
  import opened FormEncoding
  import opened Splitter

  /** A JSON member value: a string, or any other value shown as Python's `str` shows it. */
  datatype JsonValue = JString(text: string) | JOther(shown: string)

  /** A decoded JSON document: an object's members in order, or some other top-level value. */
  datatype JsonDoc = JObject(members: seq<(string, JsonValue)>) | JNotObject

  /**
   * `json.loads`, which this model does not define: `None` stands for a
   * `JSONDecodeError`.
   */
  type JsonDecoder = string -> Option<JsonDoc>

  const JsonType := "application/json"
  const FormType := "application/x-www-form-urlencoded"

  /**
   * The media type of a `Content-Type` value: the text before its first `;`,
   * stripped and lower-cased.
   */
  function MediaType(value: string): (ct: string)
    ensures ';' !in ct
    ensures forall i :: 0 <= i < |ct| ==> !('A' <= ct[i] <= 'Z')
    ensures ct != [] ==> !IsSpace(ct[0]) && !IsSpace(ct[|ct| - 1])
    ensures value == "" ==> ct == ""
    ensures ct == Lower(Strip(value[..Find(value, ';')]))
  {
    var part := SplitOn(value, ';')[0];
    assert part == value[..Find(value, ';')];
    var mediaType := Strip(part);
    StripSlice(part);
    assert ';' !in mediaType by {
      assert mediaType == part[LeadingSpace(part)..LeadingSpace(part) + |mediaType|];
    }
    LowerKeeps(mediaType, ';');
    LowerEnds(mediaType);
    Lower(mediaType)
  }

  /** The media type of the exact `Content-Type` header; empty when there is no such header. */
  function ContentType(headers: Headers): (ct: string)
    ensures Lookup(headers, "Content-Type").None? ==> ct == ""
    ensures Lookup(headers, "Content-Type").Some? ==> ct == MediaType(Lookup(headers, "Content-Type").value)
  {
    MediaType(Lookup(headers, "Content-Type").GetOr(""))
  }

  /** A JSON member as a parameter: a string is a scalar, anything else is shown. */
  function FromJson(v: JsonValue): ParamValue {
    match v
    case JString(s) => Scalar(s)
    case JOther(shown) => Json(shown)
  }

  /**
   * The parameters the body contributes, or `None` when it is skipped: an
   * empty body, a type that is neither JSON nor form encoding, a JSON decode
   * error and a JSON value that is not an object all contribute nothing.
   */
  function BodyParams(body: string, contentType: string, decode: JsonDecoder): (r: Option<Params>)
    ensures r.Some? <==>
      && body != ""
      && ((contentType == JsonType && decode(body).Some? && decode(body).value.JObject?) || contentType == FormType)
    ensures r.Some? && contentType == FormType ==> r.value == FormParams(body)
    ensures r.Some? && contentType == JsonType ==> Keys(r.value) == Keys(decode(body).value.members)
  {
    if body == "" then None
    else if contentType == JsonType then
      match decode(body)
      case Some(JObject(members)) => Some(MapValues(members, FromJson))
      case _ => None
    else if contentType == FormType then Some(FormParams(body))
    else None
  }

  /**
   * The parameter map: an empty dict updated with the query parameters, then,
   * for a body that is not skipped, with the body's parameters.
   */
  function ResolvedParams(rawPath: string, headers: Headers, body: string, decode: JsonDecoder): Params
  {
    var query := FormParams(SplitTarget(rawPath).query);
    var fromBody := BodyParams(body, ContentType(headers), decode).GetOr([]);
    PutAll(PutAll([], query), fromBody)
  }

  /**
   * The successive in-place updates of the parameter dict: the query's
   * parameters, then those of a non-empty JSON-object or form-encoded body.
   */
  method ResolveParams(rawPath: string, headers: Headers, body: string, decode: JsonDecoder)
    returns (params: Params)
    ensures params == ResolvedParams(rawPath, headers, body, decode)
  {
    var target := SplitTarget(rawPath);
    params := [];
    params := PutAll(params, FormParams(target.query));
    var contentType := ContentType(headers);
    params := MergeBody(params, body, contentType, decode);
  }

  /**
   * The body's step of the resolution: a non-empty body holding a JSON
   * object, or form-encoded text, is assigned over the parameters.
   */
  method MergeBody(params: Params, body: string, contentType: string, decode: JsonDecoder)
    returns (merged: Params)
    ensures merged == PutAll(params, BodyParams(body, contentType, decode).GetOr([]))
  {
    merged := params;
    if body != "" {
      if contentType == JsonType {
        match decode(body)
        case Some(JObject(members)) =>
          merged := PutAll(merged, MapValues(members, FromJson));
        case _ =>
      } else if contentType == FormType {
        merged := PutAll(merged, FormParams(body));
      }
    }
  }

  // ---------------------------------------------------------------- lemmas

  /**
   * Body parameters override query parameters and never the reverse: a name
   * the body gives takes the body's value, any other name keeps the query's.
   * The query's names keep their order at the front, the body's new names
   * follow in the order met, and no name occurs twice.
   */
  lemma {:induction false} ResolvedLookup(rawPath: string, headers: Headers, body: string, decode: JsonDecoder, k: string)
    ensures var query := FormParams(SplitTarget(rawPath).query);
      var fromBody := BodyParams(body, ContentType(headers), decode).GetOr([]);
      var params := ResolvedParams(rawPath, headers, body, decode);
      && Lookup(params, k) == (if k in Keys(fromBody) then Lookup(fromBody, k) else Lookup(query, k))
      && Keys(params) == FirstOccurrences(Keys(query) + Keys(fromBody))
      && |query| <= |params| && Keys(params)[..|query|] == Keys(query)
      && Distinct(Keys(params))
  {
    var query := FormParams(SplitTarget(rawPath).query);
    var fromBody := BodyParams(body, ContentType(headers), decode).GetOr([]);
    FreshPutAll(SplitTarget(rawPath).query);
    PutAllLookup(query, fromBody, k);
    PutAllKeys(query, fromBody);
    PutAllPrefix(query, fromBody);
    FirstOccurrencesMembers(Keys(query) + Keys(fromBody));
  }

  /** A skipped body leaves exactly the query's parameters. */
  lemma SkippedBody(rawPath: string, headers: Headers, body: string, decode: JsonDecoder)
    requires BodyParams(body, ContentType(headers), decode).None?
    ensures ResolvedParams(rawPath, headers, body, decode) == FormParams(SplitTarget(rawPath).query)
  {
    FreshPutAll(SplitTarget(rawPath).query);
  }

  /**
   * The parameters of a JSON-object body are its members in order: a JSON
   * string becomes a scalar, any other value its shown text.
   */
  lemma JsonBodyLookup(body: string, decode: JsonDecoder, k: string)
    requires body != "" && decode(body).Some? && decode(body).value.JObject?
    ensures var members := decode(body).value.members;
      && BodyParams(body, JsonType, decode).Some?
      && Lookup(BodyParams(body, JsonType, decode).value, k)
         == if k in Keys(members) then Some(FromJson(Lookup(members, k).value)) else None
  {
    MapValuesLookup(decode(body).value.members, FromJson, k);
  }

  /** Parameters after the first `;` (a charset, a boundary) never change the media type. */
  lemma MediaTypeParameters(value: string, parameters: string)
    requires ';' !in value
    ensures MediaType(value + ";" + parameters) == MediaType(value)
  {
    CutAt(value, ';', parameters);
    assert Find(value, ';') == |value|;
  }

  /** Normalising a media type again changes nothing. */
  lemma MediaTypeIdempotent(value: string)
    ensures MediaType(MediaType(value)) == MediaType(value)
  {
    var ct := MediaType(value);
    assert Find(ct, ';') == |ct|;
    assert SplitOn(ct, ';') == [ct];
    StripClean(ct);
    LowerClean(ct);
  }

  /** Updating an empty dict with the query's parameters gives those parameters. */
  lemma FreshPutAll(query: string)
    ensures PutAll([], FormParams(query)) == FormParams(query)
    ensures Distinct(Keys(FormParams(query)))
  {
    FormParamsLookup(query, "");
    FirstOccurrencesMembers(Keys(QueryPairs(query)));
    DistinctPutAll(FormParams(query));
  }
}
