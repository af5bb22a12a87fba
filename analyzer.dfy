/**
 * The whole analysis of a pasted request: split it, resolve its
 * parameters, then compute the endpoint, the host, the parameter summary,
 * the curl command and the markdown table.
 */
module Analyzer {
  import opened Wrappers
  import opened Text
  import opened OrderedMap
  import opened FormEncoding
  import opened Splitter
  import opened Resolver
  import opened Reproducer

  /** The library functions the analysis calls and this model does not define. */
  datatype Foreign = Foreign(decodeJson: JsonDecoder, showList: ListShow)

  /** What a successful analysis yields. */
  datatype Analysis = Analysis(
    endpoint: string,
    host: string,
    paramsDisplay: string,
    curl: string,
    notionMarkdown: string,
    params: Params)

  /** The method, a space, and the path of the request target (its text before `?` and `#`). */
  function Endpoint(verb: string, rawPath: string): (e: string)
    ensures |e| == |verb| + 1 + |SplitTarget(rawPath).path| && e[..|verb| + 1] == verb + " "
    ensures var path := e[|verb| + 1..]; path == rawPath[..|path|] && '?' !in path && '#' !in path
    ensures var n := |e| - |verb| - 1; n < |rawPath| ==> rawPath[n] == '?' || rawPath[n] == '#'
  {
    var path := SplitTarget(rawPath).path;
    var e := verb + " " + path;
    assert e[|verb| + 1..] == path;
    e
  }

  /** The `Host` header, or `-` when there is none. */
  function HostOf(headers: Headers): (host: string)
    ensures Lookup(headers, "Host").None? ==> host == "-"
    ensures Lookup(headers, "Host").Some? ==> ("Host", host) in headers
  {
    Lookup(headers, "Host").GetOr("-")
  }

  /**
   * The outputs for a split transcript: each is the one its component
   * computes from the transcript and the resolved parameters.
   */
  function Report(t: Transcript, foreign: Foreign): Analysis
  {
    var rl := t.requestLine;
    var params := ResolvedParams(rl.rawPath, t.headers, t.body, foreign.decodeJson);
    var host := HostOf(t.headers);
    Analysis(
      Endpoint(rl.verb, rl.rawPath),
      host,
      ParamsDisplay(params, foreign.showList),
      CurlCommand(rl.verb, host, rl.rawPath, t.headers, t.body),
      NotionTable(params, foreign.showList),
      params)
  }

  /**
   * What an analysis of the pasted text gives. Whitespace-only text fails
   * with `EmptyInput`, a request line that is not three tokens fails with
   * `MalformedRequestLine`; otherwise the outputs of the split transcript.
   */
  function Outcome(raw: string, foreign: Foreign): (r: Result<Analysis, AnalysisError>)
    ensures r == Failure(EmptyInput) <==> AllSpace(raw)
    ensures r == Failure(MalformedRequestLine) <==> !AllSpace(raw) && |SplitWs(RequestLineText(raw))| != 3
    ensures r.Success? <==> Transcribe(raw).Success?
  {
    match Transcribe(raw)
    case Failure(e) => Failure(e)
    case Success(t) => Success(Report(t, foreign))
  }

  /** The analysis the button runs: split, resolve, then the loops of the curl command and the table. */
  method Analyze(raw: string, foreign: Foreign) returns (r: Result<Analysis, AnalysisError>)
    ensures r == Outcome(raw, foreign)
  {
    var split := Split(raw);
    if split.Failure? {
      return Failure(split.error);
    }
    var t := split.value;
    var rl := t.requestLine;
    var params := ResolveParams(rl.rawPath, t.headers, t.body, foreign.decodeJson);
    var host := HostOf(t.headers);
    var endpoint := Endpoint(rl.verb, rl.rawPath);
    var paramsDisp := ParamsDisplay(params, foreign.showList);
    var curlCmd := BuildCurl(rl.verb, host, rl.rawPath, t.headers, t.body);
    var notionMd := BuildTable(params, foreign.showList);
    r := Success(Analysis(endpoint, host, paramsDisp, curlCmd, notionMd, params));
  }
}
