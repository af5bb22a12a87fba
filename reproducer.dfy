/**
 * The reproducer: the parameter summary, a curl command line that repeats
 * the request, and a two-column markdown table of the parameters.
 */
module Reproducer {
  import opened Wrappers
  import opened Text
  import opened OrderedMap
  import opened FormEncoding
  import opened Splitter

  /** Python's `str` of a list of strings, which this model does not define. */
  type ListShow = seq<string> -> string

  // ------------------------------------------------------------- quoting

  /**
   * `format_cmd_arg`: the value between double quotes, or between single
   * quotes when it contains a double quote.
   */
  function QuoteArg(value: string): (r: string)
    ensures |r| == |value| + 2 && r[0] == r[|r| - 1] && r[1..|r| - 1] == value
    ensures r[0] == '\'' <==> '"' in value
    ensures r[0] == '"' <==> '"' !in value
  {
    var q := if '"' in value then '\'' else '"';
    [q] + value + [q]
  }

  /** The text between the quotes of a quoted argument. */
  function ArgText(arg: string): string
    requires |arg| >= 2
  {
    arg[1..|arg| - 1]
  }

  /**
   * The quote character does not occur inside the argument exactly when the
   * value does not hold both kinds of quote: only then is the argument a
   * single quoted word.
   */
  lemma QuoteArgDelimits(value: string)
    ensures QuoteArg(value)[0] in value <==> '"' in value && '\'' in value
  {
  }

  // -------------------------------------------------------- the curl command

  /** A header not passed on: its lower-cased name is `host` or `content-length`. */
  predicate Skipped(name: string) {
    Lower(name) == "host" || Lower(name) == "content-length"
  }

  /** The headers passed on, in map order. */
  function Kept(headers: Headers): (r: Headers)
    ensures |r| <= |headers|
  {
    if headers == [] then []
    else
      var init := headers[..|headers| - 1];
      var last := headers[|headers| - 1];
      Kept(init) + if Skipped(last.0) then [] else [last]
  }

  /** The `-H` argument for one header: `name: value`, quoted. */
  function HeaderArg(h: (string, string)): string {
    "-H " + QuoteArg(h.0 + ": " + h.1)
  }

  function HeaderArgs(headers: Headers): (r: seq<string>)
    ensures |r| == |headers|
    ensures forall i :: 0 <= i < |headers| ==> r[i] == HeaderArg(headers[i])
  {
    if headers == [] then []
    else HeaderArgs(headers[..|headers| - 1]) + [HeaderArg(headers[|headers| - 1])]
  }

  /** Every backtick of the body preceded by a backslash. */
  function EscapeBackticks(body: string): string {
    Replace(body, '`', "\\`")
  }

  /** The inverse of `EscapeBackticks`: a backslash before a backtick is dropped. */
  function UnescapeBackticks(s: string): string
  {
    if s == [] then []
    else if |s| >= 2 && s[0] == '\\' && s[1] == '`' then "`" + UnescapeBackticks(s[2..])
    else [s[0]] + UnescapeBackticks(s[1..])
  }

  /** The URL the command requests: the scheme is always `https`. */
  function Url(host: string, rawPath: string): string {
    "https://" + host + rawPath
  }

  /**
   * The parts of the command, joined by single spaces: the request with its
   * method and URL, one `-H` per header kept, and `--data-raw` with the
   * escaped body when there is a body.
   */
  function CurlParts(verb: string, host: string, rawPath: string, headers: Headers, body: string): seq<string>
  {
    ["curl -X " + verb + " " + QuoteArg(Url(host, rawPath))]
    + HeaderArgs(Kept(headers))
    + if body != "" then ["--data-raw " + QuoteArg(EscapeBackticks(body))] else []
  }

  function CurlCommand(verb: string, host: string, rawPath: string, headers: Headers, body: string): string {
    JoinWith(" ", CurlParts(verb, host, rawPath, headers, body))
  }

  /** The loop that appends the parts of the command, then joins them. */
  method BuildCurl(verb: string, host: string, rawPath: string, headers: Headers, body: string)
    returns (cmd: string)
    ensures cmd == CurlCommand(verb, host, rawPath, headers, body)
  {
    var first := "curl -X " + verb + " " + QuoteArg(Url(host, rawPath));
    var parts := [first];
    for i := 0 to |headers|
      invariant parts == [first] + HeaderArgs(Kept(headers[..i]))
    {
      var h := headers[i];
      CurlStep(first, headers, i);
      if Skipped(h.0) {
        continue;
      }
      parts := parts + [HeaderArg(h)];
    }
    var dataRaw := [];
    if body != "" {
      var safeBody := EscapeBackticks(body);
      dataRaw := ["--data-raw " + QuoteArg(safeBody)];
    }
    CurlTail(verb, host, rawPath, headers, body, dataRaw);
    parts := parts + dataRaw;
    cmd := JoinWith(" ", parts);
  }

  // ------------------------------------------------------ summary and table

  /** A value as an f-string shows it. */
  function Show(v: ParamValue, showList: ListShow): string {
    match v
    case Scalar(s) => s
    case Many(vs) => showList(vs)
    case Json(shown) => shown
  }

  /** One summary item: the name in bold, the value as inline code. */
  function Item(p: (string, ParamValue), showList: ListShow): string {
    "**" + p.0 + "** = `" + Show(p.1, showList) + "`"
  }

  function Items(params: Params, showList: ListShow): (r: seq<string>)
    ensures |r| == |params|
    ensures forall i :: 0 <= i < |params| ==> r[i] == Item(params[i], showList)
  {
    if params == [] then []
    else Items(params[..|params| - 1], showList) + [Item(params[|params| - 1], showList)]
  }

  /** The summary: `-` with no parameters, else the items joined by markdown line breaks. */
  function ParamsDisplay(params: Params, showList: ListShow): (r: string)
    ensures r == "-" <==> params == []
    ensures params != [] ==> var first := Item(params[0], showList); |first| <= |r| && r[..|first|] == first
  {
    if params == [] then "-"
    else
      var items := Items(params, showList);
      JoinPrefix("  \n", items);
      assert items[0][..2] == "**";
      JoinWith("  \n", items)
  }

  const TableHeader := "| \U{D30C}\U{B77C}\U{BBF8}\U{D130} | \U{AC12} |"
  const TableRule := "|---|---|"

  /** One table row: the name and the shown value between pipes. */
  function Row(p: (string, ParamValue), showList: ListShow): string {
    "| " + p.0 + " | " + Show(p.1, showList) + " |"
  }

  function Rows(params: Params, showList: ListShow): (r: seq<string>)
    ensures |r| == |params|
    ensures forall i :: 0 <= i < |params| ==> r[i] == Row(params[i], showList)
  {
    if params == [] then []
    else Rows(params[..|params| - 1], showList) + [Row(params[|params| - 1], showList)]
  }

  /** The markdown table: empty with no parameters, else header, rule and one row per parameter. */
  function NotionTable(params: Params, showList: ListShow): string {
    if params == [] then "" else JoinWith("\n", [TableHeader, TableRule] + Rows(params, showList))
  }

  /** The loop that appends one row per parameter, then joins the rows. */
  method BuildTable(params: Params, showList: ListShow) returns (md: string)
    ensures md == NotionTable(params, showList)
  {
    if params == [] {
      return "";
    }
    var mdRows := [TableHeader, TableRule];
    for i := 0 to |params|
      invariant mdRows == [TableHeader, TableRule] + Rows(params[..i], showList)
    {
      assert params[..i + 1] == params[..i] + [params[i]];
      mdRows := mdRows + [Row(params[i], showList)];
    }
    assert params[..|params|] == params;
    md := JoinWith("\n", mdRows);
  }

  // ---------------------------------------------------------------- lemmas

  /** One turn of the header loop appends the header's `-H` argument unless it is skipped. */
  lemma CurlStep(first: string, headers: Headers, i: nat)
    requires i < |headers|
    ensures [first] + HeaderArgs(Kept(headers[..i + 1]))
         == [first] + HeaderArgs(Kept(headers[..i])) + if Skipped(headers[i].0) then [] else [HeaderArg(headers[i])]
  {
    var kept := Kept(headers[..i]);
    assert headers[..i + 1][..i] == headers[..i];
    if Skipped(headers[i].0) {
      assert Kept(headers[..i + 1]) == kept + [];
      assert kept + [] == kept;
    } else {
      assert Kept(headers[..i + 1]) == kept + [headers[i]];
      HeaderArgsSnoc(kept, headers[i]);
    }
  }

  /** After the loop over all headers, the `--data-raw` part completes the command's parts. */
  lemma CurlTail(verb: string, host: string, rawPath: string, headers: Headers, body: string, dataRaw: seq<string>)
    requires dataRaw == if body != "" then ["--data-raw " + QuoteArg(EscapeBackticks(body))] else []
    ensures ["curl -X " + verb + " " + QuoteArg(Url(host, rawPath))] + HeaderArgs(Kept(headers[..|headers|])) + dataRaw
         == CurlParts(verb, host, rawPath, headers, body)
  {
    assert headers[..|headers|] == headers;
  }

  lemma HeaderArgsSnoc(headers: Headers, h: (string, string))
    ensures HeaderArgs(headers + [h]) == HeaderArgs(headers) + [HeaderArg(h)]
  {
    assert (headers + [h])[..|headers|] == headers;
  }

  /** Escaped text never starts with a backtick: each one gets a backslash in front. */
  lemma EscapedStart(s: string)
    requires s != []
    ensures EscapeBackticks(s)[0] != '`'
  {
  }

  /** Dropping the backslash before each backtick gives back the body. */
  lemma {:induction false} UnescapeEscape(body: string)
    ensures UnescapeBackticks(EscapeBackticks(body)) == body
    decreases |body|
  {
    if body != [] {
      var rest := EscapeBackticks(body[1..]);
      UnescapeEscape(body[1..]);
      if body[0] == '`' {
        assert EscapeBackticks(body) == "\\`" + rest;
        assert ("\\`" + rest)[2..] == rest;
      } else {
        assert EscapeBackticks(body) == [body[0]] + rest;
        assert ([body[0]] + rest)[1..] == rest;
        if rest != [] {
          EscapedStart(body[1..]);
        }
      }
    }
  }

  /**
   * The command has one `-H` argument per header kept, in map order, and a
   * last `--data-raw` argument, whose quoted text unescapes to the body,
   * exactly when there is a body.
   */
  lemma CurlShape(verb: string, host: string, rawPath: string, headers: Headers, body: string)
    ensures var parts := CurlParts(verb, host, rawPath, headers, body);
      var kept := Kept(headers);
      && |parts| == 1 + |kept| + (if body != "" then 1 else 0)
      && parts[0] == "curl -X " + verb + " " + QuoteArg(Url(host, rawPath))
      && (forall i :: 0 <= i < |kept| ==> parts[1 + i] == HeaderArg(kept[i]))
      && (body != "" ==> parts[|parts| - 1][..12] == "--data-raw " + [QuoteArg(EscapeBackticks(body))[0]]
                         && UnescapeBackticks(ArgText(parts[|parts| - 1][11..])) == body)
  {
    var first := "curl -X " + verb + " " + QuoteArg(Url(host, rawPath));
    var args := HeaderArgs(Kept(headers));
    var tail := if body != "" then ["--data-raw " + QuoteArg(EscapeBackticks(body))] else [];
    var parts := CurlParts(verb, host, rawPath, headers, body);
    assert parts == [first] + args + tail;
    forall i | 0 <= i < |args| ensures parts[1 + i] == args[i] {
      assert ([first] + args + tail)[1 + i] == args[i];
    }
    if body != "" {
      assert parts[|parts| - 1] == tail[0];
      DataRaw(body);
    }
  }

  /** The `--data-raw` argument holds the quoted escaped body, which unescapes to the body. */
  lemma DataRaw(body: string)
    ensures var arg := QuoteArg(EscapeBackticks(body));
      var data := "--data-raw " + arg;
      && data[..12] == "--data-raw " + [arg[0]]
      && UnescapeBackticks(ArgText(data[11..])) == body
  {
    var arg := QuoteArg(EscapeBackticks(body));
    var data := "--data-raw " + arg;
    assert data[11..] == arg;
    assert data[..12] == "--data-raw " + [arg[0]];
    UnescapeEscape(body);
  }

  /**
   * The headers kept are those whose name is not `host` or `content-length`
   * in any letter case: no other header is dropped and no skipped one
   * reaches the command.
   */
  lemma {:induction false} KeptMembers(headers: Headers, h: (string, string))
    ensures h in Kept(headers) <==> h in headers && !Skipped(h.0)
    decreases |headers|
  {
    if headers != [] {
      var init := headers[..|headers| - 1];
      KeptMembers(init, h);
      assert headers == init + [headers[|headers| - 1]];
    }
  }

  /** Keeping distributes over concatenation, so the kept headers stay in map order. */
  lemma {:induction false} KeptAppend(a: Headers, b: Headers)
    ensures Kept(a + b) == Kept(a) + Kept(b)
    decreases |b|
  {
    if b == [] {
      assert a + b == a;
    } else {
      var init := b[..|b| - 1];
      KeptAppend(a, init);
      assert (a + b)[..|a + b| - 1] == a + init;
    }
  }

  /** The table is empty exactly when there are no parameters. */
  lemma TableEmpty(params: Params, showList: ListShow)
    ensures NotionTable(params, showList) == "" <==> params == []
  {
    if params != [] {
      JoinPrefix("\n", [TableHeader, TableRule] + Rows(params, showList));
    }
  }

  /**
   * When no name and no shown value holds a line feed, the table's lines are
   * the header, the rule and one row per parameter in map order: `2 + n`
   * lines in all.
   */
  lemma TableLines(params: Params, showList: ListShow)
    requires params != []
    requires forall i :: 0 <= i < |params| ==> '\n' !in params[i].0 && '\n' !in Show(params[i].1, showList)
    ensures SplitOn(NotionTable(params, showList), '\n') == [TableHeader, TableRule] + Rows(params, showList)
    ensures Count(NotionTable(params, showList), '\n') == |params| + 1
  {
    var lines := [TableHeader, TableRule] + Rows(params, showList);
    LinesNoLineFeed(params, showList);
    JoinSplitOn(lines, '\n');
    JoinCount(lines, '\n');
  }

  lemma LinesNoLineFeed(params: Params, showList: ListShow)
    requires forall i :: 0 <= i < |params| ==> '\n' !in params[i].0 && '\n' !in Show(params[i].1, showList)
    ensures forall i :: 0 <= i < 2 + |params| ==> '\n' !in ([TableHeader, TableRule] + Rows(params, showList))[i]
  {
    var rows := Rows(params, showList);
    forall i | 0 <= i < |rows| ensures '\n' !in rows[i] {
      RowNoLineFeed(params[i], showList);
    }
    FramedNoLineFeed(rows);
  }

  lemma FramedNoLineFeed(rows: seq<string>)
    requires forall i :: 0 <= i < |rows| ==> '\n' !in rows[i]
    ensures forall i :: 0 <= i < 2 + |rows| ==> '\n' !in ([TableHeader, TableRule] + rows)[i]
  {
    LiteralsNoLineFeed();
  }

  lemma LiteralsNoLineFeed()
    ensures '\n' !in TableHeader && '\n' !in TableRule
  {
    assert forall i :: 0 <= i < |TableHeader| ==> TableHeader[i] != '\n';
  }

  lemma RowNoLineFeed(p: (string, ParamValue), showList: ListShow)
    requires '\n' !in p.0 && '\n' !in Show(p.1, showList)
    ensures '\n' !in Row(p, showList)
  {
  }

  /** A join of parts starts with the first part. */
  lemma {:induction false} JoinPrefix(sep: string, parts: seq<string>)
    requires parts != []
    ensures |parts[0]| <= |JoinWith(sep, parts)| && JoinWith(sep, parts)[..|parts[0]|] == parts[0]
    decreases |parts|
  {
    if |parts| > 1 {
      var init := parts[..|parts| - 1];
      JoinPrefix(sep, init);
      var j := JoinWith(sep, init);
      assert (j + sep + parts[|parts| - 1])[..|parts[0]|] == j[..|parts[0]|];
    }
  }
}
