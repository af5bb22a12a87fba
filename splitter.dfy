/**
 * The transcript splitter: the pasted request text is stripped and cut into
 * lines; the first line is the request line (method, request target, HTTP
 * version), the lines up to the first blank one are header fields, and the
 * lines after it are the body.
 */
module Splitter {
  import opened Wrappers
  import opened Text
  import opened OrderedMap

  /** Header name to header value, in the order the names were first met. */
  type Headers = Entries<string>

  datatype RequestLine = RequestLine(verb: string, rawPath: string, version: string)

  datatype Transcript = Transcript(requestLine: RequestLine, headers: Headers, body: string)

  /** The two failures that end an analysis without a result. */
  datatype AnalysisError = EmptyInput | MalformedRequestLine

  /** A line that is empty once stripped: it ends the header section. */
  predicate IsBlank(line: string) {
    AllSpace(line)
  }

  /** The lines of the stripped transcript. */
  function Lines(raw: string): seq<string> {
    SplitLines(Strip(raw))
  }

  /**
   * The request line: the stripped transcript up to its first line break.
   * It is empty exactly when the transcript is only whitespace.
   */
  function RequestLineText(raw: string): (first: string)
    ensures first != [] <==> !AllSpace(raw)
    ensures NoLineBreak(first)
    ensures first != [] ==> Lines(raw) != [] && first == Lines(raw)[0]
  {
    var t := Strip(raw);
    var first := t[..LineEnd(t)];
    assert t != [] ==> !IsLineBreak(t[0]);
    first
  }

  /** Index of the first blank line, or `|lines|` when there is none. */
  function HeaderEnd(lines: seq<string>): (n: nat)
    ensures n <= |lines|
    ensures n < |lines| ==> IsBlank(lines[n])
  {
    if lines == [] || IsBlank(lines[0]) then 0 else 1 + HeaderEnd(lines[1..])
  }

  /**
   * The body lines: every line after the first blank line, later blank lines
   * and lines with colons included; none when no line is blank.
   */
  function BodyLines(lines: seq<string>): (body: seq<string>)
    ensures |body| < |lines| || body == []
    ensures body == lines[|lines| - |body|..]
    ensures body != [] ==> HeaderEnd(lines) == |lines| - |body| - 1
    ensures HeaderEnd(lines) < |lines| ==> body == lines[HeaderEnd(lines) + 1..]
    ensures HeaderEnd(lines) == |lines| ==> body == []
  {
    var n := HeaderEnd(lines);
    if n < |lines| then lines[n + 1..] else []
  }

  /**
   * A header line split at its first colon into a trimmed name and a trimmed
   * value; `None` for a line without a colon, which is skipped.
   */
  function Field(line: string): (f: Option<(string, string)>)
    ensures f.None? <==> ':' !in line
    ensures f.Some? ==> var i := Find(line, ':');
      && i < |line| && line[i] == ':' && ':' !in line[..i]
      && f.value == (Strip(line[..i]), Strip(line[i + 1..]))
  {
    var i := Find(line, ':');
    if i == |line| then None else Some((Strip(line[..i]), Strip(line[i + 1..])))
  }

  /** The fields of the lines that have a colon, in order. */
  function Fields(lines: seq<string>): seq<(string, string)>
  {
    if lines == [] then []
    else
      var last := lines[|lines| - 1];
      Fields(lines[..|lines| - 1]) + match Field(last) case Some(f) => [f] case None => []
  }

  /** The header map built from header-section lines, one assignment per field. */
  function HeadersOf(lines: seq<string>): Headers
  {
    PutAll([], Fields(lines))
  }

  // ---------------------------------------------------------------- lemmas

  /** A request line of three space-free words separated by single spaces splits into those words. */
  lemma ThreeTokens(verb: string, target: string, version: string)
    requires verb != [] && NoSpace(verb)
    requires target != [] && NoSpace(target)
    requires version != [] && NoSpace(version)
    ensures SplitWs(verb + " " + target + " " + version) == [verb, target, version]
  {
    assert verb + " " + target + " " + version == verb + [' '] + (target + [' '] + version);
    SplitWsSpace(verb, ' ', target + [' '] + version);
    SplitWsSpace(target, ' ', version);
    SplitWsWord(verb);
    SplitWsWord(target);
    SplitWsWord(version);
  }

  /** Header lines with no blank line among them, a blank line, then anything: the body is exactly the rest. */
  lemma {:induction false} BodyAfterBlank(head: seq<string>, blank: string, rest: seq<string>)
    requires forall j :: 0 <= j < |head| ==> !IsBlank(head[j])
    requires IsBlank(blank)
    ensures HeaderEnd(head + [blank] + rest) == |head|
    ensures BodyLines(head + [blank] + rest) == rest
  {
    var lines := head + [blank] + rest;
    if head != [] {
      BodyAfterBlank(head[1..], blank, rest);
      assert lines[1..] == head[1..] + [blank] + rest;
    }
    assert lines[|head| + 1..] == rest;
  }

  /**
   * In the header map, a name's value is the one its last field gave, the
   * names appear once each, in the order they were first met.
   */
  lemma HeaderMap(lines: seq<string>, k: string)
    ensures Lookup(HeadersOf(lines), k) == Lookup(Fields(lines), k)
    ensures Keys(HeadersOf(lines)) == FirstOccurrences(Keys(Fields(lines)))
    ensures Distinct(Keys(HeadersOf(lines)))
  {
    PutAllLookup([], Fields(lines), k);
    PutAllKeys([], Fields(lines));
    assert Keys<string>([]) + Keys(Fields(lines)) == Keys(Fields(lines));
    FirstOccurrencesMembers(Keys(Fields(lines)));
  }

  /** No blank line comes before the end of the header section: it ends at the first one. */
  lemma {:induction false} HeaderEndFirst(lines: seq<string>, i: nat)
    requires i < |lines|
    ensures IsBlank(lines[i]) ==> HeaderEnd(lines) <= i
    ensures i < HeaderEnd(lines) ==> !IsBlank(lines[i])
    decreases i
  {
    if i > 0 && !IsBlank(lines[0]) {
      HeaderEndFirst(lines[1..], i - 1);
    }
  }

  /** A further header-section line assigns its field, or is skipped when it has no colon. */
  lemma HeadersSnoc(lines: seq<string>, line: string)
    ensures HeadersOf(lines + [line]) ==
      match Field(line) case Some(f) => Put(HeadersOf(lines), f.0, f.1) case None => HeadersOf(lines)
  {
    FieldsSnoc(lines, line);
    if Field(line).Some? {
      PutAllSnoc(Fields(lines), Field(line).value);
    } else {
      assert Fields(lines) + [] == Fields(lines);
    }
  }

  lemma FieldsSnoc(lines: seq<string>, line: string)
    ensures Fields(lines + [line]) == Fields(lines) + match Field(line) case Some(f) => [f] case None => []
  {
    assert (lines + [line])[..|lines|] == lines;
  }

  lemma PutAllSnoc(fs: seq<(string, string)>, f: (string, string))
    ensures PutAll([], fs + [f]) == Put(PutAll([], fs), f.0, f.1)
  {
    assert (fs + [f])[..|fs|] == fs;
  }

  // ---------------------------------------------------------------- the scan

  /**
   * What the scan holds after the first `i` lines: the flag is on exactly
   * when the first blank line is among them; the headers are those of the
   * header-section lines seen; the body is the lines seen after the blank one.
   */
  ghost predicate Scanned(lines: seq<string>, i: nat, isBody: bool, headers: Headers, body: seq<string>)
    requires i <= |lines|
  {
    var end := HeaderEnd(lines);
    && (isBody <==> end < i)
    && (!isBody ==> headers == HeadersOf(lines[..i]) && body == [])
    && (isBody ==> headers == HeadersOf(lines[..end]) && body == lines[end + 1..i])
  }

  /** The scan is about to take line `i`. */
  ghost predicate Scanning(lines: seq<string>, i: nat, isBody: bool, headers: Headers, body: seq<string>) {
    i < |lines| && Scanned(lines, i, isBody, headers, body)
  }

  /** After the first blank line, the line is kept as body. */
  lemma BodyTurn(lines: seq<string>, i: nat, isBody: bool, headers: Headers, body: seq<string>)
    requires Scanning(lines, i, isBody, headers, body)
    ensures isBody ==> Scanned(lines, i + 1, true, headers, body + [lines[i]])
  {
    if isBody {
      SliceSnoc(lines, HeaderEnd(lines) + 1, i);
    }
  }

  /** The first blank line turns the flag on. */
  lemma BlankTurn(lines: seq<string>, i: nat, isBody: bool, headers: Headers, body: seq<string>)
    requires Scanning(lines, i, isBody, headers, body)
    ensures !isBody && IsBlank(lines[i]) ==> Scanned(lines, i + 1, true, headers, body)
  {
    HeaderEndFirst(lines, i);
  }

  /** Before it, a line with a colon is assigned into the header map. */
  lemma FieldTurn(lines: seq<string>, i: nat, isBody: bool, headers: Headers, body: seq<string>)
    requires Scanning(lines, i, isBody, headers, body)
    ensures var line := lines[i];
      !isBody && !IsBlank(line) && Field(line).Some? ==>
        Scanned(lines, i + 1, false, Put(headers, Field(line).value.0, Field(line).value.1), body)
  {
    if !isBody && !IsBlank(lines[i]) && Field(lines[i]).Some? {
      HeaderEndFirst(lines, i);
      assert i < HeaderEnd(lines);
      HeadersAt(lines, i);
    }
  }

  /** Before it, a line without a colon is skipped. */
  lemma SkipTurn(lines: seq<string>, i: nat, isBody: bool, headers: Headers, body: seq<string>)
    requires Scanning(lines, i, isBody, headers, body)
    ensures var line := lines[i];
      !isBody && !IsBlank(line) && ':' !in line ==> Scanned(lines, i + 1, false, headers, body)
  {
    if !isBody && !IsBlank(lines[i]) && ':' !in lines[i] {
      HeaderEndFirst(lines, i);
      assert i < HeaderEnd(lines);
      HeadersAt(lines, i);
      assert Field(lines[i]).None?;
    }
  }

  /** The headers after one more header-section line: its field assigned if it has one. */
  lemma HeadersAt(lines: seq<string>, i: nat)
    requires i < |lines|
    ensures HeadersOf(lines[..i + 1]) ==
      match Field(lines[i]) case Some(f) => Put(HeadersOf(lines[..i]), f.0, f.1) case None => HeadersOf(lines[..i])
  {
    SliceSnoc(lines, 0, i);
    assert lines[0..i] == lines[..i] && lines[0..i + 1] == lines[..i + 1];
    HeadersSnoc(lines[..i], lines[i]);
  }

  /** After the last line, the scan holds the header map and the body lines. */
  lemma ScanDone(lines: seq<string>, isBody: bool, headers: Headers, body: seq<string>)
    requires Scanned(lines, |lines|, isBody, headers, body)
    ensures headers == HeadersOf(lines[..HeaderEnd(lines)])
    ensures body == BodyLines(lines)
  {
    assert lines[..|lines|] == lines;
  }

  lemma SliceSnoc<T>(s: seq<T>, lo: nat, i: nat)
    requires lo <= i < |s|
    ensures s[lo..i + 1] == s[lo..i] + [s[i]]
  {
  }

  /**
   * One turn of the scan: after the first blank line every line is body;
   * the first blank line turns the flag on; before it, a line with a colon
   * is assigned into the header map at its first colon, and any other line
   * is skipped.
   */
  method ScanLine(lines: seq<string>, i: nat, isBody: bool, headers: Headers, body: seq<string>)
    returns (isBody': bool, headers': Headers, body': seq<string>)
    requires Scanning(lines, i, isBody, headers, body)
    ensures Scanned(lines, i + 1, isBody', headers', body')
  {
    var line := lines[i];
    isBody', headers', body' := isBody, headers, body;
    if isBody {
      BodyTurn(lines, i, isBody, headers, body);
      body' := body + [line];
    } else if IsBlank(line) {
      BlankTurn(lines, i, isBody, headers, body);
      isBody' := true;
    } else if ':' in line {
      var c := Find(line, ':');
      FieldTurn(lines, i, isBody, headers, body);
      headers' := Put(headers, Strip(line[..c]), Strip(line[c + 1..]));
    } else {
      SkipTurn(lines, i, isBody, headers, body);
    }
  }

  /**
   * The scan over the lines after the request line: a flag turns on at the
   * first blank line; before it, lines with a colon are assigned into the
   * header map; after it, every line is kept as body.
   */
  method ScanLines(lines: seq<string>) returns (headers: Headers, body: seq<string>)
    ensures headers == HeadersOf(lines[..HeaderEnd(lines)])
    ensures body == BodyLines(lines)
  {
    headers := [];
    body := [];
    var isBody := false;
    for i := 0 to |lines|
      invariant Scanned(lines, i, isBody, headers, body)
    {
      isBody, headers, body := ScanLine(lines, i, isBody, headers, body);
    }
    ScanDone(lines, isBody, headers, body);
  }

  /**
   * The split of the pasted text. Whitespace-only text is `EmptyInput`; a
   * request line that is not exactly three whitespace-separated tokens is
   * `MalformedRequestLine`; otherwise the tokens are method, target and
   * version, the headers and body come from the remaining lines, and the
   * body is the body lines joined with newlines and stripped.
   */
  function Transcribe(raw: string): (r: Result<Transcript, AnalysisError>)
    ensures r == Failure(EmptyInput) <==> AllSpace(raw)
    ensures r == Failure(MalformedRequestLine) <==> !AllSpace(raw) && |SplitWs(RequestLineText(raw))| != 3
    ensures r.Success? ==> var rl := r.value.requestLine;
      SplitWs(RequestLineText(raw)) == [rl.verb, rl.rawPath, rl.version]
  {
    var text := Strip(raw);
    if text == "" then Failure(EmptyInput)
    else
      var lines := SplitLines(text);
      var tokens := SplitWs(lines[0]);
      if |tokens| != 3 then Failure(MalformedRequestLine)
      else
        var rest := lines[1..];
        var body := Strip(JoinWith("\n", BodyLines(rest)));
        Success(Transcript(RequestLine(tokens[0], tokens[1], tokens[2]), HeadersOf(rest[..HeaderEnd(rest)]), body))
  }

  /** The splitting the button handler does, with the scan loop over the lines. */
  method Split(raw: string) returns (r: Result<Transcript, AnalysisError>)
    ensures r == Transcribe(raw)
  {
    var text := Strip(raw);
    if text == "" {
      return Failure(EmptyInput);
    }
    var lines := SplitLines(text);
    var tokens := SplitWs(lines[0]);
    if |tokens| != 3 {
      return Failure(MalformedRequestLine);
    }
    var headers, bodyLines := ScanLines(lines[1..]);
    var body := Strip(JoinWith("\n", bodyLines));
    r := Success(Transcript(RequestLine(tokens[0], tokens[1], tokens[2]), headers, body));
  }
}
