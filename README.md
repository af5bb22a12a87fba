# HTTP request analyser — a verified model

The repository is a small Streamlit page. The user pastes the text of a raw
HTTP request and presses the analyse button. The page then shows:

- the endpoint (method and path);
- the host;
- a summary of the request's parameters;
- a curl command line that repeats the request;
- a two-column markdown table of the parameters.

This project models that analysis and proves what it computes. The Python
code is `request_parsing.py`: the helper `format_cmd_arg` and the body of the
button handler.

- `Text` (text.dfy) models the Python string methods the analysis uses:
  `strip`, `split()`, `split(c)`, `splitlines`, `join`, `lower`, `replace`
  and the search behind `split(":", 1)`. `IsSpace` and `IsLineBreak` list
  Python's whitespace and line-break characters.
- `OrderedMap` (ordered_map.dfy) models Python's insertion-ordered `dict` as
  a sequence of entries. Assigning to a key that is already present keeps the
  key where it was first inserted.
- `Splitter` (splitter.dfy) strips the text and cuts it into lines. The first
  line is the request line and must be exactly three tokens. `ScanLines` is
  the loop with the `is_body` flag: before the first blank line, lines with a
  colon become headers; every line after it is body.
- `FormEncoding` (form_encoding.dfy) cuts the request target into path and
  query. It decodes query or form text the way `parse_qs` does, then
  collapses a single value to a scalar. It also has an encoder, used only to
  prove that decoding inverts it.
- `Resolver` (resolver.dfy) normalises the `Content-Type` value. It merges
  the body's parameters over the query's through successive dict updates.
- `Reproducer` (reproducer.dfy) holds the summary, the quoting helper, the
  curl loop and the markdown table loop.
- `Analyzer` (analyzer.dfy) chains the pieces and gives either the five
  outputs and the parameters, or one of the two failures.

Two functions are parameters of the analysis, in the datatype `Foreign`:

- `json.loads`, as a decoder that yields an object's members or `None` for a
  decode error;
- Python's `str` of a list of strings.

## Model

| member | source | states |
|---|---|---|
| Text.Strip | request_parsing.py:99-106 | `strip` gives the empty text exactly for whitespace-only text; otherwise the result neither starts nor ends with whitespace |
| Text.StripSlice | request_parsing.py:106 | `strip` removes only whitespace, and only at the two ends: the result is a slice of the text with whitespace on both sides |
| Text.SplitWs | request_parsing.py:108 | `split()` gives non-empty tokens free of whitespace, and no token exactly for whitespace-only text |
| Text.SplitWsSpace | request_parsing.py:108 | `split()` at a whitespace character splits the two sides on their own and concatenates the tokens |
| Text.SplitWsWord | request_parsing.py:108 | `split()` of a non-empty word without whitespace is that one word |
| Text.SplitLines | request_parsing.py:106 | `splitlines` gives no line exactly for empty text; the first line runs to the first line break; no line holds a line break |
| Text.SplitLinesFeed | request_parsing.py:106 | `splitlines` of a line without breaks, `\n` and the rest is that line followed by the lines of the rest |
| Text.SplitLinesBreak | request_parsing.py:106 | `splitlines` ends the first line at any line break and splits the rest on its own; only `\r` followed by `\n` is one break of two characters |
| Text.SplitLinesCrLf | request_parsing.py:106 | `\r\n` is a single line break: the same holds for it as for `\n` |
| Text.SplitLinesOne | request_parsing.py:106 | `splitlines` of non-empty text without breaks is that one line |
| Text.Find | request_parsing.py:119-120 | the index of the first occurrence, with none before it; the length exactly when the character is absent |
| Text.FindFirst | request_parsing.py:119-120 | an occurrence with none before it is the one the search finds |
| Text.FindAfter | request_parsing.py:119-120 | in a concatenation whose first part lacks the character, the search finds it where the second part's search does, shifted by the first part's length |
| Text.SplitOn | request_parsing.py:134 | `split(c)` gives at least one piece, and no piece holds `c` |
| Text.SplitOnJoin | request_parsing.py:134 | joining the pieces of `split(c)` with `c` gives back the text |
| Text.JoinSplitOn | request_parsing.py:183 | splitting the join of `c`-free parts at `c` gives back exactly those parts |
| Text.JoinCount | request_parsing.py:183 | joining `n` parts free of `c` with `c` leaves `n - 1` occurrences of `c` |
| Text.Lower | request_parsing.py:134 | `lower` keeps the length and lower-cases every character on its own |
| Text.LowerKeeps | request_parsing.py:134 | lower-casing neither adds nor removes a character that is not a letter |
| Text.StripClean | request_parsing.py:134 | text without whitespace at either end is its own `strip` |
| Text.Replace | request_parsing.py:171 | `replace` leaves text without the pattern unchanged |
| Text.ReplaceAppend | request_parsing.py:171 | `replace` of a single character works on each part of a concatenation on its own |
| Text.ReplaceChar | request_parsing.py:171 | `replace` turns the pattern character into the replacement and keeps any other character |
| Text.ReplaceLength | request_parsing.py:171 | each occurrence of the pattern changes the length by the replacement's length minus one |
| OrderedMap.Lookup | request_parsing.py:134 | `d.get(k)` is absent exactly when `k` is not a key, and otherwise is a value stored under `k` |
| OrderedMap.Put | request_parsing.py:121 | `d[k] = v` adds an entry exactly when `k` is not yet a key |
| OrderedMap.PutKeys | request_parsing.py:121 | `d[k] = v` keeps the keys and their order when `k` is present, and otherwise appends `k` |
| OrderedMap.PutLookup | request_parsing.py:121 | after `d[k] = v`, `k` gives `v` and every other key gives what it gave before |
| OrderedMap.PutAll | request_parsing.py:132-146 | `d.update(ps)` drops no entry and adds at most one per pair |
| OrderedMap.PutAllLookup | request_parsing.py:132-146 | after `d.update(ps)`, a key of `ps` gives its last value in `ps`; any other key keeps its value |
| OrderedMap.PutAllKeys | request_parsing.py:132-146 | the keys after `d.update(ps)` are the first occurrences of the old keys followed by those of `ps` |
| OrderedMap.PutAllPrefix | request_parsing.py:132-146 | the keys of `d` stay at the front, in their order, through `d.update(ps)` |
| OrderedMap.PutAllFirstOccurrences | request_parsing.py:132-146 | on a dict whose keys are the first occurrences of some names, `d.update(ps)` leaves the first occurrences of those names followed by the keys of `ps` |
| OrderedMap.DistinctPutAll | request_parsing.py:129-132 | updating an empty dict with entries whose keys are distinct gives those entries |
| OrderedMap.FirstOccurrencesMembers | request_parsing.py:121 | the first occurrences contain exactly the elements met, each once |
| OrderedMap.MapValues | request_parsing.py:132 | the dict comprehension keeps every key in place and applies the function to its value |
| OrderedMap.MapValuesLookup | request_parsing.py:132 | mapping the values keeps the keys, and each key gives its mapped value |
| Splitter.RequestLineText | request_parsing.py:106-107 | the request line is empty exactly for whitespace-only text, holds no line break, and is the first line |
| Splitter.HeaderEnd | request_parsing.py:113-117 | the header section ends at a blank line, or at the end of the lines |
| Splitter.HeaderEndFirst | request_parsing.py:113-117 | no line before the end of the header section is blank: the section ends at the first blank line |
| Splitter.BodyLines | request_parsing.py:113-117 | the body lines are exactly the lines after the first blank line, later blank lines and colon lines included, and none when no line is blank |
| Splitter.BodyAfterBlank | request_parsing.py:113-117 | header lines without a blank one, a blank line and any rest: the header section ends at that blank line and the body is exactly the rest |
| Splitter.ThreeTokens | request_parsing.py:107-108 | a request line of three words without whitespace, separated by spaces, splits into those three words |
| Splitter.Field | request_parsing.py:119-121 | a line without a colon gives no field; otherwise it splits at its first colon into a trimmed name and a trimmed value |
| Splitter.HeaderMap | request_parsing.py:110-121 | a header name gives the value of its last field; names occur once each, in the order first met |
| Splitter.HeadersSnoc | request_parsing.py:119-121 | one more header-section line assigns its trimmed name and value when it has a colon, and leaves the headers unchanged otherwise |
| Splitter.ScanLine | request_parsing.py:113-121 | one turn of the `is_body` loop keeps what the scan holds: the flag is on exactly after the first blank line, the headers are those of the header-section lines seen, the body is the lines seen after the blank one |
| Splitter.ScanLines | request_parsing.py:110-121 | the `is_body` loop yields the headers of the lines before the first blank line and every line after it as body |
| Splitter.Transcribe | request_parsing.py:99-123 | whitespace-only text fails as empty input; a request line that is not three tokens fails as malformed; otherwise the three tokens are the method, target and version |
| Splitter.Split | request_parsing.py:99-123 | the splitting with the scan loop gives the transcript `Transcribe` describes |
| FormEncoding.SplitTarget | request_parsing.py:128 | the path is the target up to its first `?` or `#`, and that character follows it when the path is not the whole target; the query is the text after that `?` up to `#`, or empty |
| FormEncoding.TargetPathOnly | request_parsing.py:128 | a path without `?`, alone or followed by `#` and a fragment, is the whole path with an empty query |
| FormEncoding.TargetRoundTrip | request_parsing.py:128 | a path and a query joined by `?`, with or without a fragment, split back into that path and query |
| FormEncoding.Unquote | request_parsing.py:132 | text without `%` is unchanged, and decoding never lengthens the text |
| FormEncoding.UnquoteEscape | request_parsing.py:132 | `%` and two hex digits decode to the character with that code, and the rest decodes on its own |
| FormEncoding.UnquoteKeeps | request_parsing.py:132 | a character that does not start a valid escape is kept, and the rest decodes on its own |
| FormEncoding.DecodePair | request_parsing.py:132 | a piece is dropped exactly when it has no `=` or nothing after its first `=`; otherwise the name is the decoded text before the first `=` and the value the decoded text after it |
| FormEncoding.Group | request_parsing.py:132 | grouping gives no more names than pairs, and none exactly when there are no pairs |
| FormEncoding.Collapse | request_parsing.py:132 | a single value becomes a scalar holding it; any other number of values stays the list of those values |
| FormEncoding.ValuesOf | request_parsing.py:132 | a name has no values exactly when it is not in the pairs, and its last value is the one `get` gives |
| FormEncoding.GroupLookup | request_parsing.py:132 | grouping gives each name the list of all its values, in order |
| FormEncoding.GroupKeys | request_parsing.py:132 | grouping keeps the names in the order of their first pair |
| FormEncoding.FormParamsLookup | request_parsing.py:132 | a decoded name is a scalar exactly when it has one value and a list of all its values otherwise; the names keep first-seen order |
| FormEncoding.UnquoteQuote | request_parsing.py:132 | `unquote_plus` undoes the percent-escaping of the separators, `%` and `+` |
| FormEncoding.UnquoteQuoted | request_parsing.py:132 | percent-decoding undoes percent-escaping |
| FormEncoding.DecodeEncodedPair | request_parsing.py:132 | an encoded `name=value` piece with a non-empty value decodes to its pair |
| FormEncoding.FormRoundTrip | request_parsing.py:132 | decoding form-encoded pairs gives back exactly those pairs, in order, when no value is empty |
| Resolver.MediaType | request_parsing.py:134 | the media type is the text before the first `;`, stripped and lower-cased: it holds no `;` and no upper-case letter, does not start or end with whitespace, and is empty for an empty value |
| Resolver.JsonBodyLookup | request_parsing.py:137-142 | a JSON-object body gives exactly its member names, each with the parameter of its value: a JSON string becomes a scalar, any other value its shown text |
| Resolver.MediaTypeParameters | request_parsing.py:134 | parameters after a `;` never change the media type |
| Resolver.ContentType | request_parsing.py:134 | the content type is read under exactly the key `Content-Type`, with the empty text when that header is missing |
| Resolver.BodyParams | request_parsing.py:137-146 | a body gives parameters exactly when it is non-empty and is either a JSON object under the JSON media type or form text under the form media type; form text gives its decoded parameters, a JSON object its own member names |
| Resolver.MediaTypeIdempotent | request_parsing.py:134 | normalising a media type a second time changes nothing |
| Resolver.ResolveParams | request_parsing.py:128-146 | the in-place updates of the dict give the query's parameters updated with the body's |
| Resolver.MergeBody | request_parsing.py:137-146 | the body step assigns the parameters of a non-empty JSON-object or form-encoded body over the ones so far, and nothing otherwise |
| Resolver.ResolvedLookup | request_parsing.py:129-146 | a body parameter overrides a query parameter, never the reverse; query names stay first, body names follow in order met, each once |
| Resolver.SkippedBody | request_parsing.py:137-146 | an empty body, another media type, a JSON decode error or a JSON non-object leaves exactly the query's parameters |
| Reproducer.QuoteArg | request_parsing.py:12-15 | `format_cmd_arg` adds the same quote at both ends of the unchanged value: `'` exactly when the value holds `"`, `"` otherwise |
| Reproducer.QuoteArgDelimits | request_parsing.py:12-15 | the chosen quote occurs inside the value exactly when the value holds both kinds of quote |
| Reproducer.KeptMembers | request_parsing.py:166-168 | a header reaches the command exactly when its lower-cased name is neither `host` nor `content-length` |
| Reproducer.KeptAppend | request_parsing.py:166-168 | the headers kept from a concatenation are those kept from each part, in order |
| Reproducer.CurlStep | request_parsing.py:166-169 | one turn of the header loop appends the header's `-H` argument unless the header is skipped |
| Reproducer.BuildCurl | request_parsing.py:162-174 | the loop over the headers yields the parts of the command joined by single spaces |
| Reproducer.CurlShape | request_parsing.py:162-172 | the command is the request to `https://` + host + target, one `-H` per kept header in map order, and `--data-raw` exactly when there is a body, whose quoted text unescapes to the body |
| Reproducer.UnescapeEscape | request_parsing.py:171 | dropping the backslash put before each backtick gives back the body |
| Reproducer.ParamsDisplay | request_parsing.py:153-157 | the summary is `-` exactly when there are no parameters, and otherwise starts with the first parameter's item |
| Reproducer.Items | request_parsing.py:157 | one summary item per parameter, in map order, with the name in bold and the value as code |
| Reproducer.Rows | request_parsing.py:181-182 | one `| name | value |` row per parameter, in map order |
| Reproducer.BuildTable | request_parsing.py:179-185 | the loop over the parameters yields the header, the rule and the rows joined by line feeds, or the empty text |
| Reproducer.TableEmpty | request_parsing.py:179-185 | the table is empty exactly when there are no parameters |
| Reproducer.TableLines | request_parsing.py:179-183 | when no name or shown value holds a line feed, the table's lines are the header, the rule and one row per parameter: `n + 1` line feeds |
| Analyzer.Endpoint | request_parsing.py:152 | the endpoint is the method, a space, and the target's path, which is a prefix of the target without `?` or `#` and ends where the target does or at its first `?` or `#` |
| Analyzer.HostOf | request_parsing.py:151 | the host is `-` when there is no `Host` header, and otherwise a value stored under `Host` |
| Analyzer.Outcome | request_parsing.py:99-185 | whitespace-only text and a malformed request line fail, each exactly in its case; any other text gives a result exactly when it splits |
| Analyzer.Analyze | request_parsing.py:99-185 | the button handler, with its loops, gives the outcome `Outcome` describes: the failures, or the outputs its components compute from the split request and resolved parameters |

## Left out

- The Streamlit page is not modelled: the page setup, the text area, the buttons, the warning and error messages and the `render_*` functions. These are presentation.
- The session state is not modelled. After a failed analysis the page still shows the previous result; `Analyze` models only the result of one analysis.
- The clipboard button's HTML and JavaScript are not modelled. They are browser-side code.
- `json.loads` is a parameter. Two of its failures are not decode errors: a `RecursionError` on very deeply nested JSON, and the `ValueError` for an integer literal longer than Python's digit limit (4300 digits by default). Either one ends the whole analysis with an error. The decoder parameter has no such outcome, so the model gives a result where the handler reports an error.
- Python's `str` of a list, and of JSON values that are not strings, is a parameter (`ListShow`, `JOther`). Its repr rules are not modelled.
- SplitTarget: reads the target as a plain split at `#` and then `?`. A scheme, a `//` network location and `;` path parameters are not split off as `urlparse` would. Leading control characters are not removed as `urlparse` would. For a `//` target whose network location has an unmatched `[` or `]`, `urlparse` raises a `ValueError` ("Invalid IPv6 URL"), which ends the analysis with an error; the model splits such a target like any other and gives a result.
- FormEncoding.Unquote: decodes `%XX` to the character with code `XX`. Python decodes escape sequences as UTF-8 bytes, so escapes above `%7F` give different text.
- Text.Lower: lower-cases ASCII letters only. The only comparisons made are with `host`, `content-length`, `application/json` and `application/x-www-form-urlencoded`, so their outcome is the same as with full Unicode lower-casing.
- Reproducer.QuoteArg: no claim that the command is safe for a shell. A value holding both kinds of quote breaks the quoting (`QuoteArgDelimits`). A backslash before a backtick has no escaping effect between single quotes.
