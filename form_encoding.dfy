/**
 * The request target and `application/x-www-form-urlencoded` text: the
 * target is cut into path and query the way `urlparse` does for an
 * origin-form target, and query or form text is decoded the way
 * `parse_qs` does with its defaults, then each name's value list is
 * collapsed to a scalar when it holds one value.
 */
module FormEncoding {
  import opened Wrappers
  import opened Text
  import opened OrderedMap

  /** A parameter value: one string, several strings, or a JSON value shown as Python's `str` shows it. */
  datatype ParamValue = Scalar(text: string) | Many(values: seq<string>) | Json(shown: string)

  /** Parameter name to value, in insertion order. */
  type Params = Entries<ParamValue>

  datatype Target = Target(path: string, query: string)

  /**
   * The path is the target up to its first `?` or `#`; the query is what
   * follows that `?` up to the first `#`, and is empty when no `?` comes
   * before the fragment.
   */
  function SplitTarget(target: string): (t: Target)
    ensures |t.path| <= |target| && t.path == target[..|t.path|] && '?' !in t.path && '#' !in t.path
    ensures |t.path| < |target| ==> target[|t.path|] == '?' || target[|t.path|] == '#'
    ensures |t.path| < |target| && target[|t.path|] == '?' ==>
      var after := target[|t.path| + 1..];
      && |t.query| <= |after| && after[..|t.query|] == t.query && '#' !in t.query
      && (|t.query| == |after| || after[|t.query|] == '#')
    ensures !(|t.path| < |target| && target[|t.path|] == '?') ==> t.query == ""
  {
    var h := Find(target, '#');
    var beforeFragment := target[..h];
    var q := Find(beforeFragment, '?');
    var path := target[..q];
    assert path == beforeFragment[..q];
    if q < h then
      assert target[q + 1..][..h - q - 1] == beforeFragment[q + 1..];
      Target(path, beforeFragment[q + 1..])
    else
      Target(path, "")
  }

  predicate IsHexDigit(c: char) {
    '0' <= c <= '9' || 'a' <= c <= 'f' || 'A' <= c <= 'F'
  }

  function HexValue(c: char): (n: nat)
    requires IsHexDigit(c)
    ensures n < 16
  {
    if '0' <= c <= '9' then c as int - '0' as int
    else if 'a' <= c <= 'f' then c as int - 'a' as int + 10
    else c as int - 'A' as int + 10
  }

  /**
   * `unquote`: every `%` followed by two hex digits becomes the character
   * with that code; any other `%` stays as it is.
   */
  function Unquote(s: string): (r: string)
    ensures '%' !in s ==> r == s
    ensures |r| <= |s|
  {
    if s == [] then []
    else if s[0] == '%' && |s| >= 3 && IsHexDigit(s[1]) && IsHexDigit(s[2]) then
      [(HexValue(s[1]) * 16 + HexValue(s[2])) as char] + Unquote(s[3..])
    else
      [s[0]] + Unquote(s[1..])
  }

  /** `unquote_plus`: `+` means a space, then percent escapes are decoded. */
  function UnquotePlus(s: string): string {
    Unquote(Replace(s, '+', " "))
  }

  /**
   * One `&`-separated piece: split at its first `=` and decoded; `None` when
   * there is no `=` or the value is blank (`keep_blank_values` is false).
   */
  function DecodePair(piece: string): (p: Option<(string, string)>)
    ensures p.None? <==> '=' !in piece || piece[Find(piece, '=') + 1..] == ""
    ensures p.Some? ==> var i := Find(piece, '=');
      && i < |piece| && piece[i] == '=' && '=' !in piece[..i]
      && p.value == (UnquotePlus(piece[..i]), UnquotePlus(piece[i + 1..]))
  {
    var i := Find(piece, '=');
    if i >= |piece| - 1 then None
    else Some((UnquotePlus(piece[..i]), UnquotePlus(piece[i + 1..])))
  }

  /** The decoded pairs of the pieces, in order, pieces without a pair dropped. */
  function DecodePairs(pieces: seq<string>): seq<(string, string)>
  {
    if pieces == [] then []
    else
      DecodePairs(pieces[..|pieces| - 1])
      + match DecodePair(pieces[|pieces| - 1]) case Some(p) => [p] case None => []
  }

  /** `parse_qsl(qs)`: the name/value pairs of form-encoded text. */
  function QueryPairs(qs: string): seq<(string, string)> {
    DecodePairs(SplitOn(qs, '&'))
  }

  /** The values given for `name`, in order. */
  function ValuesOf(ps: seq<(string, string)>, name: string): (vs: seq<string>)
    ensures vs == [] <==> name !in Keys(ps)
    ensures vs != [] ==> Lookup(ps, name) == Some(vs[|vs| - 1])
  {
    if ps == [] then []
    else
      var (n, v) := ps[|ps| - 1];
      assert Keys(ps) == Keys(ps[..|ps| - 1]) + [n];
      ValuesOf(ps[..|ps| - 1], name) + if n == name then [v] else []
  }

  /**
   * `parse_qs`' grouping: a name met for the first time gets the list of
   * its value; a name met again has the value appended to its list.
   */
  function Group(ps: seq<(string, string)>): (r: Entries<seq<string>>)
    ensures |r| <= |ps|
    ensures r == [] <==> ps == []
  {
    if ps == [] then []
    else
      var g := Group(ps[..|ps| - 1]);
      var (n, v) := ps[|ps| - 1];
      Put(g, n, Lookup(g, n).GetOr([]) + [v])
  }

  /** `v[0] if len(v) == 1 else v`: one value is a scalar, more are a list. */
  function Collapse(vs: seq<string>): (v: ParamValue)
    ensures !v.Json?
    ensures v.Scalar? <==> |vs| == 1
    ensures v.Scalar? ==> [v.text] == vs
    ensures v.Many? ==> v.values == vs
  {
    if |vs| == 1 then Scalar(vs[0]) else Many(vs)
  }

  /** The parameters of form-encoded text. */
  function FormParams(qs: string): Params {
    MapValues(Group(QueryPairs(qs)), Collapse)
  }

  // ---------------------------------------------------------------- lemmas

  /** A path alone, or a path and a fragment after `#`, has an empty query. */
  lemma TargetPathOnly(path: string, fragment: string)
    requires '?' !in path && '#' !in path
    ensures SplitTarget(path) == Target(path, "")
    ensures SplitTarget(path + "#" + fragment) == Target(path, "")
  {
    CutAt(path, '#', fragment);
  }

  /** A path and a query joined by `?`, with or without a fragment after `#`, split back into the two. */
  lemma TargetRoundTrip(path: string, query: string, fragment: string)
    requires '?' !in path && '#' !in path && '#' !in query
    ensures SplitTarget(path + "?" + query) == Target(path, query)
    ensures SplitTarget(path + "?" + query + "#" + fragment) == Target(path, query)
  {
    CutAt(path, '?', query);
    QueryBeforeFragment(path, query, fragment);
  }

  /** The fragment after the query is dropped. */
  lemma QueryBeforeFragment(path: string, query: string, fragment: string)
    requires '?' !in path && '#' !in path && '#' !in query
    ensures SplitTarget(path + "?" + query + "#" + fragment) == Target(path, query)
  {
    CutAt(path + "?" + query, '#', fragment);
    CutAt(path, '?', query);
  }

  /**
   * After grouping, each name gives the list of all its values in order, and
   * the names stand in the order of their first pair.
   */
  lemma {:induction false} GroupLookup(ps: seq<(string, string)>, name: string)
    ensures Lookup(Group(ps), name) == if name in Keys(ps) then Some(ValuesOf(ps, name)) else None
    decreases |ps|
  {
    if ps != [] {
      var init := ps[..|ps| - 1];
      var (n, v) := ps[|ps| - 1];
      var g := Group(init);
      var vs := Lookup(g, n).GetOr([]) + [v];
      assert Group(ps) == Put(g, n, vs);
      assert ValuesOf(ps, name) == ValuesOf(init, name) + if n == name then [v] else [];
      assert Keys(ps) == Keys(init) + [n];
      GroupLookup(init, name);
      PutLookup(g, n, vs, name);
      if name == n {
        assert vs == ValuesOf(init, n) + [v];
        assert name in Keys(ps);
      } else {
        assert Lookup(Group(ps), name) == Lookup(g, name);
        assert ValuesOf(ps, name) == ValuesOf(init, name);
        assert name in Keys(ps) <==> name in Keys(init);
      }
    }
  }

  lemma {:induction false} GroupKeys(ps: seq<(string, string)>)
    ensures Keys(Group(ps)) == FirstOccurrences(Keys(ps))
    decreases |ps|
  {
    if ps != [] {
      var init := ps[..|ps| - 1];
      var (n, v) := ps[|ps| - 1];
      GroupKeys(init);
      var g := Group(init);
      PutFirstOccurrences(g, Keys(init), n, Lookup(g, n).GetOr([]) + [v]);
      KeysSnoc(ps);
    }
  }

  /**
   * A name of form-encoded text is a scalar exactly when it has one value,
   * and a list of all its values, in order, when it has several; the names
   * occur once each, in the order they first appear.
   */
  lemma FormParamsLookup(qs: string, name: string)
    ensures var vs := ValuesOf(QueryPairs(qs), name);
      Lookup(FormParams(qs), name) ==
        if vs == [] then None else if |vs| == 1 then Some(Scalar(vs[0])) else Some(Many(vs))
    ensures Keys(FormParams(qs)) == FirstOccurrences(Keys(QueryPairs(qs)))
  {
    var ps := QueryPairs(qs);
    GroupLookup(ps, name);
    GroupKeys(ps);
    MapValuesLookup(Group(ps), Collapse, name);
  }

  // ------------------------------------------ encoding, the decoder's inverse

  /** The characters a form encoder must escape: the two separators, `%` and `+`. */
  predicate Reserved(c: char) {
    c == '%' || c == '&' || c == '=' || c == '+'
  }

  function HexDigit(n: nat): (c: char)
    requires n < 16
    ensures IsHexDigit(c) && HexValue(c) == n
  {
    if n < 10 then ('0' as int + n) as char else ('A' as int + n - 10) as char
  }

  /** Percent-escapes the reserved characters and keeps every other one. */
  function Quote(s: string): (r: string)
    ensures |r| >= |s|
    ensures '&' !in r && '=' !in r && '+' !in r
  {
    if s == [] then []
    else
      var c := s[0];
      (if Reserved(c) then ['%', HexDigit(c as int / 16), HexDigit(c as int % 16)] else [c]) + Quote(s[1..])
  }

  /** One encoded `name=value` piece. */
  function EncodePair(p: (string, string)): string {
    Quote(p.0) + "=" + Quote(p.1)
  }

  function EncodePieces(ps: seq<(string, string)>): (pieces: seq<string>)
    ensures |pieces| == |ps|
    ensures forall i :: 0 <= i < |ps| ==> pieces[i] == EncodePair(ps[i])
  {
    if ps == [] then [] else EncodePieces(ps[..|ps| - 1]) + [EncodePair(ps[|ps| - 1])]
  }

  /** Form-encodes name/value pairs: `name=value` pieces joined with `&`. */
  function FormEncode(ps: seq<(string, string)>): string {
    JoinWith("&", EncodePieces(ps))
  }

  /** Decoding undoes the escaping. */
  lemma UnquoteQuote(s: string)
    ensures UnquotePlus(Quote(s)) == s
  {
    assert Replace(Quote(s), '+', " ") == Quote(s);
    UnquoteQuoted(s);
  }

  lemma {:induction false} UnquoteQuoted(s: string)
    ensures Unquote(Quote(s)) == s
    decreases |s|
  {
    if s != [] {
      var c := s[0];
      var rest := Quote(s[1..]);
      UnquoteQuoted(s[1..]);
      if Reserved(c) {
        EscapeDecodes(c, rest);
      } else {
        assert Quote(s) == [c] + rest;
        assert ([c] + rest)[1..] == rest;
      }
    }
  }

  /** The escape of a reserved character decodes to that character. */
  lemma EscapeDecodes(c: char, rest: string)
    requires Reserved(c)
    ensures var e := ['%', HexDigit(c as int / 16), HexDigit(c as int % 16)];
      Unquote(e + rest) == [c] + Unquote(rest)
  {
    var hi, lo := HexDigit(c as int / 16), HexDigit(c as int % 16);
    UnquoteEscape(hi, lo, rest);
    assert (c as int / 16) * 16 + c as int % 16 == c as int;
  }

  /** `%` and two hex digits decode to the character with that code; the rest is decoded on its own. */
  lemma UnquoteEscape(hi: char, lo: char, rest: string)
    requires IsHexDigit(hi) && IsHexDigit(lo)
    ensures Unquote(['%', hi, lo] + rest) == [(HexValue(hi) * 16 + HexValue(lo)) as char] + Unquote(rest)
  {
    assert (['%', hi, lo] + rest)[3..] == rest;
  }

  /** Any character that does not start an escape is kept; the rest is decoded on its own. */
  lemma UnquoteKeeps(c: char, rest: string)
    requires c != '%' || |rest| < 2 || !IsHexDigit(rest[0]) || !IsHexDigit(rest[1])
    ensures Unquote([c] + rest) == [c] + Unquote(rest)
  {
    assert ([c] + rest)[1..] == rest;
  }

  /** An encoded piece decodes to its pair when the value is not blank. */
  lemma DecodeEncodedPair(p: (string, string))
    requires p.1 != ""
    ensures DecodePair(EncodePair(p)) == Some(p)
  {
    var k := Quote(p.0);
    var w := Quote(p.1);
    CutAt(k, '=', w);
    assert EncodePair(p) == k + ['='] + w;
    UnquoteQuote(p.0);
    UnquoteQuote(p.1);
  }

  lemma {:induction false} DecodeEncodedPieces(ps: seq<(string, string)>)
    requires forall i :: 0 <= i < |ps| ==> ps[i].1 != ""
    ensures DecodePairs(EncodePieces(ps)) == ps
    decreases |ps|
  {
    if ps != [] {
      var init := ps[..|ps| - 1];
      DecodeEncodedPieces(init);
      DecodeEncodedPair(ps[|ps| - 1]);
      var pieces := EncodePieces(ps);
      assert pieces[..|pieces| - 1] == EncodePieces(init);
      assert DecodePairs(pieces) == init + [ps[|ps| - 1]];
      InitLast(ps);
    }
  }

  /**
   * Round trip: decoding form-encoded pairs gives back exactly those pairs,
   * in order, as long as no value is blank (blank values are dropped).
   */
  lemma FormRoundTrip(ps: seq<(string, string)>)
    requires forall i :: 0 <= i < |ps| ==> ps[i].1 != ""
    ensures QueryPairs(FormEncode(ps)) == ps
  {
    if ps == [] {
      assert SplitOn("", '&') == [""];
      assert DecodePair("") == None;
      assert DecodePairs([""]) == DecodePairs([]) + [];
    } else {
      var pieces := EncodePieces(ps);
      forall i | 0 <= i < |pieces| ensures '&' !in pieces[i] {
        assert pieces[i] == Quote(ps[i].0) + "=" + Quote(ps[i].1);
      }
      JoinSplitOn(pieces, '&');
      DecodeEncodedPieces(ps);
    }
  }

  lemma InitLast<T>(s: seq<T>)
    requires s != []
    ensures s[..|s| - 1] + [s[|s| - 1]] == s
  {
  }
}
