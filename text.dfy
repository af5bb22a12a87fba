/**
 * The Python `str` operations the analyser relies on, over `string`
 * (`seq<char>`): `strip`, `split()` and `split(sep)`, `splitlines`, `join`,
 * `lower`, `replace` and `split(sep, 1)`.
 */
module Text {

  /** Python's `str.isspace` for one character. */
  predicate IsSpace(c: char) {
    c == ' ' || ('\t' <= c <= '\r') || ('\U{1C}' <= c <= '\U{1F}')
    || c == '\U{85}' || c == '\U{A0}' || c == '\U{1680}'
    || ('\U{2000}' <= c <= '\U{200A}') || c == '\U{2028}' || c == '\U{2029}'
    || c == '\U{202F}' || c == '\U{205F}' || c == '\U{3000}'
  }

  /** The characters at which Python's `str.splitlines` breaks a line. */
  predicate IsLineBreak(c: char) {
    c == '\n' || c == '\r' || c == '\U{0B}' || c == '\U{0C}'
    || ('\U{1C}' <= c <= '\U{1E}') || c == '\U{85}' || c == '\U{2028}' || c == '\U{2029}'
  }

  predicate AllSpace(s: string) {
    forall i :: 0 <= i < |s| ==> IsSpace(s[i])
  }

  predicate NoSpace(s: string) {
    forall i :: 0 <= i < |s| ==> !IsSpace(s[i])
  }

  predicate NoLineBreak(s: string) {
    forall i :: 0 <= i < |s| ==> !IsLineBreak(s[i])
  }

  /** Number of whitespace characters at the start of `s`. */
  function LeadingSpace(s: string): (n: nat)
    ensures n <= |s| && AllSpace(s[..n])
    ensures n < |s| ==> !IsSpace(s[n])
  {
    if s != [] && IsSpace(s[0]) then 1 + LeadingSpace(s[1..]) else 0
  }

  /** Index just past the last character of `s[lo..]` that is not whitespace, or `lo`. */
  function ContentEnd(s: string, lo: nat): (n: nat)
    requires lo <= |s|
    ensures lo <= n <= |s| && AllSpace(s[n..])
    ensures n > lo ==> !IsSpace(s[n - 1])
    decreases |s|
  {
    if |s| == lo then lo
    else if IsSpace(s[|s| - 1]) then
      var n := ContentEnd(s[..|s| - 1], lo);
      assert s[n..] == s[..|s| - 1][n..] + [s[|s| - 1]];
      n
    else |s|
  }

  /**
   * Python's `s.strip()`: `s` without the whitespace around it (see
   * `StripSlice`); the result neither starts nor ends with whitespace.
   */
  function Strip(s: string): (r: string)
    ensures r == [] <==> AllSpace(s)
    ensures r != [] ==> !IsSpace(r[0]) && !IsSpace(r[|r| - 1])
  {
    var i := LeadingSpace(s);
    var j := ContentEnd(s, i);
    assert AllSpace(s) ==> j == i;
    assert i == j ==> s == s[..i] + s[j..];
    s[i..j]
  }

  /** Length of the leading run of characters that are not whitespace. */
  function WordLength(s: string): (n: nat)
    ensures n <= |s| && NoSpace(s[..n])
    ensures n < |s| ==> IsSpace(s[n])
  {
    if s == [] || IsSpace(s[0]) then 0 else 1 + WordLength(s[1..])
  }

  /**
   * Python's `s.split()` with no argument: the maximal runs of characters
   * that are not whitespace, in order.
   */
  function SplitWs(s: string): (r: seq<string>)
    ensures forall i :: 0 <= i < |r| ==> r[i] != [] && NoSpace(r[i])
    ensures r == [] <==> AllSpace(s)
    decreases |s|
  {
    if s == [] then []
    else if IsSpace(s[0]) then SplitWs(s[1..])
    else
      var n := WordLength(s);
      [s[..n]] + SplitWs(s[n..])
  }

  /** Length of the leading run of characters that do not break a line. */
  function LineEnd(s: string): (n: nat)
    ensures n <= |s| && NoLineBreak(s[..n])
    ensures n < |s| ==> IsLineBreak(s[n])
  {
    if s == [] || IsLineBreak(s[0]) then 0 else 1 + LineEnd(s[1..])
  }

  /**
   * Python's `s.splitlines()`: the text between line breaks, `\r\n` counting
   * as one break, with no empty line after a final break.
   */
  function SplitLines(s: string): (r: seq<string>)
    ensures r == [] <==> s == []
    ensures r != [] ==> r[0] == s[..LineEnd(s)]
    ensures forall i :: 0 <= i < |r| ==> NoLineBreak(r[i])
    decreases |s|
  {
    if s == [] then []
    else
      var n := LineEnd(s);
      if n == |s| then [s]
      else
        var skip := if s[n] == '\r' && n + 1 < |s| && s[n + 1] == '\n' then 2 else 1;
        [s[..n]] + SplitLines(s[n + skip..])
  }

  /** Python's `sep.join(parts)`. */
  function JoinWith(sep: string, parts: seq<string>): string
  {
    if parts == [] then ""
    else if |parts| == 1 then parts[0]
    else JoinWith(sep, parts[..|parts| - 1]) + sep + parts[|parts| - 1]
  }

  /** Index of the first `c` in `s`, or `|s|` when there is none. */
  function Find(s: string, c: char): (i: nat)
    ensures i <= |s| && c !in s[..i]
    ensures i < |s| ==> s[i] == c
    ensures i == |s| <==> c !in s
  {
    if s == [] then 0
    else if s[0] == c then 0
    else 1 + Find(s[1..], c)
  }

  /** Python's `s.split(c)` for a one-character separator. */
  function SplitOn(s: string, c: char): (r: seq<string>)
    ensures r != []
    ensures forall i :: 0 <= i < |r| ==> c !in r[i]
    decreases |s|
  {
    var i := Find(s, c);
    if i == |s| then [s] else [s[..i]] + SplitOn(s[i + 1..], c)
  }

  /** Number of occurrences of `c` in `s`. */
  function Count(s: string, c: char): nat
  {
    if s == [] then 0 else (if s[0] == c then 1 else 0) + Count(s[1..], c)
  }

  /** Python's `s.lower()` on the ASCII letters; every other character is kept. */
  function Lower(s: string): (r: string)
    ensures |r| == |s|
    ensures forall i :: 0 <= i < |s| ==> r[i] == LowerChar(s[i])
  {
    if s == [] then [] else [LowerChar(s[0])] + Lower(s[1..])
  }

  function LowerChar(c: char): char
  {
    if 'A' <= c <= 'Z' then (c as int - 'A' as int + 'a' as int) as char else c
  }

  /** Python's `s.replace(c, t)` for a one-character pattern `c`. */
  function Replace(s: string, c: char, t: string): (r: string)
    ensures c !in s ==> r == s
  {
    if s == [] then []
    else (if s[0] == c then t else [s[0]]) + Replace(s[1..], c, t)
  }

  // ---------------------------------------------------------------- lemmas

  /** `strip` removes only whitespace, and only from the two ends. */
  lemma StripSlice(s: string)
    ensures var k := LeadingSpace(s); var r := Strip(s);
      k + |r| <= |s| && r == s[k..k + |r|] && AllSpace(s[..k]) && AllSpace(s[k + |r|..])
  {
  }

  /** Each occurrence of the pattern changes the length by the replacement's length minus one. */
  lemma {:induction false} ReplaceLength(s: string, c: char, t: string)
    ensures |Replace(s, c, t)| == |s| + Count(s, c) * (|t| - 1)
    decreases |s|
  {
    if s != [] {
      var rest := Replace(s[1..], c, t);
      var n := Count(s[1..], c);
      ReplaceLength(s[1..], c, t);
      if s[0] == c {
        assert |Replace(s, c, t)| == |t| + |rest|;
        assert Count(s, c) == 1 + n;
        Distribute(n, |t| - 1);
      } else {
        assert |Replace(s, c, t)| == 1 + |rest|;
        assert Count(s, c) == n;
      }
    }
  }

  lemma Distribute(n: int, k: int)
    ensures (1 + n) * k == k + n * k
  {
  }

  /** `Count` adds up over a concatenation. */
  lemma {:induction false} CountAppend(a: string, b: string, c: char)
    ensures Count(a + b, c) == Count(a, c) + Count(b, c)
    decreases |a|
  {
    if a == [] {
      assert a + b == b;
    } else {
      assert (a + b)[1..] == a[1..] + b;
      CountAppend(a[1..], b, c);
    }
  }

  lemma CountAbsent(s: string, c: char)
    requires c !in s
    ensures Count(s, c) == 0
  {
    if s != [] {
      assert s[0] != c;
      CountAbsent(s[1..], c);
    }
  }

  /**
   * Joining parts that do not contain `c` with the separator `[c]` leaves one
   * `c` per gap between parts: `|parts| - 1` of them.
   */
  lemma {:induction false} JoinCount(parts: seq<string>, c: char)
    requires parts != []
    requires forall i :: 0 <= i < |parts| ==> c !in parts[i]
    ensures Count(JoinWith([c], parts), c) == |parts| - 1
  {
    if |parts| == 1 {
      CountAbsent(parts[0], c);
    } else {
      var init := parts[..|parts| - 1];
      JoinCount(init, c);
      CountAbsent(parts[|parts| - 1], c);
      CountAppend(JoinWith([c], init), [c], c);
      CountAppend(JoinWith([c], init) + [c], parts[|parts| - 1], c);
      assert Count([c], c) == 1 by {
        assert [c][1..] == [];
      }
    }
  }

  /** `JoinWith` on `parts + [p]` adds the separator and `p` after the join of `parts`. */
  lemma JoinSnoc(sep: string, parts: seq<string>, p: string)
    requires parts != []
    ensures JoinWith(sep, parts + [p]) == JoinWith(sep, parts) + sep + p
  {
    assert (parts + [p])[..|parts|] == parts;
  }

  /** Splitting on `c` and joining with `[c]` gives back the text. */
  lemma {:induction false} SplitOnJoin(s: string, c: char)
    ensures JoinWith([c], SplitOn(s, c)) == s
    decreases |s|
  {
    var i := Find(s, c);
    if i < |s| {
      var rest := SplitOn(s[i + 1..], c);
      assert SplitOn(s, c) == [s[..i]] + rest;
      SplitOnJoin(s[i + 1..], c);
      JoinCons([c], s[..i], rest);
      Reassemble(s, i);
    } else {
      assert SplitOn(s, c) == [s];
    }
  }

  lemma Reassemble(s: string, i: nat)
    requires i < |s|
    ensures s[..i] + [s[i]] + s[i + 1..] == s
  {
  }

  /** `JoinWith` on `[p] + parts` puts `p` and the separator before the join of `parts`. */
  lemma {:induction false} JoinCons(sep: string, p: string, parts: seq<string>)
    requires parts != []
    ensures JoinWith(sep, [p] + parts) == p + sep + JoinWith(sep, parts)
    decreases |parts|
  {
    var all := [p] + parts;
    if |parts| == 1 {
      assert all[..1] == [p];
    } else {
      var init := parts[..|parts| - 1];
      var last := parts[|parts| - 1];
      JoinCons(sep, p, init);
      assert all[..|parts|] == [p] + init;
      assert all[|parts|] == last;
      var j := JoinWith(sep, init);
      assert JoinWith(sep, all) == p + sep + j + sep + last;
      assert JoinWith(sep, parts) == j + sep + last;
    }
  }

  /** Splitting the join of `c`-free parts at `c` gives back the parts. */
  lemma {:induction false} JoinSplitOn(parts: seq<string>, c: char)
    requires parts != []
    requires forall i :: 0 <= i < |parts| ==> c !in parts[i]
    ensures SplitOn(JoinWith([c], parts), c) == parts
    decreases |parts|
  {
    if |parts| == 1 {
      assert Find(parts[0], c) == |parts[0]|;
    } else {
      var rest := parts[1..];
      JoinSplitOn(rest, c);
      assert parts == [parts[0]] + rest;
      JoinCons([c], parts[0], rest);
      SplitOnCons(parts[0], c, JoinWith([c], rest));
    }
  }

  /** Text up to the first separator is the first piece. */
  lemma SplitOnCons(a: string, c: char, b: string)
    requires c !in a
    ensures SplitOn(a + [c] + b, c) == [a] + SplitOn(b, c)
  {
    CutAt(a, c, b);
  }

  /** In `a + [c] + b` with no `c` in `a`, the first `c` sits right after `a`. */
  lemma CutAt(a: string, c: char, b: string)
    requires c !in a
    ensures var s := a + [c] + b;
      Find(s, c) == |a| && s[..|a|] == a && s[|a| + 1..] == b
  {
    var s := a + [c] + b;
    assert s[..|a|] == a;
    assert s[|a| + 1..] == b;
    FindFirst(s, c, |a|);
  }

  /** The search stops at an occurrence with none before it. */
  lemma {:induction false} FindFirst(s: string, c: char, n: nat)
    requires n < |s| && s[n] == c && c !in s[..n]
    ensures Find(s, c) == n
    decreases n
  {
    if n > 0 {
      assert s[0] == s[..n][0];
      assert s[1..][..n - 1] == s[..n][1..];
      FindFirst(s[1..], c, n - 1);
    }
  }

  /** The first `c` of `a + b` is that of `b`, shifted, when `a` has none. */
  lemma {:induction false} FindAfter(a: string, c: char, b: string)
    requires c !in a
    ensures Find(a + b, c) == |a| + Find(b, c)
    decreases |a|
  {
    if a != [] {
      assert (a + b)[1..] == a[1..] + b;
      FindAfter(a[1..], c, b);
    } else {
      assert a + b == b;
    }
  }

  // ------------------------------------------------- split(), splitlines, replace

  /** A whitespace character separates tokens: `split()` of the two sides, concatenated. */
  lemma {:induction false} SplitWsSpace(a: string, c: char, b: string)
    requires IsSpace(c)
    ensures SplitWs(a + [c] + b) == SplitWs(a) + SplitWs(b)
    decreases |a|
  {
    var s := a + [c] + b;
    if a == [] {
      assert s == [c] + b && s[1..] == b;
    } else if IsSpace(a[0]) {
      assert s[1..] == a[1..] + [c] + b;
      SplitWsSpace(a[1..], c, b);
    } else {
      var n := WordLength(a);
      WordLengthSpace(a, c, b);
      assert s[..n] == a[..n];
      assert s[n..] == a[n..] + [c] + b;
      SplitWsSpace(a[n..], c, b);
    }
  }

  /** A word of `a` ends inside `a`, or at the whitespace after it. */
  lemma {:induction false} WordLengthSpace(a: string, c: char, b: string)
    requires IsSpace(c)
    ensures WordLength(a + [c] + b) == WordLength(a)
    decreases |a|
  {
    var s := a + [c] + b;
    if a != [] && !IsSpace(a[0]) {
      assert s[1..] == a[1..] + [c] + b;
      WordLengthSpace(a[1..], c, b);
    } else if a == [] {
      assert s[0] == c;
    }
  }

  /** Non-empty text without whitespace is one token. */
  lemma SplitWsWord(w: string)
    requires w != [] && NoSpace(w)
    ensures SplitWs(w) == [w]
  {
    var n := WordLength(w);
    assert n == |w|;
    assert w[..n] == w && w[n..] == [];
  }

  /** Text after `a` and a line feed is split on its own: `a` is one line. */
  lemma SplitLinesFeed(a: string, b: string)
    requires NoLineBreak(a)
    ensures SplitLines(a + "\n" + b) == [a] + SplitLines(b)
  {
    SplitLinesBreak(a, '\n', b);
  }

  /**
   * Any line break ends the first line and the rest splits on its own,
   * except a `\r` followed by `\n`, which is one break of two characters.
   */
  lemma SplitLinesBreak(a: string, c: char, b: string)
    requires NoLineBreak(a) && IsLineBreak(c)
    requires !(c == '\r' && b != [] && b[0] == '\n')
    ensures SplitLines(a + [c] + b) == [a] + SplitLines(b)
  {
    var s := a + [c] + b;
    LineEndAt(a, [c] + b);
    assert s == a + ([c] + b);
    assert s[..|a|] == a && s[|a|] == c && s[|a| + 1..] == b;
  }

  /** `\r\n` is one line break: `a` is one line and the text after it is split on its own. */
  lemma SplitLinesCrLf(a: string, b: string)
    requires NoLineBreak(a)
    ensures SplitLines(a + "\r\n" + b) == [a] + SplitLines(b)
  {
    var s := a + "\r\n" + b;
    LineEndAt(a, "\r\n" + b);
    assert s == a + ("\r\n" + b);
    assert s[..|a|] == a && s[|a|] == '\r' && s[|a| + 1] == '\n' && s[|a| + 2..] == b;
  }

  /** Non-empty text without a line break is one line. */
  lemma SplitLinesOne(a: string)
    requires a != [] && NoLineBreak(a)
    ensures SplitLines(a) == [a]
  {
    LineEndAt(a, "");
    assert a + "" == a;
  }

  /** The first line of `a + b` ends where `a` ends when `a` has no line break and `b` starts with one. */
  lemma {:induction false} LineEndAt(a: string, b: string)
    requires NoLineBreak(a)
    requires b != [] ==> IsLineBreak(b[0])
    ensures LineEnd(a + b) == |a|
    decreases |a|
  {
    if a == [] {
      assert a + b == b;
    } else {
      assert (a + b)[1..] == a[1..] + b;
      LineEndAt(a[1..], b);
    }
  }

  /** `replace` works character by character: it distributes over concatenation. */
  lemma {:induction false} ReplaceAppend(a: string, b: string, c: char, t: string)
    ensures Replace(a + b, c, t) == Replace(a, c, t) + Replace(b, c, t)
    decreases |a|
  {
    if a == [] {
      assert a + b == b;
    } else {
      assert (a + b)[1..] == a[1..] + b;
      ReplaceAppend(a[1..], b, c, t);
    }
  }

  /** One character: the pattern becomes the replacement, any other character stays. */
  lemma ReplaceChar(d: char, c: char, t: string)
    ensures Replace([d], c, t) == if d == c then t else [d]
  {
    assert [d][1..] == [];
  }

  /** Lower-casing neither adds nor removes a character that is not an upper-case letter. */
  lemma LowerKeeps(s: string, c: char)
    requires !('A' <= c <= 'Z') && !('a' <= c <= 'z')
    ensures c in Lower(s) <==> c in s
  {
    if c in Lower(s) {
      var i :| 0 <= i < |s| && Lower(s)[i] == c;
      assert s[i] == c;
    }
    if c in s {
      var i :| 0 <= i < |s| && s[i] == c;
      assert Lower(s)[i] == c;
    }
  }

  /** Lower-casing leaves no upper-case letter and keeps the ends free of whitespace. */
  lemma LowerEnds(s: string)
    ensures forall i :: 0 <= i < |s| ==> !('A' <= Lower(s)[i] <= 'Z')
    ensures s != [] && !IsSpace(s[0]) ==> !IsSpace(Lower(s)[0])
    ensures s != [] && !IsSpace(s[|s| - 1]) ==> !IsSpace(Lower(s)[|s| - 1])
  {
  }

  /** Text without whitespace at either end is its own `strip`. */
  lemma StripClean(s: string)
    requires s != [] ==> !IsSpace(s[0]) && !IsSpace(s[|s| - 1])
    ensures Strip(s) == s
  {
    if s != [] {
      assert LeadingSpace(s) == 0;
      assert ContentEnd(s, 0) == |s|;
    }
  }

  /** Text without upper-case ASCII letters is its own `lower`. */
  lemma LowerClean(s: string)
    requires forall i :: 0 <= i < |s| ==> !('A' <= s[i] <= 'Z')
    ensures Lower(s) == s
  {
  }
}
