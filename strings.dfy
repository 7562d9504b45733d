/**
 * The JavaScript string built-ins the blog pipeline relies on, over sequences
 * of characters: `trim`, `indexOf`, `split` on one character, `split(/\s+/)`,
 * `replace(/["']/g, '')` and the decimal rendering of a whole number.
 */
module Strings {
  import opened Wrappers

  /**
   * ECMAScript WhiteSpace and LineTerminator code points: the set that both
   * the regular-expression class `\s` and `String.prototype.trim` use.
   */
  predicate IsSpace(c: char) {
    || c == '\t' || c == '\n' || c == '\U{B}' || c == '\U{C}' || c == '\r'
    || c == ' ' || c == '\U{A0}' || c == '\U{1680}'
    || ('\U{2000}' <= c <= '\U{200A}')
    || c == '\U{2028}' || c == '\U{2029}' || c == '\U{202F}' || c == '\U{205F}'
    || c == '\U{3000}' || c == '\U{FEFF}'
  }

  predicate AllSpace(s: string) {
    forall i :: 0 <= i < |s| ==> IsSpace(s[i])
  }

  predicate NoSpace(s: string) {
    forall i :: 0 <= i < |s| ==> !IsSpace(s[i])
  }

  /** Neither starts nor ends with whitespace: the shape of every `trim` result. */
  predicate Bare(s: string) {
    s == [] || (!IsSpace(s[0]) && !IsSpace(s[|s| - 1]))
  }

  /** `r` sits at offset `i` of `s` and everything around it is whitespace. */
  predicate TrimmedAt(s: string, r: string, i: int) {
    0 <= i && i + |r| <= |s| && s[i..i + |r|] == r && AllSpace(s[..i]) && AllSpace(s[i + |r|..])
  }

  /** The number of whitespace characters `s` starts with. */
  function LeadingSpace(s: string): (n: nat)
    ensures n <= |s|
  {
    if s != [] && IsSpace(s[0]) then 1 + LeadingSpace(s[1..]) else 0
  }

  /** The number of whitespace characters `s` ends with. */
  function TrailingSpace(s: string): (n: nat)
    ensures n <= |s|
  {
    if s != [] && IsSpace(s[|s| - 1]) then 1 + TrailingSpace(s[..|s| - 1]) else 0
  }

  /** The leading whitespace counted is whitespace. */
  lemma {:induction false} LeadingSpaceAll(s: string)
    ensures AllSpace(s[..LeadingSpace(s)])
  {
    if s != [] && IsSpace(s[0]) {
      LeadingSpaceAll(s[1..]);
      var n := LeadingSpace(s);
      assert s[..n] == [s[0]] + s[1..][..n - 1];
    }
  }

  /** The count stops at the first other character. */
  lemma {:induction false} LeadingSpaceStops(s: string)
    ensures LeadingSpace(s) < |s| ==> !IsSpace(s[LeadingSpace(s)])
  {
    if s != [] && IsSpace(s[0]) {
      LeadingSpaceStops(s[1..]);
    }
  }

  lemma {:induction false} TrailingSpaceAll(s: string)
    ensures AllSpace(s[|s| - TrailingSpace(s)..])
  {
    if s != [] && IsSpace(s[|s| - 1]) {
      var u := s[..|s| - 1];
      TrailingSpaceAll(u);
      var n := TrailingSpace(s);
      assert n == 1 + TrailingSpace(u);
      var t := s[|s| - n..];
      forall i | 0 <= i < |t|
        ensures IsSpace(t[i])
      {
        if i < n - 1 {
          assert t[i] == u[|u| - (n - 1)..][i];
        }
      }
    }
  }

  lemma {:induction false} TrailingSpaceStops(s: string)
    ensures TrailingSpace(s) < |s| ==> !IsSpace(s[|s| - TrailingSpace(s) - 1])
  {
    if s != [] && IsSpace(s[|s| - 1]) {
      var u := s[..|s| - 1];
      TrailingSpaceStops(u);
      assert TrailingSpace(s) == 1 + TrailingSpace(u);
      if TrailingSpace(s) < |s| {
        assert s[|s| - TrailingSpace(s) - 1] == u[|u| - TrailingSpace(u) - 1];
      }
    }
  }

  /** The leading whitespace is exactly the whitespace before the first other character. */
  lemma {:induction false} LeadingSpaceAt(s: string, i: nat)
    requires i <= |s| && AllSpace(s[..i]) && (i < |s| ==> !IsSpace(s[i]))
    ensures LeadingSpace(s) == i
  {
    if i > 0 {
      assert IsSpace(s[0]) by { assert s[..i][0] == s[0]; }
      assert s[1..][..i - 1] == s[1..i];
      LeadingSpaceAt(s[1..], i - 1);
    }
  }

  lemma {:induction false} TrailingSpaceAt(s: string, m: nat)
    requires m <= |s| && AllSpace(s[|s| - m..]) && (m < |s| ==> !IsSpace(s[|s| - m - 1]))
    ensures TrailingSpace(s) == m
  {
    if m > 0 {
      assert IsSpace(s[|s| - 1]) by { assert s[|s| - m..][m - 1] == s[|s| - 1]; }
      var u := s[..|s| - 1];
      assert u[|u| - (m - 1)..] == s[|s| - m..|s| - 1];
      TrailingSpaceAt(u, m - 1);
    }
  }

  /** `trimStart`: the leading whitespace removed. */
  function TrimStart(s: string): (r: string)
    ensures |r| <= |s|
  {
    s[LeadingSpace(s)..]
  }

  /** `trimEnd`: the trailing whitespace removed. */
  function TrimEnd(s: string): string {
    s[..|s| - TrailingSpace(s)]
  }

  /** `String.prototype.trim`: whitespace removed at both ends, nothing else. */
  function Trim(s: string): (r: string)
    ensures Bare(r)
  {
    var t := TrimStart(s);
    LeadingSpaceStops(s);
    TrailingSpaceStops(t);
    assert t != [] ==> t[0] == s[LeadingSpace(s)];
    TrimEnd(t)
  }

  /** Cutting `i` characters off the front and `m` off the back of `s` leaves a piece at offset `i`. */
  lemma CutBothEnds(s: string, i: nat, m: nat)
    requires i + m <= |s| && AllSpace(s[..i]) && AllSpace(s[i..][|s| - i - m..])
    ensures TrimmedAt(s, s[i..][..|s| - i - m], i)
  {
    var t := s[i..];
    var r := t[..|t| - m];
    assert s[i..i + |r|] == r;
    assert s[i + |r|..] == t[|t| - m..];
  }

  /** What trim removes is whitespace, at the two ends only. */
  lemma TrimRemovesOnlySpace(s: string)
    ensures TrimmedAt(s, Trim(s), LeadingSpace(s))
  {
    var i := LeadingSpace(s);
    var t := s[i..];
    LeadingSpaceAll(s);
    TrailingSpaceAll(t);
    CutBothEnds(s, i, TrailingSpace(t));
  }

  /**
   * Trim is the only way to cut a bare string out of `s` with nothing but
   * whitespace around it.
   */
  lemma TrimUnique(s: string, r: string, i: int)
    requires Bare(r) && TrimmedAt(s, r, i)
    ensures Trim(s) == r
  {
    if r == [] {
      assert AllSpace(s) by {
        assert s == s[..i] + s[i..];
      }
      assert s[..|s|] == s;
      LeadingSpaceAt(s, |s|);
    } else {
      assert s[i] == r[0];
      LeadingSpaceAt(s, i);
      var t := s[i..];
      var m := |t| - |r|;
      assert t[|t| - m..] == s[i + |r|..];
      assert t[|t| - m - 1] == r[|r| - 1];
      TrailingSpaceAt(t, m);
      assert t[..|r|] == r;
    }
  }

  lemma TrimBare(s: string)
    requires Bare(s)
    ensures Trim(s) == s
  {
    assert s[..0] == [] && s[|s|..] == [] && s[0..|s|] == s;
    TrimUnique(s, s, 0);
  }

  lemma TrimIdempotent(s: string)
    ensures Trim(Trim(s)) == Trim(s)
  {
    TrimBare(Trim(s));
  }

  /** `pat` occurs in `s` starting at index `j`. */
  predicate OccursAt(s: string, pat: string, j: int) {
    0 <= j && j + |pat| <= |s| && s[j..j + |pat|] == pat
  }

  /** `s.indexOf(pat, from)`: the first occurrence at or after `from`, or `None` for -1. */
  function IndexOfFrom(s: string, pat: string, from: nat): (r: Option<nat>)
    ensures r.Some? ==> from <= r.value && OccursAt(s, pat, r.value)
    ensures r.Some? ==> forall j :: from <= j < r.value ==> !OccursAt(s, pat, j)
    ensures r.None? <==> forall j :: from <= j ==> !OccursAt(s, pat, j)
    decreases |s| + 1 - from
  {
    if from + |pat| > |s| then None
    else if s[from..from + |pat|] == pat then
      assert OccursAt(s, pat, from);
      Some(from)
    else IndexOfFrom(s, pat, from + 1)
  }

  /** A one-character pattern occurs exactly where that character is. */
  lemma OccursAtChar(s: string, ch: char, j: int)
    ensures OccursAt(s, [ch], j) <==> 0 <= j < |s| && s[j] == ch
  {
    if 0 <= j < |s| {
      assert s[j..j + 1] == [s[j]];
    }
  }

  /** `s.indexOf(ch) > 0` exactly when `ch` occurs in `s` and is not its first character. */
  lemma IndexOfChar(s: string, ch: char)
    ensures var r := IndexOfFrom(s, [ch], 0);
            && (r.None? <==> ch !in s)
            && (r.Some? ==> r.value < |s| && s[r.value] == ch && ch !in s[..r.value])
  {
    var r := IndexOfFrom(s, [ch], 0);
    forall j | 0 <= j < |s| ensures OccursAt(s, [ch], j) <==> s[j] == ch {
      OccursAtChar(s, ch, j);
    }
    if r.Some? {
      OccursAtChar(s, ch, r.value);
      forall j | 0 <= j < r.value ensures s[..r.value][j] != ch {
        OccursAtChar(s, ch, j);
      }
    } else {
      forall j | 0 <= j < |s| ensures s[j] != ch {
        OccursAtChar(s, ch, j);
      }
    }
  }

  /** Trimming only ever removes characters. */
  lemma TrimKeeps(s: string, ch: char)
    requires ch !in s
    ensures ch !in Trim(s)
  {
    var r := Trim(s);
    var i := LeadingSpace(s);
    TrimRemovesOnlySpace(s);
    assert s[i..i + |r|] == r;
    forall j | 0 <= j < |r| ensures r[j] != ch {
      assert r[j] == s[i + j];
    }
  }

  /** The parts, with `sep` between consecutive ones. */
  function Join(parts: seq<string>, sep: char): string {
    if parts == [] then ""
    else if |parts| == 1 then parts[0]
    else parts[0] + [sep] + Join(parts[1..], sep)
  }

  /** `s.split(sep)` for a one-character separator. */
  function Split(s: string, sep: char): (r: seq<string>)
    ensures |r| >= 1
    ensures forall i :: 0 <= i < |r| ==> sep !in r[i]
    ensures Join(r, sep) == s
  {
    if s == [] then [""]
    else
      var rest := Split(s[1..], sep);
      if s[0] == sep then
        assert Join([""] + rest, sep) == [sep] + Join(rest, sep) by {
          assert ([""] + rest)[1..] == rest;
        }
        [""] + rest
      else
        var r := [[s[0]] + rest[0]] + rest[1..];
        assert r[1..] == rest[1..];
        assert Join(r, sep) == [s[0]] + Join(rest, sep);
        r
  }

  /** Splitting undoes joining whenever no part holds the separator. */
  lemma {:induction false} SplitJoin(parts: seq<string>, sep: char)
    requires |parts| >= 1
    requires forall i :: 0 <= i < |parts| ==> sep !in parts[i]
    ensures Split(Join(parts, sep), sep) == parts
    decreases |Join(parts, sep)|
  {
    var s := Join(parts, sep);
    var p := parts[0];
    if p == [] {
      if |parts| > 1 {
        assert s == [sep] + Join(parts[1..], sep);
        assert s[1..] == Join(parts[1..], sep);
        SplitJoin(parts[1..], sep);
        assert parts == [""] + parts[1..];
      }
    } else {
      var q := [p[1..]] + parts[1..];
      assert q[1..] == parts[1..];
      assert s[0] == p[0];
      assert p[0] != sep by { assert p[0] in p; }
      assert s[1..] == Join(q, sep) by {
        if |parts| > 1 {
          assert s == p + [sep] + Join(parts[1..], sep);
        }
      }
      assert forall i :: 0 <= i < |q| ==> sep !in q[i] by {
        forall i | 0 <= i < |q| ensures sep !in q[i] {
          if i == 0 { assert forall c :: c in p[1..] ==> c in p; } else { assert q[i] == parts[i]; }
        }
      }
      SplitJoin(q, sep);
      assert [p[0]] + p[1..] == p;
      assert parts == [p] + parts[1..];
    }
  }

  /** Splitting at a separator splits the two sides independently. */
  lemma {:induction false} SplitAppend(a: string, sep: char, b: string)
    ensures Split(a + [sep] + b, sep) == Split(a, sep) + Split(b, sep)
  {
    if a == [] {
      assert a + [sep] + b == [sep] + b;
      assert ([sep] + b)[1..] == b;
    } else {
      assert (a + [sep] + b)[1..] == a[1..] + [sep] + b;
      assert (a + [sep] + b)[0] == a[0];
      SplitAppend(a[1..], sep, b);
    }
  }

  /** The last part of `s.split(sep)`: `s.split(sep).pop()`. */
  function LastPart(s: string, sep: char): (r: string)
    ensures sep !in r
    ensures |r| <= |s| && r == s[|s| - |r|..]
  {
    var parts := Split(s, sep);
    LastPartIsSuffix(parts, sep);
    parts[|parts| - 1]
  }

  lemma {:induction false} LastPartIsSuffix(parts: seq<string>, sep: char)
    requires |parts| >= 1
    ensures var s := Join(parts, sep); var r := parts[|parts| - 1]; |r| <= |s| && r == s[|s| - |r|..]
  {
    if |parts| > 1 {
      LastPartIsSuffix(parts[1..], sep);
    }
  }

  /** The text after the last separator is the last part. */
  lemma LastPartAfterSeparator(dir: string, sep: char, name: string)
    requires sep !in name
    requires dir == [] || dir[|dir| - 1] == sep
    ensures LastPart(dir + name, sep) == name
  {
    SplitJoin([name], sep);
    assert Split(name, sep) == [name];
    if dir != [] {
      var d := dir[..|dir| - 1];
      assert dir + name == d + [sep] + name;
      SplitAppend(d, sep, name);
      assert Split(dir + name, sep) == Split(d, sep) + [name];
    } else {
      assert dir + name == name;
    }
  }

  /**
   * `s.split(/\s+/)`: the pieces between maximal whitespace runs, with an
   * empty first (last) piece when `s` starts (ends) with whitespace.
   */
  function SplitOnSpaceRuns(s: string): (r: seq<string>)
    ensures |r| >= 1
    ensures forall i :: 0 <= i < |r| ==> NoSpace(r[i])
    decreases |s|
  {
    if s == [] then [""]
    else if IsSpace(s[0]) then [""] + SplitOnSpaceRuns(TrimStart(s[1..]))
    else
      var rest := SplitOnSpaceRuns(s[1..]);
      var r := [[s[0]] + rest[0]] + rest[1..];
      assert forall i :: 1 <= i < |r| ==> r[i] == rest[i];
      r
  }

  /** A word glued before the rest extends the first piece. */
  lemma {:induction false} SplitOnSpaceRunsPrefix(w: string, t: string)
    requires w != [] && NoSpace(w)
    ensures var rest := SplitOnSpaceRuns(t);
            SplitOnSpaceRuns(w + t) == [w + rest[0]] + rest[1..]
  {
    assert (w + t)[0] == w[0];
    assert (w + t)[1..] == w[1..] + t;
    if |w| > 1 {
      SplitOnSpaceRunsPrefix(w[1..], t);
      assert [w[0]] + (w[1..] + SplitOnSpaceRuns(t)[0]) == w + SplitOnSpaceRuns(t)[0];
    } else {
      assert w[1..] + t == t;
      assert [w[0]] + SplitOnSpaceRuns(t)[0] == w + SplitOnSpaceRuns(t)[0];
    }
  }

  /** Words with the whitespace gap before each later word: `w0 g0 w1 g1 ... wn`. */
  function Interleave(words: seq<string>, gaps: seq<string>): string
    requires |words| == |gaps| + 1
  {
    if gaps == [] then words[0] else words[0] + gaps[0] + Interleave(words[1..], gaps[1..])
  }

  /** A whitespace gap before a word starts a new piece, and the gap leaves no piece behind. */
  lemma SplitOnSpaceRunsAfterGap(g: string, t: string)
    requires g != [] && AllSpace(g)
    requires t != [] && !IsSpace(t[0])
    ensures SplitOnSpaceRuns(g + t) == [""] + SplitOnSpaceRuns(t)
  {
    var s := g + t;
    assert s[0] == g[0];
    assert s[1..] == g[1..] + t;
    assert (g[1..] + t)[..|g| - 1] == g[1..];
    LeadingSpaceAt(g[1..] + t, |g| - 1);
    assert (g[1..] + t)[|g| - 1..] == t;
  }

  /**
   * Non-empty words separated by arbitrary non-empty whitespace gaps split
   * back into exactly those words.
   */
  lemma {:induction false} SplitOnSpaceRunsOfWords(words: seq<string>, gaps: seq<string>)
    requires |words| == |gaps| + 1
    requires forall i :: 0 <= i < |words| ==> words[i] != [] && NoSpace(words[i])
    requires forall i :: 0 <= i < |gaps| ==> gaps[i] != [] && AllSpace(gaps[i])
    ensures SplitOnSpaceRuns(Interleave(words, gaps)) == words
  {
    var w := words[0];
    if gaps == [] {
      SplitOnSpaceRunsPrefix(w, "");
      assert w + "" == w;
    } else {
      var tail := words[1..];
      var j := Interleave(tail, gaps[1..]);
      SplitOnSpaceRunsOfWords(tail, gaps[1..]);
      InterleaveStartsWithFirst(tail, gaps[1..]);
      SplitOnSpaceRunsAfterGap(gaps[0], j);
      assert Interleave(words, gaps) == w + (gaps[0] + j);
      SplitOnSpaceRunsPrefix(w, gaps[0] + j);
      assert ([""] + tail)[1..] == tail;
      assert w + "" == w;
      assert words == [w] + tail;
    }
  }

  lemma {:induction false} InterleaveStartsWithFirst(words: seq<string>, gaps: seq<string>)
    requires |words| == |gaps| + 1 && words[0] != []
    ensures Interleave(words, gaps) != [] && Interleave(words, gaps)[0] == words[0][0]
  {
  }

  predicate IsQuote(c: char) {
    c == '"' || c == '\''
  }

  /** `s.replace(/["']/g, '')`: every double and single quote removed, the rest kept in order. */
  function RemoveQuotes(s: string): (r: string)
    ensures forall i :: 0 <= i < |r| ==> !IsQuote(r[i])
    ensures |r| <= |s|
    ensures (forall i :: 0 <= i < |s| ==> !IsQuote(s[i])) ==> r == s
  {
    if s == [] then ""
    else if IsQuote(s[0]) then RemoveQuotes(s[1..])
    else [s[0]] + RemoveQuotes(s[1..])
  }

  /** One character: a quote disappears, anything else is kept. */
  lemma RemoveQuotesChar(c: char)
    ensures RemoveQuotes([c]) == if IsQuote(c) then "" else [c]
  {
    assert [c][1..] == "";
  }

  /**
   * The replacement works character by character: removing quotes from a
   * concatenation concatenates the results. With `RemoveQuotesChar` this
   * fixes `RemoveQuotes` on every input.
   */
  lemma {:induction false} RemoveQuotesAppend(a: string, b: string)
    ensures RemoveQuotes(a + b) == RemoveQuotes(a) + RemoveQuotes(b)
  {
    if a != [] {
      assert (a + b)[0] == a[0];
      assert (a + b)[1..] == a[1..] + b;
      RemoveQuotesAppend(a[1..], b);
    } else {
      assert a + b == b;
    }
  }

  function DigitChar(d: nat): (c: char)
    requires d < 10
  {
    ('0' as int + d) as char
  }

  predicate IsDigit(c: char) {
    '0' as int <= c as int <= '9' as int
  }

  /** The decimal value of a string of digits. */
  function DecimalValue(s: string): nat
    requires forall i :: 0 <= i < |s| ==> IsDigit(s[i])
  {
    if s == [] then 0
    else
      var d := s[|s| - 1];
      assert IsDigit(d);
      10 * DecimalValue(s[..|s| - 1]) + (d as int - '0' as int)
  }

  /** The template-literal rendering `${n}` of a whole number. */
  function NatToString(n: nat): (r: string)
    ensures |r| >= 1 && forall i :: 0 <= i < |r| ==> IsDigit(r[i])
    ensures |r| > 1 ==> r[0] != '0'
  {
    if n < 10 then [DigitChar(n)] else NatToString(n / 10) + [DigitChar(n % 10)]
  }

  /** Reading the rendered digits back gives the number. */
  lemma {:induction false} NatToStringValue(n: nat)
    ensures DecimalValue(NatToString(n)) == n
  {
    if n >= 10 {
      NatToStringValue(n / 10);
      var s := NatToString(n);
      assert s[..|s| - 1] == NatToString(n / 10);
    }
  }
}
