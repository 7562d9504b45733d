/**
 * The frontmatter parser of the blog pipeline (`parseFrontmatter`): the
 * anchored match of a `---` delimited header, the line-by-line key/value
 * parse of that header into a record, and the trimmed Markdown body.
 */
module Frontmatter {
  import opened Wrappers
  import opened Strings

  /** A header value: a scalar string, or the list a `[a, b]` value becomes. */
  datatype Value = Scalar(text: string) | List(items: seq<string>)

  /** The parser's result: the header record and the trimmed Markdown body. */
  datatype Parsed = Parsed(data: map<string, Value>, body: string)

  /** The two capture groups of the header pattern. */
  datatype Block = Block(header: string, rest: string)

  const Opening: string := "---\n"
  const Closing: string := "\n---\n"

  /**
   * The anchored match of `^---\n([\s\S]*?)\n---\n([\s\S]*)$`: the input
   * starts with `---\n`, and the lazy group ends at the FIRST `\n---\n` that
   * starts at index 4 or later; the second group is everything after it.
   */
  function MatchHeader(content: string): (m: Option<Block>)
    ensures m.Some? <==> OccursAt(content, Opening, 0) && exists k :: 4 <= k && OccursAt(content, Closing, k)
    ensures m.Some? ==> content == Opening + m.value.header + Closing + m.value.rest
    ensures m.Some? ==> forall k :: 4 <= k < 4 + |m.value.header| ==> !OccursAt(content, Closing, k)
  {
    if !OccursAt(content, Opening, 0) then None
    else
      match IndexOfFrom(content, Closing, 4)
      case None => None
      case Some(k) =>
        assert content[..4] == Opening && content[k..k + 5] == Closing;
        assert content == content[..4] + content[4..k] + content[k..k + 5] + content[k + 5..];
        Some(Block(content[4..k], content[k + 5..]))
  }

  /**
   * Reconstruction: a file laid out as `---\n<header>\n---\n<rest>`, where the
   * closing delimiter is the first one after the opening, matches with
   * exactly that header and rest.
   */
  lemma MatchHeaderOf(header: string, rest: string)
    requires var content := Opening + header + Closing + rest;
             forall k :: 4 <= k < 4 + |header| ==> !OccursAt(content, Closing, k)
    ensures MatchHeader(Opening + header + Closing + rest) == Some(Block(header, rest))
  {
    var content := Opening + header + Closing + rest;
    var k := 4 + |header|;
    Layout(header, rest);
    assert OccursAt(content, Closing, k);
    var m := MatchHeader(content);
    var h := m.value.header;
    Layout(h, m.value.rest);
    if |h| < |header| {
      assert OccursAt(content, Closing, 4 + |h|);
      assert false;
    }
    assert |h| == |header|;
  }

  /** Where the pieces of `---\n<header>\n---\n<rest>` sit. */
  lemma Layout(header: string, rest: string)
    ensures var c := Opening + header + Closing + rest;
            var k := 4 + |header|;
            && c[..4] == Opening && c[4..k] == header
            && c[k..k + 5] == Closing && c[k + 5..] == rest
  {
  }

  /** A closing delimiter that overlaps the opening one does not count. */
  lemma AdjacentDelimitersDoNotMatch()
    ensures MatchHeader("---\n---\nx") == None
  {
    var c := "---\n---\nx";
    forall k | 4 <= k ensures !OccursAt(c, Closing, k) {
      if k == 4 { assert c[4..9][0] == '-'; }
    }
  }

  /** An empty line between the delimiters gives an empty header. */
  lemma EmptyHeaderMatches()
    ensures MatchHeader("---\n\n---\nx") == Some(Block("", "x"))
  {
    assert "---\n\n---\nx" == Opening + "" + Closing + "x";
    MatchHeaderOf("", "x");
  }

  /** A file whose every line break is CRLF never has a header. */
  lemma CrlfNeverMatches(content: string)
    requires forall i :: 0 < i < |content| && content[i] == '\n' ==> content[i - 1] == '\r'
    ensures MatchHeader(content) == None
  {
    if OccursAt(content, Opening, 0) {
      assert content[3] == Opening[3] && content[2] == Opening[2];
    }
  }

  /** Wrapped in one matching pair of double or single quotes. */
  predicate Quoted(v: string) {
    |v| >= 1 && ((v[0] == '"' && v[|v| - 1] == '"') || (v[0] == '\'' && v[|v| - 1] == '\''))
  }

  /** `value.slice(1, -1)` when quoted (a lone quote character becomes empty). */
  function Unquote(v: string): (u: string)
    ensures Quoted(v) && |v| >= 2 ==> v == [v[0]] + u + [v[|v| - 1]]
    ensures Quoted(v) && |v| == 1 ==> u == ""
    ensures !Quoted(v) ==> u == v
  {
    if !Quoted(v) then v else if |v| == 1 then "" else v[1..|v| - 1]
  }

  /** Starts with `[` and ends with `]`. A lone `[` is not bracketed. */
  predicate Bracketed(v: string) {
    |v| >= 1 && v[0] == '[' && v[|v| - 1] == ']'
  }

  /** The comma-separated items of a list value, each trimmed and without quote characters. */
  function Items(inner: string): (items: seq<string>)
    ensures |items| == |Split(inner, ',')| >= 1
    ensures forall i :: 0 <= i < |items| ==> forall j :: 0 <= j < |items[i]| ==> !IsQuote(items[i][j])
    ensures forall i :: 0 <= i < |items| ==> items[i] == RemoveQuotes(Trim(Split(inner, ',')[i]))
  {
    var parts := Split(inner, ',');
    seq(|parts|, i requires 0 <= i < |parts| => RemoveQuotes(Trim(parts[i])))
  }

  /** A trimmed header value, unquoted once and turned into a list when bracketed. */
  function ParseValue(raw: string): (v: Value)
    ensures v.List? <==> Bracketed(Unquote(raw))
    ensures v.Scalar? ==> v.text == Unquote(raw)
    ensures v.List? ==> var u := Unquote(raw); v.items == Items(u[1..|u| - 1])
  {
    var u := Unquote(raw);
    if Bracketed(u) then List(Items(u[1..|u| - 1])) else Scalar(u)
  }

  /** A value that is neither quoted nor bracketed is kept as it is. */
  lemma ParsePlainValue(s: string)
    requires !Quoted(s) && !Bracketed(s)
    ensures ParseValue(s) == Scalar(s)
  {
  }

  /** Exactly one outer pair of quotes is removed. */
  lemma ParseQuotedValue(q: char, s: string)
    requires q == '"' || q == '\''
    requires !Bracketed(s)
    ensures ParseValue([q] + s + [q]) == Scalar(s)
  {
    var v := [q] + s + [q];
    assert Quoted(v);
    assert v[1..|v| - 1] == s;
  }

  /** Whitespace on both sides of a bare piece is exactly what trim removes. */
  lemma TrimPadded(lead: string, r: string, trail: string)
    requires AllSpace(lead) && AllSpace(trail) && Bare(r)
    ensures Trim(lead + r + trail) == r
  {
    var s := lead + r + trail;
    assert s[..|lead|] == lead && s[|lead|..|lead| + |r|] == r && s[|lead| + |r|..] == trail;
    TrimUnique(s, r, |lead|);
  }

  /** A quote-free item in one pair of quotes, or in none, loses exactly the quotes. */
  lemma RemoveWrappingQuotes(quote: string, item: string)
    requires quote == "" || quote == "\"" || quote == "'"
    requires forall j :: 0 <= j < |item| ==> !IsQuote(item[j])
    ensures RemoveQuotes(quote + item + quote) == item
  {
    RemoveQuotesAppend(quote, item);
    RemoveQuotesAppend(quote + item, quote);
    if quote != "" {
      RemoveQuotesChar(quote[0]);
    } else {
      assert quote + item + quote == item;
    }
  }

  /**
   * One list cell: whitespace, the item (wrapped in one pair of quotes or
   * bare), whitespace. The cell's item is exactly that item.
   */
  lemma CellItem(lead: string, quote: string, item: string, trail: string)
    requires AllSpace(lead) && AllSpace(trail)
    requires quote == "" || quote == "\"" || quote == "'"
    requires quote == "" ==> Bare(item)
    requires forall j :: 0 <= j < |item| ==> !IsQuote(item[j])
    ensures RemoveQuotes(Trim(lead + quote + item + quote + trail)) == item
  {
    var r := quote + item + quote;
    assert lead + quote + item + quote + trail == lead + r + trail;
    assert Bare(r) by {
      if quote != "" {
        assert r[0] == quote[0] && r[|r| - 1] == quote[0];
      }
    }
    TrimPadded(lead, r, trail);
    RemoveWrappingQuotes(quote, item);
  }

  /**
   * A list value `[c0,c1,...]` whose cells are items padded with whitespace
   * and optionally quoted reads back as exactly those items, in order.
   */
  lemma {:induction false} ParseListValue(items: seq<string>, cells: seq<string>,
                                          lead: seq<string>, quote: seq<string>, trail: seq<string>)
    requires |items| >= 1 && |cells| == |lead| == |quote| == |trail| == |items|
    requires forall i :: 0 <= i < |items| ==> cells[i] == lead[i] + quote[i] + items[i] + quote[i] + trail[i]
    requires forall i :: 0 <= i < |items| ==> AllSpace(lead[i]) && AllSpace(trail[i])
    requires forall i :: 0 <= i < |items| ==> quote[i] == "" || quote[i] == "\"" || quote[i] == "'"
    requires forall i :: 0 <= i < |items| ==> quote[i] == "" ==> Bare(items[i])
    requires forall i :: 0 <= i < |items| ==> ',' !in items[i]
    requires forall i :: 0 <= i < |items| ==> forall j :: 0 <= j < |items[i]| ==> !IsQuote(items[i][j])
    ensures ParseValue("[" + Join(cells, ',') + "]") == List(items)
  {
    var v := "[" + Join(cells, ',') + "]";
    assert !Quoted(v);
    assert Bracketed(v);
    assert v[1..|v| - 1] == Join(cells, ',');
    forall i | 0 <= i < |cells| ensures ',' !in cells[i] {
      forall k | 0 <= k < |lead[i]| ensures lead[i][k] != ',' {
        assert IsSpace(lead[i][k]);
      }
      forall k | 0 <= k < |trail[i]| ensures trail[i][k] != ',' {
        assert IsSpace(trail[i][k]);
      }
    }
    SplitJoin(cells, ',');
    var got := Items(Join(cells, ','));
    assert |got| == |items|;
    forall i | 0 <= i < |items| ensures got[i] == items[i] {
      CellItem(lead[i], quote[i], items[i], trail[i]);
    }
  }

  /** A plain item: bare, without commas or quote characters. */
  predicate PlainItem(item: string) {
    Bare(item) && ',' !in item && forall j :: 0 <= j < |item| ==> !IsQuote(item[j])
  }

  /** `[a, b, c]` is the cells `a`, ` b`, ` c` joined by commas, in brackets. */
  lemma SpacedListLayout(a: string, b: string, c: string)
    ensures "[" + Join([a, " " + b, " " + c], ',') + "]" == "[" + a + ", " + b + ", " + c + "]"
  {
    var cells := [a, " " + b, " " + c];
    var joined := Join(cells, ',');
    assert cells[2..] == [" " + c];
    assert cells[1..][1..] == cells[2..];
    assert Join(cells[1..], ',') == " " + b + "," + " " + c;
    assert joined == a + ", " + b + ", " + c;
  }

  /** The usual way of writing a list, `[a, b, c]`, gives the three items. */
  lemma SpacedListValue(a: string, b: string, c: string)
    requires PlainItem(a) && PlainItem(b) && PlainItem(c)
    ensures ParseValue("[" + a + ", " + b + ", " + c + "]") == List([a, b, c])
  {
    var cells := [a, " " + b, " " + c];
    var items := [a, b, c];
    var lead := ["", " ", " "];
    var none := ["", "", ""];
    assert AllSpace(" ") by { assert " "[0] == ' '; }
    assert cells[0] == lead[0] + "" + a + "" + "";
    assert cells[1] == lead[1] + "" + b + "" + "";
    assert cells[2] == lead[2] + "" + c + "" + "";
    ParseListValue(items, cells, lead, none, none);
    SpacedListLayout(a, b, c);
  }

  /** `["a", 'b']` is the cells `"a"` and ` 'b'` joined by a comma, in brackets. */
  lemma QuotedListLayout(a: string, b: string)
    ensures "[" + Join(["\"" + a + "\"", " '" + b + "'"], ',') + "]" == "[\"" + a + "\", '" + b + "']"
  {
    var cells := ["\"" + a + "\"", " '" + b + "'"];
    assert cells[1..] == [" '" + b + "'"];
    assert Join(cells, ',') == "\"" + a + "\"" + "," + " '" + b + "'";
  }

  /** Quoted items lose their quotes: `["a", 'b']` gives `a` and `b`. */
  lemma QuotedListValue(a: string, b: string)
    requires ',' !in a && forall j :: 0 <= j < |a| ==> !IsQuote(a[j])
    requires ',' !in b && forall j :: 0 <= j < |b| ==> !IsQuote(b[j])
    ensures ParseValue("[\"" + a + "\", '" + b + "']") == List([a, b])
  {
    var cells := ["\"" + a + "\"", " '" + b + "'"];
    assert AllSpace(" ") by { assert " "[0] == ' '; }
    ParseListValue([a, b], cells, ["", " "], ["\"", "'"], ["", ""]);
    QuotedListLayout(a, b);
  }

  lemma EmptyBracketsGiveOneEmptyItem()
    ensures ParseValue("[]") == List([""])
  {
    assert "[]"[1..1] == "";
    assert Split("", ',') == [""];
    assert Trim("") == "";
  }

  lemma LoneBracketStaysScalar()
    ensures ParseValue("[") == Scalar("[")
  {
  }

  /**
   * One header line: split at its first colon when that colon is not the
   * first character; key and value are trimmed, and the value parsed.
   */
  function ParseLine(line: string): (e: Option<(string, Value)>)
    ensures e.Some? <==> ':' in line && line[0] != ':'
    ensures e.Some? ==> Bare(e.value.0) && ':' !in e.value.0
  {
    IndexOfChar(line, ':');
    match IndexOfFrom(line, ":", 0)
    case None => None
    case Some(c) =>
      if c > 0 then
        TrimKeeps(line[..c], ':');
        Some((Trim(line[..c]), ParseValue(Trim(line[c + 1..]))))
      else
        None
  }

  /** The entry of a line, read off the position of its first colon. */
  lemma ParseLineAt(line: string, colon: Option<nat>)
    requires IndexOfFrom(line, ":", 0) == colon
    ensures ParseLine(line) == if colon.Some? && colon.value > 0
                               then Some((Trim(line[..colon.value]), ParseValue(Trim(line[colon.value + 1..]))))
                               else None
  {
  }

  /** The first colon splits key from value; later colons stay in the value. */
  lemma ParseLineAtFirstColon(key: string, value: string)
    requires key != [] && ':' !in key
    ensures ParseLine(key + ":" + value) == Some((Trim(key), ParseValue(Trim(value))))
  {
    var line := key + ":" + value;
    var c := |key|;
    assert OccursAt(line, ":", c) by { assert line[c..c + 1] == ":"; }
    forall j | 0 <= j < c ensures !OccursAt(line, ":", j) {
      assert line[j] == key[j];
    }
    assert line[..c] == key;
    assert line[c + 1..] == value;
  }

  /** What one header line contributes: nothing, or a key and its value. */
  type Entry = Option<(string, Value)>

  /** The entries of the header lines, in order. */
  function Entries(lines: seq<string>): seq<Entry> {
    seq(|lines|, i requires 0 <= i < |lines| => ParseLine(lines[i]))
  }

  /** The entry is for `key`. */
  predicate Names(e: Entry, key: string) {
    e.Some? && e.value.0 == key
  }

  /** The record after one entry: unchanged, or `data[key]` overwritten. */
  function Update(data: map<string, Value>, e: Entry): map<string, Value> {
    match e
    case None => data
    case Some(kv) => data[kv.0 := kv.1]
  }

  /** The record after visiting `entries` in order, each entry overwriting `data[key]`. */
  function Assemble(entries: seq<Entry>): map<string, Value> {
    if entries == [] then map[]
    else Update(Assemble(entries[..|entries| - 1]), entries[|entries| - 1])
  }

  /** The record of a header's lines. */
  function Collect(lines: seq<string>): map<string, Value> {
    Assemble(Entries(lines))
  }

  /** A key is in the record exactly when some entry names it. */
  lemma {:induction false} AssembleKeys(entries: seq<Entry>, key: string)
    ensures key in Assemble(entries) <==> exists i :: 0 <= i < |entries| && Names(entries[i], key)
  {
    if entries != [] {
      var init := entries[..|entries| - 1];
      var last := |entries| - 1;
      AssembleKeys(init, key);
      if key in Assemble(entries) {
        if key in Assemble(init) {
          var i :| 0 <= i < |init| && Names(init[i], key);
          assert entries[i] == init[i];
        } else {
          assert Names(entries[last], key);
        }
      }
      if exists i :: 0 <= i < |entries| && Names(entries[i], key) {
        var i :| 0 <= i < |entries| && Names(entries[i], key);
        if i < last {
          assert init[i] == entries[i];
        }
      }
    }
  }

  /** A key's value comes from the last entry that names it. */
  lemma {:induction false} AssembleLastWins(entries: seq<Entry>, key: string, i: nat)
    requires i < |entries| && Names(entries[i], key)
    requires forall j :: i < j < |entries| ==> !Names(entries[j], key)
    ensures key in Assemble(entries) && Assemble(entries)[key] == entries[i].value.1
  {
    var init := entries[..|entries| - 1];
    if i < |entries| - 1 {
      assert init[i] == entries[i];
      forall j | i < j < |init| ensures !Names(init[j], key) {
        assert init[j] == entries[j];
      }
      AssembleLastWins(init, key, i);
      assert !Names(entries[|entries| - 1], key);
    }
  }

  /** Visiting one more entry updates the record with it. */
  lemma AssembleStep(entries: seq<Entry>, n: nat)
    requires n < |entries|
    ensures Assemble(entries[..n + 1]) == Update(Assemble(entries[..n]), entries[n])
  {
    assert entries[..n + 1][..n] == entries[..n];
  }

  /** Header lines: a key is present exactly when some line yields an entry for it. */
  lemma CollectKeys(lines: seq<string>, key: string)
    ensures key in Collect(lines) <==> exists i :: 0 <= i < |lines| && Names(ParseLine(lines[i]), key)
  {
    var es := Entries(lines);
    AssembleKeys(es, key);
    assert forall i :: 0 <= i < |lines| ==> es[i] == ParseLine(lines[i]);
  }

  /** Header lines: a later line for the same key overwrites an earlier one. */
  lemma CollectLastWins(lines: seq<string>, key: string, i: nat)
    requires i < |lines| && Names(ParseLine(lines[i]), key)
    requires forall j :: i < j < |lines| ==> !Names(ParseLine(lines[j]), key)
    ensures key in Collect(lines) && Collect(lines)[key] == ParseLine(lines[i]).value.1
  {
    AssembleLastWins(Entries(lines), key, i);
  }

  /** `parseFrontmatter` as a value: the record and the trimmed body. */
  function Parse(content: string): Parsed {
    match MatchHeader(content)
    case None => Parsed(map[], Trim(content))
    case Some(b) => Parsed(Collect(Split(b.header, '\n')), Trim(b.rest))
  }

  /** The body never starts or ends with white space. */
  lemma ParseBodyIsTrimmed(content: string)
    ensures Bare(Parse(content).body)
  {
  }

  /** Without a header the record is empty and the body is the whole input, trimmed. */
  lemma ParseWithoutHeader(content: string)
    requires !OccursAt(content, Opening, 0) || forall k :: 4 <= k ==> !OccursAt(content, Closing, k)
    ensures Parse(content) == Parsed(map[], Trim(content))
  {
  }

  /**
   * With a header, the record comes from the header's lines and the body is
   * what follows the first closing delimiter, trimmed.
   */
  lemma ParseWithHeader(header: string, rest: string)
    requires var content := Opening + header + Closing + rest;
             forall k :: 4 <= k < 4 + |header| ==> !OccursAt(content, Closing, k)
    ensures Parse(Opening + header + Closing + rest) == Parsed(Collect(Split(header, '\n')), Trim(rest))
  {
    MatchHeaderOf(header, rest);
  }

  /**
   * The `forEach` callback: when the line's first colon is past index 0, the
   * trimmed value loses one pair of outer quotes and is stored under the
   * trimmed key, as a list when it is bracketed.
   */
  method ApplyLine(data: map<string, Value>, line: string) returns (updated: map<string, Value>)
    ensures updated == Update(data, ParseLine(line))
  {
    var colon := IndexOfFrom(line, ":", 0);
    ParseLineAt(line, colon);
    updated := data;
    if colon.Some? && colon.value > 0 {
      var key := Trim(line[..colon.value]);
      var value := ReadValue(Trim(line[colon.value + 1..]));
      updated := updated[key := value];
    }
  }

  /** The value step of the callback: one pair of outer quotes removed, then a bracketed value split. */
  method ReadValue(trimmed: string) returns (v: Value)
    ensures v == ParseValue(trimmed)
  {
    var value := trimmed;
    if Quoted(value) {
      value := if |value| == 1 then "" else value[1..|value| - 1];
    }
    assert value == Unquote(trimmed);
    if Bracketed(value) {
      v := List(Items(value[1..|value| - 1]));
    } else {
      v := Scalar(value);
    }
  }

  /**
   * `parseFrontmatter`: without a header the body is the trimmed input;
   * otherwise the record is built by visiting the header lines in order.
   */
  method ParseFrontmatter(content: string) returns (p: Parsed)
    ensures p == Parse(content)
  {
    var m := MatchHeader(content);
    if m.None? {
      return Parsed(map[], Trim(content));
    }
    var lines := Split(m.value.header, '\n');
    ghost var entries := Entries(lines);
    var data: map<string, Value> := map[];
    for n := 0 to |lines|
      invariant data == Assemble(entries[..n])
    {
      AssembleStep(entries, n);
      data := ApplyLine(data, lines[n]);
    }
    assert entries[..|lines|] == entries;
    p := Parsed(data, Trim(m.value.rest));
  }
}
