/**
 * The "simple YAML" header of an article file (`parseFrontMatter` in lib/content-api.ts): an optional
 * block between a leading `---` line and the next `---` line, one `key: value` pair per line.
 */
module FrontMatter {
  import opened Wrappers
  import opened Strings

  /** A JSON value (RFC 8259, section 3). */
  datatype Json =
    | JNull
    | JBool(b: bool)
    | JNumber(n: real)
    | JString(s: string)
    | JArray(items: seq<Json>)
    | JObject(members: seq<(string, Json)>)

  /**
   * `String(v)`: the property key a value becomes when it indexes an object. Array items that are
   * null print as nothing; `numberText` is `Number.prototype.toString`, which the model does not spell out.
   */
  function KeyText(v: Json, numberText: real -> string): string
    decreases v
  {
    match v
    case JNull => "null"
    case JBool(b) => if b then "true" else "false"
    case JNumber(n) => numberText(n)
    case JString(s) => s
    case JArray(items) =>
      Join(seq(|items|, i requires 0 <= i < |items| => if items[i].JNull? then [] else KeyText(items[i], numberText)), ',')
    case JObject(_) => "[object Object]"
  }

  /**
   * `JSON.parse` applied to a value that starts with `[` and ends with `]`: the items of the array
   * it denotes, or None when the text is not JSON and the call throws. A JSON text whose first
   * character is `[` can only denote an array (RFC 8259, section 5), so a success is always an array.
   */
  type ArrayParser = string -> Option<seq<Json>>

  /** The two groups captured by `/^---\n([\s\S]*?)\n---\n([\s\S]*)$/`. */
  datatype Header = Header(frontMatter: string, body: string)

  /** The front matter as a record from keys to values, and the text after the header. */
  datatype Parsed = Parsed(fields: map<string, Json>, body: string)

  /** What one front-matter line contributes: nothing, a key and its value, or an exception. */
  datatype LineResult = Skip | Entry(key: string, value: Json) | Throws

  const Opening: string := "---\n"
  const Closing: string := "\n---\n"

  /**
   * The header match: the text opens with `---` and a line break, and the front matter runs up to the
   * FIRST later line break, `---`, line break; the body is all the rest.
   */
  function MatchHeader(text: string): (r: Option<Header>)
    ensures r.Some? ==> text == Opening + r.value.frontMatter + Closing + r.value.body
    ensures r.Some? ==> forall j :: 4 <= j < 4 + |r.value.frontMatter| ==> !OccursAt(text, Closing, j)
    ensures r.None? <==> !StartsWith(text, Opening) || forall j :: 4 <= j ==> !OccursAt(text, Closing, j)
  {
    if !StartsWith(text, Opening) then None
    else
      match IndexFrom(text, Closing, 4)
      case None => None
      case Some(j) =>
        var h := Header(text[4..j], text[j + 5..]);
        assert text == text[..4] + text[4..j] + text[j..j + 5] + text[j + 5..];
        Some(h)
  }

  /**
   * A header is recognised exactly when one is there: `---`, a line break, front matter in which no
   * line reads `---` (so that `fm` followed by a line break holds no closing marker), the closing
   * marker, and the body.
   */
  lemma MatchHeaderComplete(fm: string, body: string)
    requires !Contains(fm + ['\n'], Closing)
    ensures MatchHeader(Opening + fm + Closing + body) == Some(Header(fm, body))
  {
    var text := Opening + fm + Closing + body;
    assert text[..4] == Opening;
    assert text[4 + |fm|..4 + |fm| + 5] == Closing;
    forall j | 4 <= j < 4 + |fm|
      ensures !OccursAt(text, Closing, j)
    {
      NoEarlierClosing(fm, body, j);
    }
    assert OccursAt(text, Closing, 4 + |fm|);
    var r := IndexFrom(text, Closing, 4);
    assert r == Some(4 + |fm|);
    assert text[4..4 + |fm|] == fm;
    assert text[4 + |fm| + 5..] == body;
  }

  lemma NoEarlierClosing(fm: string, body: string, j: int)
    requires !Contains(fm + ['\n'], Closing)
    requires 4 <= j < 4 + |fm|
    ensures !OccursAt(Opening + fm + Closing + body, Closing, j)
  {
    var text := Opening + fm + Closing + body;
    var u := fm + ['\n'];
    assert text[4 + |fm|] == '\n';
    if j + 5 <= 5 + |fm| {
      assert !OccursAt(u, Closing, j - 4);
      assert text[j..j + 5] == u[j - 4..j + 1];
    } else if j + 5 <= |text| {
      // The window reaches the `\n` that opens the closing line, where `Closing` has a `-`.
      var k := 4 + |fm| - j;
      assert 1 <= k <= 3 && Closing[k] == '-';
      assert text[j..j + 5][k] == text[4 + |fm|];
    }
  }

  /** Removes one pair of matching outer quotes, as `value.slice(1, -1)` does. */
  function Unquote(v: string): (r: string)
    ensures |v| >= 2 && ((v[0] == '"' && v[|v| - 1] == '"') || (v[0] == '\'' && v[|v| - 1] == '\'')) ==> r == v[1..|v| - 1]
    ensures |v| == 1 && (v[0] == '"' || v[0] == '\'') ==> r == []
    ensures (v == [] || (v[0] != '"' && v[0] != '\'') || v[0] != v[|v| - 1]) ==> r == v
  {
    if v != [] && (v[0] == '"' || v[0] == '\'') && v[|v| - 1] == v[0] then
      if |v| >= 2 then v[1..|v| - 1] else []
    else v
  }

  /** The value of a line: trimmed, unquoted, and parsed as a JSON array when it is bracketed. */
  function ParseValue(raw: string, parse: ArrayParser): (r: Option<Json>)
    ensures r.Some? ==> r.value.JString? || r.value.JArray?
  {
    var v := Unquote(Trim(raw));
    if StartsWith(v, "[") && EndsWith(v, "]") then
      match parse(v)
      case Some(items) => Some(JArray(items))
      case None => None
    else Some(JString(v))
  }

  /** One line: split at `:`, skipped without a separator or with nothing before the first one. */
  function ParseLine(line: string, parse: ArrayParser): LineResult {
    var parts := Split(line, ':');
    var key := parts[0];
    if key != [] && |parts| > 1 then
      match ParseValue(Join(parts[1..], ':'), parse)
      case Some(v) => Entry(Trim(key), v)
      case None => Throws
    else Skip
  }

  /** A line's key is the text before its first `:` and its value is everything after it, colons included. */
  lemma ParseLineAtFirstColon(line: string, parse: ArrayParser)
    ensures ':' !in line ==> ParseLine(line, parse) == Skip
    ensures ':' in line ==>
      exists i :: (0 <= i < |line| && line[i] == ':' && ':' !in line[..i]
        && ParseLine(line, parse) == if i == 0 then Skip else
          match ParseValue(line[i + 1..], parse)
          case Some(v) => Entry(Trim(line[..i]), v)
          case None => Throws)
  {
    if ':' in line {
      SplitAtFirst(line, ':');
    }
  }

  /** The outcome of each line of the front matter. */
  function LineResults(lines: seq<string>, parse: ArrayParser): (rs: seq<LineResult>)
    ensures |rs| == |lines|
    ensures forall i :: 0 <= i < |lines| ==> rs[i] == ParseLine(lines[i], parse)
  {
    seq(|lines|, i requires 0 <= i < |lines| => ParseLine(lines[i], parse))
  }

  /**
   * The record after the `forEach` over the lines: later keys overwrite earlier ones; None if a line
   * throws. `frontmatter['__proto__'] = value` creates no own property: a string is ignored and an
   * array becomes the prototype, which holds none of the fields the blog reads.
   */
  function Fold(rs: seq<LineResult>): Option<map<string, Json>> {
    if rs == [] then Some(map[])
    else
      match Fold(rs[..|rs| - 1])
      case None => None
      case Some(m) =>
        match rs[|rs| - 1]
        case Skip => Some(m)
        case Throws => None
        case Entry(k, v) => if k == ProtoName then Some(m) else Some(m[k := v])
  }

  /** The whole of `parseFrontMatter`; None stands for the exception a malformed array value raises. */
  function ParseSpec(text: string, parse: ArrayParser): Option<Parsed> {
    match MatchHeader(text)
    case None => Some(Parsed(map[], text))
    case Some(h) =>
      match Fold(LineResults(Split(h.frontMatter, '\n'), parse))
      case None => None
      case Some(m) => Some(Parsed(m, h.body))
  }

  /** `parseFrontMatter`: fills the record line by line. */
  method ParseFrontMatter(text: string, parse: ArrayParser) returns (r: Option<Parsed>)
    ensures r == ParseSpec(text, parse)
    ensures MatchHeader(text).None? ==> r == Some(Parsed(map[], text))
    ensures MatchHeader(text).Some? && r.Some? ==> r.value.body == MatchHeader(text).value.body
  {
    var header := MatchHeader(text);
    if header.None? {
      return Some(Parsed(map[], text));
    }
    var lines := Split(header.value.frontMatter, '\n');
    ghost var rs := LineResults(lines, parse);
    var fields: map<string, Json> := map[];
    for i := 0 to |lines|
      invariant Fold(rs[..i]) == Some(fields)
    {
      var res := ParseLine(lines[i], parse);
      FoldStep(rs, i, fields);
      match res
      case Skip =>
      case Throws =>
        FoldThrowsAll(rs, i + 1);
        return None;
      case Entry(k, v) =>
        if k != ProtoName {
          fields := fields[k := v];
        }
    }
    assert rs[..|lines|] == rs;
    r := Some(Parsed(fields, header.value.body));
  }

  /** One more line: the record after `i + 1` lines follows from the record after `i` lines and line `i`. */
  lemma FoldStep(rs: seq<LineResult>, i: nat, fields: map<string, Json>)
    requires i < |rs| && Fold(rs[..i]) == Some(fields)
    ensures Fold(rs[..i + 1]) == match rs[i]
      case Skip => Some(fields)
      case Throws => None
      case Entry(k, v) => if k == ProtoName then Some(fields) else Some(fields[k := v])
  {
    assert rs[..i + 1][..i] == rs[..i];
  }

  /** An exception on one line ends the whole parse: nothing after it can undo it. */
  lemma {:induction false} FoldThrowsAll(rs: seq<LineResult>, n: nat)
    requires n <= |rs| && Fold(rs[..n]).None?
    ensures Fold(rs).None?
    decreases |rs|
  {
    if n < |rs| {
      var pre := rs[..|rs| - 1];
      assert pre[..n] == rs[..n];
      FoldThrowsAll(pre, n);
    } else {
      assert rs[..n] == rs;
    }
  }

  /** Every stored value is a string or an array: never the boolean `false`. */
  lemma {:induction false} FoldStringsOrArrays(rs: seq<LineResult>)
    requires Fold(rs).Some?
    requires forall i :: 0 <= i < |rs| && rs[i].Entry? ==> rs[i].value.JString? || rs[i].value.JArray?
    ensures forall k :: k in Fold(rs).value ==> Fold(rs).value[k].JString? || Fold(rs).value[k].JArray?
  {
    if rs != [] {
      FoldStringsOrArrays(rs[..|rs| - 1]);
    }
  }

  /** Every field of a parsed front matter is a string or an array. */
  lemma ParsedStringsOrArrays(text: string, parse: ArrayParser)
    requires ParseSpec(text, parse).Some?
    ensures var fields := ParseSpec(text, parse).value.fields;
      forall k :: k in fields ==> fields[k].JString? || fields[k].JArray?
  {
    var h := MatchHeader(text);
    if h.Some? {
      FoldStringsOrArrays(LineResults(Split(h.value.frontMatter, '\n'), parse));
    }
  }

  /** So `frontmatter.published !== false` holds for every file that parses. */
  lemma PublishedNeverFalse(text: string, parse: ArrayParser)
    requires ParseSpec(text, parse).Some?
    ensures var fields := ParseSpec(text, parse).value.fields;
      "published" !in fields || fields["published"] != JBool(false)
  {
    ParsedStringsOrArrays(text, parse);
  }

  /** Line outcome `res` stores a value under `k`. */
  predicate Defines(res: LineResult, k: string) {
    res.Entry? && res.key == k
  }

  /** A key is present exactly when some line defines it, except `__proto__`, which is never an own key. */
  lemma {:induction false} KeyPresentIffDefined(rs: seq<LineResult>, k: string)
    requires Fold(rs).Some?
    ensures k in Fold(rs).value <==> k != ProtoName && exists i :: 0 <= i < |rs| && Defines(rs[i], k)
  {
    if rs != [] {
      var n := |rs| - 1;
      var pre := rs[..n];
      KeyPresentIffDefined(pre, k);
      if exists i :: 0 <= i < |rs| && Defines(rs[i], k) {
        var i :| 0 <= i < |rs| && Defines(rs[i], k);
        if i < n {
          assert Defines(pre[i], k);
        }
      }
      if exists i :: 0 <= i < n && Defines(pre[i], k) {
        var i :| 0 <= i < n && Defines(pre[i], k);
        assert Defines(rs[i], k);
      }
    }
  }

  /** A key holds the value given by the LAST line that defines it: later lines overwrite earlier ones. */
  lemma {:induction false} LastDefinitionWins(rs: seq<LineResult>, k: string)
    requires Fold(rs).Some?
    requires k in Fold(rs).value
    ensures exists i :: (0 <= i < |rs| && rs[i] == Entry(k, Fold(rs).value[k])
      && forall j :: i < j < |rs| ==> !Defines(rs[j], k))
  {
    var n := |rs| - 1;
    var pre := rs[..n];
    var m := Fold(rs).value;
    KeyPresentIffDefined(rs, k);
    if Defines(rs[n], k) {
      assert rs[n] == Entry(k, m[k]);
    } else {
      var m0 := Fold(pre).value;
      assert k in m0 && m0[k] == m[k];
      LastDefinitionWins(pre, k);
      var i :| 0 <= i < n && pre[i] == Entry(k, m0[k]) && forall j :: i < j < n ==> !Defines(pre[j], k);
      assert rs[i] == Entry(k, m[k]);
      assert forall j :: i < j < |rs| ==> !Defines(rs[j], k) by {
        forall j | i < j < |rs|
          ensures !Defines(rs[j], k)
        {
          if j < n {
            assert rs[j] == pre[j];
          }
        }
      }
    }
  }
}
