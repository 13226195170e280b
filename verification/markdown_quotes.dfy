/**
 * The blockquote passes of the Markdown renderer (components/post/MarkdownRenderer.tsx). The first
 * pass turns every line that starts with `> ` into a `<blockquote>` element holding the rest of the
 * line. The second replaces each closing tag that is followed by nothing but white space and then an
 * opening tag with `<br>`, so that quote lines separated only by blank lines end up in one element,
 * their contents separated by `<br>`.
 */
module MarkdownQuotes {
  import opened Strings

  /** A line after the first pass: a quote line with its content, or any other line. */
  datatype Piece = Quote(content: string) | Plain(line: string)

  /** A block after the merge: one blockquote holding the contents of its lines, or a line as it was. */
  datatype Block = Blockquote(parts: seq<string>) | Line(text: string)

  const QuoteClass: string := "border-l-4 border-blue-500 bg-blue-50 p-6 my-8 rounded-r-lg italic text-gray-700"
  const Open: string := "<blockquote class=\"" + QuoteClass + "\">"
  const Close: string := "</blockquote>"
  const Break: string := "<br>"

  /** The first pass on one line: the pattern `^> (.*$)` takes the rest of the line as content. */
  function QuoteLine(line: string): (p: Piece)
    ensures p.Quote? <==> StartsWith(line, "> ")
    ensures p.Quote? ==> line == "> " + p.content
    ensures p.Plain? ==> p.line == line
  {
    if StartsWith(line, "> ") then
      assert line == line[..2] + line[2..];
      Quote(line[2..])
    else Plain(line)
  }

  /** The first pass on the whole document. */
  function QuoteLines(lines: seq<string>): (ps: seq<Piece>)
    ensures |ps| == |lines|
    ensures forall i :: 0 <= i < |lines| ==> ps[i] == QuoteLine(lines[i])
  {
    seq(|lines|, i requires 0 <= i < |lines| => QuoteLine(lines[i]))
  }

  /** The markup of a line after the first pass. */
  function PieceHtml(p: Piece): string {
    match p
    case Quote(c) => Open + c + Close
    case Plain(l) => l
  }

  /** A line that the merge pattern's `\s*` can pass over: white space only. */
  predicate Blank(p: Piece) {
    p.Plain? && AllSpace(p.line)
  }

  /** The text between a quote's closing tag and the line after `mid`: the lines of `mid`, each after a newline, then a newline. */
  function Gap(mid: seq<Piece>): string {
    if mid == [] then "\n" else "\n" + PieceHtml(mid[0]) + Gap(mid[1..])
  }

  lemma AllSpaceConcat(a: string, b: string)
    ensures AllSpace(a + b) <==> AllSpace(a) && AllSpace(b)
  {
    if AllSpace(a + b) {
      forall i | 0 <= i < |a|
        ensures IsSpace(a[i])
      {
        assert a[i] == (a + b)[i];
      }
      forall i | 0 <= i < |b|
        ensures IsSpace(b[i])
      {
        assert b[i] == (a + b)[|a| + i];
      }
    }
  }

  /**
   * The merge pattern `</blockquote>\s*<blockquote[^>]*>` spans the gap after a quote exactly when
   * every line in the gap is blank: a quote line in it starts with `<`, and any other line must be
   * white space for `\s*` to pass it.
   */
  lemma {:induction false} GapIsSpace(mid: seq<Piece>)
    ensures AllSpace(Gap(mid)) <==> forall j :: 0 <= j < |mid| ==> Blank(mid[j])
  {
    if mid != [] {
      GapIsSpace(mid[1..]);
      var h := PieceHtml(mid[0]);
      AllSpaceConcat("\n" + h, Gap(mid[1..]));
      AllSpaceConcat("\n", h);
      if mid[0].Quote? {
        assert h[0] == '<';
      }
      if forall j :: 0 <= j < |mid[1..]| ==> Blank(mid[1..][j]) {
        if Blank(mid[0]) {
          forall j | 0 <= j < |mid|
            ensures Blank(mid[j])
          {
            if j > 0 {
              assert mid[j] == mid[1..][j - 1];
            }
          }
        }
      } else {
        var j :| 0 <= j < |mid[1..]| && !Blank(mid[1..][j]);
        assert !Blank(mid[j + 1]);
      }
    }
  }

  /** How many blank lines `ps` starts with. */
  function LeadingBlanks(ps: seq<Piece>): (k: nat)
    ensures k <= |ps|
    ensures forall j :: 0 <= j < k ==> Blank(ps[j])
    ensures k < |ps| ==> !Blank(ps[k])
  {
    if ps != [] && Blank(ps[0]) then 1 + LeadingBlanks(ps[1..]) else 0
  }

  /**
   * The quote whose first line has content `c` and is followed by `ps`: the contents of its lines, and
   * the lines after it. The next quote line joins it when only blank lines come between them.
   */
  function Gather(c: string, ps: seq<Piece>): (r: (seq<string>, seq<Piece>))
    ensures |r.0| >= 1 && r.0[0] == c
    ensures |r.1| <= |ps|
    decreases |ps|
  {
    var k := LeadingBlanks(ps);
    if k < |ps| && ps[k].Quote? then
      var more := Gather(ps[k].content, ps[k + 1..]);
      ([c] + more.0, more.1)
    else ([c], ps)
  }

  /** The second pass on the whole document. */
  function Merge(ps: seq<Piece>): seq<Block>
    decreases |ps|
  {
    if ps == [] then []
    else
      match ps[0]
      case Quote(c) =>
        var g := Gather(c, ps[1..]);
        [Blockquote(g.0)] + Merge(g.1)
      case Plain(l) => [Line(l)] + Merge(ps[1..])
  }

  /** The contents of a merged quote, separated by `<br>`. */
  function JoinBreaks(parts: seq<string>): string {
    if parts == [] then []
    else if |parts| == 1 then parts[0]
    else parts[0] + Break + JoinBreaks(parts[1..])
  }

  /** The markup of a block after the merge. */
  function BlockHtml(b: Block): string {
    match b
    case Blockquote(parts) => Open + JoinBreaks(parts) + Close
    case Line(t) => t
  }

  /** A quote line that nothing joins keeps the element the first pass made for it. */
  lemma LoneQuote(c: string)
    ensures BlockHtml(Blockquote([c])) == PieceHtml(Quote(c))
  {
  }

  /** Two quote lines with only blank lines between them: the pattern swallows the gap and the tags. */
  lemma TwoQuotesJoin(a: string, blanks: seq<Piece>, b: string)
    requires forall j :: 0 <= j < |blanks| ==> Blank(blanks[j])
    ensures Merge([Quote(a)] + blanks + [Quote(b)]) == [Blockquote([a, b])]
    ensures BlockHtml(Blockquote([a, b])) == Open + (a + Break + b) + Close
  {
    BlanksThenQuote(blanks, b);
    var rest := blanks + [Quote(b)];
    assert rest[|blanks|] == Quote(b);
    JoinedMerge([Quote(a)] + blanks + [Quote(b)], a, rest, b, |blanks|);
    JoinTwo(a, b);
  }

  lemma JoinTwo(a: string, b: string)
    ensures JoinBreaks([a, b]) == a + Break + b
  {
    assert [a, b][1..] == [b];
  }

  lemma JoinedMerge(ps: seq<Piece>, a: string, rest: seq<Piece>, b: string, k: nat)
    requires ps == [Quote(a)] + rest
    requires |rest| == k + 1 && LeadingBlanks(rest) == k && rest[k] == Quote(b)
    ensures Merge(ps) == [Blockquote([a, b])]
  {
    assert rest[k + 1..] == [];
    var inner := Gather(b, []);
    assert inner == ([b], []);
    GatherJoins(a, rest, inner);
    assert ps[1..] == rest;
    MergeQuote(ps);
    assert [a] + [b] == [a, b];
    assert Merge([]) == [];
  }

  lemma GatherJoins(a: string, rest: seq<Piece>, inner: (seq<string>, seq<Piece>))
    requires LeadingBlanks(rest) < |rest| && rest[LeadingBlanks(rest)].Quote?
    requires inner == Gather(rest[LeadingBlanks(rest)].content, rest[LeadingBlanks(rest) + 1..])
    ensures Gather(a, rest) == ([a] + inner.0, inner.1)
  {
  }

  /** The merge on a document that starts with a quote line. */
  lemma MergeQuote(ps: seq<Piece>)
    requires ps != [] && ps[0].Quote?
    ensures var g := Gather(ps[0].content, ps[1..]); Merge(ps) == [Blockquote(g.0)] + Merge(g.1)
  {
  }

  lemma {:induction false} BlanksThenQuote(blanks: seq<Piece>, b: string)
    requires forall j :: 0 <= j < |blanks| ==> Blank(blanks[j])
    ensures LeadingBlanks(blanks + [Quote(b)]) == |blanks|
  {
    var s := blanks + [Quote(b)];
    if blanks != [] {
      BlanksThenQuote(blanks[1..], b);
      assert s[1..] == blanks[1..] + [Quote(b)];
    }
  }

  // ----- what the merge keeps -----

  /** The contents of the quote lines, in order. */
  function Contents(ps: seq<Piece>): seq<string> {
    if ps == [] then [] else (if ps[0].Quote? then [ps[0].content] else []) + Contents(ps[1..])
  }

  /** The lines that are neither quotes nor blank, in order. */
  function Kept(ps: seq<Piece>): seq<string> {
    if ps == [] then [] else (if ps[0].Plain? && !AllSpace(ps[0].line) then [ps[0].line] else []) + Kept(ps[1..])
  }

  /** The contents held by the blockquotes, in order. */
  function QuoteParts(bs: seq<Block>): seq<string> {
    if bs == [] then [] else (if bs[0].Blockquote? then bs[0].parts else []) + QuoteParts(bs[1..])
  }

  /** The lines outside blockquotes that are not blank, in order. */
  function KeptLines(bs: seq<Block>): seq<string> {
    if bs == [] then [] else (if bs[0].Line? && !AllSpace(bs[0].text) then [bs[0].text] else []) + KeptLines(bs[1..])
  }

  /** Blank lines hold no quote content and no kept line. */
  lemma {:induction false} SkipBlanks(ps: seq<Piece>, k: nat)
    requires k <= |ps|
    requires forall j :: 0 <= j < k ==> Blank(ps[j])
    ensures Contents(ps) == Contents(ps[k..]) && Kept(ps) == Kept(ps[k..])
  {
    if k > 0 {
      SkipBlanks(ps[1..], k - 1);
      assert ps[1..][k - 1..] == ps[k..];
    }
  }

  /** A quote takes the contents of the quote lines it gathers and of nothing else. */
  lemma {:induction false} GatherKeeps(c: string, ps: seq<Piece>)
    decreases |ps|
    ensures var g := Gather(c, ps);
      Contents(ps) == g.0[1..] + Contents(g.1) && Kept(ps) == Kept(g.1)
  {
    var k := LeadingBlanks(ps);
    SkipBlanks(ps, k);
    if k < |ps| && ps[k].Quote? {
      var tail := ps[k + 1..];
      var more := Gather(ps[k].content, tail);
      GatherKeeps(ps[k].content, tail);
      GatherKeepsStep(ps[k..], tail, more.0, Contents(more.1), c);
    }
  }

  /** One step of `GatherKeeps`: the quote line at the head of `s` joins the run. */
  lemma GatherKeepsStep(s: seq<Piece>, tail: seq<Piece>, m: seq<string>, r: seq<string>, c: string)
    requires s != [] && s[0].Quote? && tail == s[1..]
    requires |m| >= 1 && m[0] == s[0].content
    requires Contents(tail) == m[1..] + r
    ensures Contents(s) == ([c] + m)[1..] + r && Kept(s) == Kept(tail)
  {
    assert [m[0]] + (m[1..] + r) == m + r;
    assert ([c] + m)[1..] == m;
  }

  lemma BlocksCons(b: Block, m: seq<Block>)
    ensures QuoteParts([b] + m) == (if b.Blockquote? then b.parts else []) + QuoteParts(m)
    ensures KeptLines([b] + m) == (if b.Line? && !AllSpace(b.text) then [b.text] else []) + KeptLines(m)
  {
    assert ([b] + m)[1..] == m;
  }

  /** The merge loses no quote content and no non-blank line, and keeps both in order. */
  lemma {:induction false} MergeKeeps(ps: seq<Piece>)
    decreases |ps|
    ensures QuoteParts(Merge(ps)) == Contents(ps)
    ensures KeptLines(Merge(ps)) == Kept(ps)
  {
    if ps != [] {
      if ps[0].Quote? {
        var g := Gather(ps[0].content, ps[1..]);
        MergeQuote(ps);
        MergeKeeps(g.1);
        GatherKeeps(ps[0].content, ps[1..]);
        BlocksCons(Blockquote(g.0), Merge(g.1));
        assert g.0 == [ps[0].content] + g.0[1..];
      } else {
        MergeKeeps(ps[1..]);
        BlocksCons(Line(ps[0].line), Merge(ps[1..]));
      }
    }
  }

  // ----- the merge is complete -----

  /** `ps` does not start with blank lines followed by a quote line. */
  predicate NoQuoteAfterBlanks(ps: seq<Piece>) {
    ps == [] || (ps[0].Plain? && (!AllSpace(ps[0].line) || NoQuoteAfterBlanks(ps[1..])))
  }

  /** `bs` does not start with blank lines followed by a blockquote. */
  predicate NoBlockquoteAfterBlanks(bs: seq<Block>) {
    bs == [] || (bs[0].Line? && (!AllSpace(bs[0].text) || NoBlockquoteAfterBlanks(bs[1..])))
  }

  /** After every blockquote, the next block that is not a blank line is not a blockquote. */
  predicate Maximal(bs: seq<Block>) {
    forall i :: 0 <= i < |bs| && bs[i].Blockquote? ==> NoBlockquoteAfterBlanks(bs[i + 1..])
  }

  /** What follows a gathered quote cannot be joined to it. */
  lemma {:induction false} GatherStops(c: string, ps: seq<Piece>)
    decreases |ps|
    ensures NoQuoteAfterBlanks(Gather(c, ps).1)
  {
    var k := LeadingBlanks(ps);
    if k < |ps| && ps[k].Quote? {
      GatherStops(ps[k].content, ps[k + 1..]);
    } else {
      BlanksThenNoQuote(ps, k);
    }
  }

  lemma {:induction false} BlanksThenNoQuote(ps: seq<Piece>, k: nat)
    requires k <= |ps|
    requires forall j :: 0 <= j < k ==> Blank(ps[j])
    requires k < |ps| ==> !Blank(ps[k]) && ps[k].Plain?
    ensures NoQuoteAfterBlanks(ps)
  {
    if k > 0 {
      BlanksThenNoQuote(ps[1..], k - 1);
    }
  }

  lemma {:induction false} MergeNoBlockquoteAfterBlanks(ps: seq<Piece>)
    decreases |ps|
    requires NoQuoteAfterBlanks(ps)
    ensures NoBlockquoteAfterBlanks(Merge(ps))
  {
    if ps != [] && AllSpace(ps[0].line) {
      MergeNoBlockquoteAfterBlanks(ps[1..]);
    }
  }

  /** No two blockquotes of the result are separated by blank lines only: the merge leaves nothing to merge. */
  lemma {:induction false} MergeMaximal(ps: seq<Piece>)
    decreases |ps|
    ensures Maximal(Merge(ps))
  {
    if ps != [] {
      if ps[0].Quote? {
        var g := Gather(ps[0].content, ps[1..]);
        MergeQuote(ps);
        MergeMaximal(g.1);
        GatherStops(ps[0].content, ps[1..]);
        MergeNoBlockquoteAfterBlanks(g.1);
        MaximalCons(Blockquote(g.0), Merge(g.1));
      } else {
        MergeMaximal(ps[1..]);
        MaximalCons(Line(ps[0].line), Merge(ps[1..]));
      }
    }
  }

  lemma MaximalCons(b: Block, m: seq<Block>)
    requires Maximal(m)
    requires b.Blockquote? ==> NoBlockquoteAfterBlanks(m)
    ensures Maximal([b] + m)
  {
    var bs := [b] + m;
    forall i | 0 <= i < |bs| && bs[i].Blockquote?
      ensures NoBlockquoteAfterBlanks(bs[i + 1..])
    {
      if i > 0 {
        assert bs[i] == m[i - 1] && bs[i + 1..] == m[i..];
      } else {
        assert bs[1..] == m;
      }
    }
  }

  /** Every blockquote holds at least one line. */
  lemma {:induction false} PartsNonEmpty(ps: seq<Piece>)
    decreases |ps|
    ensures forall i :: 0 <= i < |Merge(ps)| && Merge(ps)[i].Blockquote? ==> Merge(ps)[i].parts != []
  {
    if ps != [] {
      var rest := if ps[0].Quote? then Gather(ps[0].content, ps[1..]).1 else ps[1..];
      PartsNonEmpty(rest);
      var bs := Merge(ps);
      assert bs[1..] == Merge(rest);
      forall i | 0 <= i < |bs| && bs[i].Blockquote?
        ensures bs[i].parts != []
      {
        if i > 0 {
          assert bs[i] == Merge(rest)[i - 1];
        }
      }
    }
  }

  /** A document without quote lines passes through the merge unchanged. */
  lemma {:induction false} MergeWithoutQuotes(ps: seq<Piece>)
    requires forall j :: 0 <= j < |ps| ==> ps[j].Plain?
    ensures |Merge(ps)| == |ps|
    ensures forall j :: 0 <= j < |ps| ==> Merge(ps)[j] == Line(ps[j].line)
  {
    if ps != [] {
      MergeWithoutQuotes(ps[1..]);
      var bs := Merge(ps);
      forall j | 0 <= j < |ps|
        ensures bs[j] == Line(ps[j].line)
      {
        if j > 0 {
          assert bs[j] == Merge(ps[1..])[j - 1];
          assert ps[j] == ps[1..][j - 1];
        }
      }
    }
  }
}
