/**
 * The heading passes of the Markdown renderer (components/post/MarkdownRenderer.tsx): a line that
 * starts with `### `, `## ` or `# ` becomes an `<h3>`, `<h2>` or `<h1>` element whose anchor is
 * `heading-N`, where N comes from one counter that the three passes share, in the order h3, h2, h1.
 * The document is taken as its list of lines; the passes' patterns are anchored at line starts and
 * their titles stop at the end of the line.
 */
module MarkdownHeadings {
  import opened Strings

  /** A line during the heading passes: still text, or already replaced by a heading element. */
  datatype Line = Text(text: string) | Heading(level: nat, id: nat, title: string)

  /** The marker a pass looks for at the start of a line. */
  function Marker(level: nat): string
    requires 1 <= level <= 3
  {
    if level == 3 then "### " else if level == 2 then "## " else "# "
  }

  /** The heading level of a line: the marker it starts with, 0 when it starts with none. */
  function Level(s: string): (l: nat)
    ensures l <= 3
  {
    if StartsWith(s, "### ") then 3
    else if StartsWith(s, "## ") then 2
    else if StartsWith(s, "# ") then 1
    else 0
  }

  /** A line starts with at most one of the three markers, and its level names that one. */
  lemma LevelByMarker(s: string, k: nat)
    requires 1 <= k <= 3
    ensures StartsWith(s, Marker(k)) <==> Level(s) == k
  {
    if StartsWith(s, "### ") {
      assert s[..4][1] == s[1] && s[..4][2] == s[2];
      assert s[..3][2] == s[2] && s[..2][1] == s[1];
    } else if StartsWith(s, "## ") {
      assert s[..3][1] == s[1];
      assert s[..2][1] == s[1];
    }
  }

  /** The heading text: the rest of the line after the marker. */
  function Title(s: string): (t: string)
    requires Level(s) != 0
    ensures s == Marker(Level(s)) + t
  {
    var n := Level(s) + 1;
    LevelByMarker(s, Level(s));
    assert s[..n] == Marker(Level(s));
    s[n..]
  }

  /** The anchor id of the heading numbered `n`. */
  function Anchor(n: nat): string {
    "heading-" + NatToString(n)
  }

  /** Distinct numbers give distinct anchors. */
  lemma AnchorsDistinct(a: nat, b: nat)
    requires Anchor(a) == Anchor(b)
    ensures a == b
  {
    var p := "heading-";
    assert NatToString(a) == Anchor(a)[|p|..];
    assert NatToString(b) == Anchor(b)[|p|..];
    DecimalValueOfNat(a);
    DecimalValueOfNat(b);
  }

  /** The CSS classes of each heading level. */
  function HeadingClass(level: nat): string {
    if level == 3 then "text-xl font-bold text-gray-900 mt-8 mb-4"
    else if level == 2 then "text-2xl font-bold text-gray-900 mt-10 mb-6"
    else "text-3xl font-bold text-gray-900 mt-12 mb-8"
  }

  /** The element a heading line is replaced with. */
  function HeadingHtml(level: nat, id: nat, title: string): (h: string)
    requires 1 <= level <= 3
    ensures |h| > 0 && h[0] == '<'
  {
    var tag := "h" + [Digit(level)];
    var rest := tag + " id=\"" + Anchor(id) + "\" class=\"" + HeadingClass(level) + "\">" + title + "</" + tag + ">";
    ['<'] + rest
  }

  /** A replaced heading starts with `<`, so no later pass takes it for a heading line. */
  lemma RenderedHeadingUnmatched(level: nat, id: nat, title: string)
    requires 1 <= level <= 3
    ensures Level(HeadingHtml(level, id, title)) == 0
  {
    Unmarked(HeadingHtml(level, id, title));
  }

  /** A line that starts with `<` has no heading marker. */
  lemma Unmarked(h: string)
    requires |h| > 0 && h[0] == '<'
    ensures Level(h) == 0
  {
    if |h| >= 2 {
      assert h[..2][0] == '<';
    }
    if |h| >= 3 {
      assert h[..3][0] == '<';
    }
    if |h| >= 4 {
      assert h[..4][0] == '<';
    }
  }

  /** The document before the passes: every line is text. */
  function Texts(lines: seq<string>): (ls: seq<Line>)
    ensures |ls| == |lines|
    ensures forall i :: 0 <= i < |lines| ==> ls[i] == Text(lines[i])
  {
    seq(|lines|, i requires 0 <= i < |lines| => Text(lines[i]))
  }

  /** The pass for `level` replaces this line. */
  predicate Matches(line: Line, level: nat)
    requires 1 <= level <= 3
  {
    line.Text? && StartsWith(line.text, Marker(level))
  }

  /** One line through the pass for `level`, with `id` the counter after its increment. */
  function Step(line: Line, level: nat, id: nat): Line
    requires 1 <= level <= 3
  {
    if Matches(line, level) then Heading(level, id, line.text[level + 1..]) else line
  }

  /** How many lines the pass for `level` replaces. */
  function Matched(ls: seq<Line>, level: nat): nat
    requires 1 <= level <= 3
  {
    if ls == [] then 0
    else Matched(ls[..|ls| - 1], level) + (if Matches(ls[|ls| - 1], level) then 1 else 0)
  }

  /** The pass for `level` with the counter starting at `start`: each line against the matches before it. */
  function Pass(ls: seq<Line>, level: nat, start: nat): (out: seq<Line>)
    requires 1 <= level <= 3
    ensures |out| == |ls|
  {
    seq(|ls|, i requires 0 <= i < |ls| => Step(ls[i], level, start + Matched(ls[..i], level) + 1))
  }

  /**
   * One `html.replace` pass: each matching line in document order increments the counter and is
   * replaced by a heading numbered with the new value.
   */
  method HeadingPass(ls: seq<Line>, level: nat, counter0: nat) returns (out: seq<Line>, counter: nat)
    requires 1 <= level <= 3
    ensures out == Pass(ls, level, counter0)
    ensures counter == counter0 + Matched(ls, level)
  {
    out, counter := [], counter0;
    var i := 0;
    while i < |ls|
      invariant 0 <= i <= |ls|
      invariant out == Pass(ls[..i], level, counter0)
      invariant counter == counter0 + Matched(ls[..i], level)
    {
      var line := ls[i];
      PassSnoc(ls, level, counter0, i, out, counter - counter0);
      ghost var id := counter + 1;
      if line.Text? && StartsWith(line.text, Marker(level)) {
        counter := counter + 1;
        line := Heading(level, counter, line.text[level + 1..]);
      }
      assert line == Step(ls[i], level, id);
      out := out + [line];
      i := i + 1;
    }
    assert ls[..|ls|] == ls;
  }

  /** Extending the prefix by line `i` appends that line's step, and counts it when it matches. */
  lemma PassSnoc(ls: seq<Line>, level: nat, start: nat, i: nat, out: seq<Line>, n: nat)
    requires 1 <= level <= 3 && i < |ls|
    requires out == Pass(ls[..i], level, start) && n == Matched(ls[..i], level)
    ensures Matched(ls[..i + 1], level) == n + (if Matches(ls[i], level) then 1 else 0)
    ensures Pass(ls[..i + 1], level, start) == out + [Step(ls[i], level, start + n + 1)]
  {
    assert ls[..i + 1][..i] == ls[..i];
    PassPrefix(ls[..i + 1], level, start, i);
  }

  /** How many of `lines` are headings of `level`. */
  function Count(lines: seq<string>, level: nat): nat {
    if lines == [] then 0
    else Count(lines[..|lines| - 1], level) + (if Level(lines[|lines| - 1]) == level then 1 else 0)
  }

  /** The numbers taken by the levels whose passes run first: h3 before h2 before h1. */
  function Before(lines: seq<string>, level: nat): nat {
    if level == 3 then 0
    else if level == 2 then Count(lines, 3)
    else Count(lines, 3) + Count(lines, 2)
  }

  /** How many headings the document has. */
  function Total(lines: seq<string>): nat {
    Count(lines, 3) + Count(lines, 2) + Count(lines, 1)
  }

  /** The number of the heading on line `i`: the deeper headings, then its place among its level. */
  function IdOf(lines: seq<string>, i: nat): nat
    requires i < |lines|
  {
    Before(lines, Level(lines[i])) + Count(lines[..i], Level(lines[i])) + 1
  }

  /** The document after the three passes, line by line. */
  function Numbered(lines: seq<string>): (ls: seq<Line>)
    ensures |ls| == |lines|
  {
    seq(|lines|, i requires 0 <= i < |lines| =>
      if Level(lines[i]) == 0 then Text(lines[i]) else Heading(Level(lines[i]), IdOf(lines, i), Title(lines[i])))
  }

  /** The three passes of the renderer, sharing `headingIndex`. */
  method NumberHeadings(lines: seq<string>) returns (out: seq<Line>)
    ensures out == Numbered(lines)
  {
    var headingIndex := 0;
    var t := Texts(lines);
    var a, b, c;
    StageEnds(lines);
    PassStage(lines, 3);
    a, headingIndex := HeadingPass(t, 3, headingIndex);
    assert a == Stage(lines, 3) && headingIndex == Before(lines, 2);
    PassStage(lines, 2);
    b, headingIndex := HeadingPass(a, 2, headingIndex);
    assert b == Stage(lines, 2) && headingIndex == Before(lines, 1);
    PassStage(lines, 1);
    c, headingIndex := HeadingPass(b, 1, headingIndex);
    out := c;
  }

  // ----- the passes, one level at a time -----

  /**
   * The document once the passes for levels 3 down to `k` have run: the headings of those levels
   * are numbered, every other line is still text. `Stage(lines, 4)` is the document before any pass.
   */
  function Stage(lines: seq<string>, k: nat): (ls: seq<Line>)
    requires 1 <= k <= 4
    ensures |ls| == |lines|
  {
    seq(|lines|, i requires 0 <= i < |lines| =>
      if Level(lines[i]) >= k then Heading(Level(lines[i]), IdOf(lines, i), Title(lines[i])) else Text(lines[i]))
  }

  /** The prefix of a pass's output is the pass over the prefix. */
  lemma PassPrefix(ls: seq<Line>, level: nat, start: nat, i: nat)
    requires 1 <= level <= 3 && i <= |ls|
    ensures Pass(ls, level, start)[..i] == Pass(ls[..i], level, start)
  {
    forall j | 0 <= j < i
      ensures Pass(ls, level, start)[j] == Pass(ls[..i], level, start)[j]
    {
      PassPrefixAt(ls, level, start, i, j);
    }
  }

  lemma PassPrefixAt(ls: seq<Line>, level: nat, start: nat, i: nat, j: nat)
    requires 1 <= level <= 3 && j < i <= |ls|
    ensures Pass(ls, level, start)[j] == Pass(ls[..i], level, start)[j]
  {
    assert ls[..i][..j] == ls[..j];
    assert ls[..i][j] == ls[j];
  }

  /** Before the pass for `k`, that pass matches exactly the lines of level `k`. */
  lemma StageMatches(lines: seq<string>, k: nat, j: nat)
    requires 1 <= k <= 3 && j < |lines|
    ensures Matches(Stage(lines, k + 1)[j], k) <==> Level(lines[j]) == k
  {
    LevelByMarker(lines[j], k);
  }

  lemma {:induction false} MatchedStage(lines: seq<string>, k: nat, i: nat)
    requires 1 <= k <= 3 && i <= |lines|
    ensures Matched(Stage(lines, k + 1)[..i], k) == Count(lines[..i], k)
  {
    var st := Stage(lines, k + 1);
    if i > 0 {
      MatchedStage(lines, k, i - 1);
      assert st[..i][..i - 1] == st[..i - 1];
      assert lines[..i][..i - 1] == lines[..i - 1];
      StageMatches(lines, k, i - 1);
    }
  }

  /** One line through the pass for `k`, given how many lines of level `k` precede it. */
  lemma StageStep(lines: seq<string>, k: nat, i: nat, line: Line, n: nat)
    requires 1 <= k <= 3 && i < |lines|
    requires line == Stage(lines, k + 1)[i] && n == Count(lines[..i], k)
    ensures Step(line, k, Before(lines, k) + n + 1) == Stage(lines, k)[i]
  {
    LevelByMarker(lines[i], k);
  }

  /** The pass for `k`, with the counter at the number of deeper headings, takes one stage to the next. */
  lemma PassStage(lines: seq<string>, k: nat)
    requires 1 <= k <= 3
    ensures Pass(Stage(lines, k + 1), k, Before(lines, k)) == Stage(lines, k)
    ensures Matched(Stage(lines, k + 1), k) == Count(lines, k)
  {
    var st, out := Stage(lines, k + 1), Pass(Stage(lines, k + 1), k, Before(lines, k));
    forall i | 0 <= i < |lines|
      ensures out[i] == Stage(lines, k)[i]
    {
      MatchedStage(lines, k, i);
      StageStep(lines, k, i, st[i], Count(lines[..i], k));
    }
    MatchedStageAll(lines, k);
  }

  lemma MatchedStageAll(lines: seq<string>, k: nat)
    requires 1 <= k <= 3
    ensures Matched(Stage(lines, k + 1), k) == Count(lines, k)
  {
    var st := Stage(lines, k + 1);
    MatchedStage(lines, k, |lines|);
    assert st[..|lines|] == st && lines[..|lines|] == lines;
  }

  /** Before any pass, every line is text; after the last, every heading is numbered. */
  lemma StageEnds(lines: seq<string>)
    ensures Stage(lines, 4) == Texts(lines)
    ensures Stage(lines, 1) == Numbered(lines)
  {
  }

  // ----- the numbering -----

  /** Counting over a prefix that ends just after line `i`, and over the whole document. */
  lemma {:induction false} CountPrefix(lines: seq<string>, i: nat, level: nat)
    requires i < |lines|
    ensures Count(lines[..i + 1], level) == Count(lines[..i], level) + (if Level(lines[i]) == level then 1 else 0)
    ensures Count(lines[..i + 1], level) <= Count(lines, level)
  {
    assert lines[..i + 1][..i] == lines[..i];
    CountMonotone(lines, i + 1, level);
  }

  lemma {:induction false} CountMonotone(lines: seq<string>, j: nat, level: nat)
    requires j <= |lines|
    ensures Count(lines[..j], level) <= Count(lines, level)
  {
    if j < |lines| {
      var pre := lines[..|lines| - 1];
      CountMonotone(pre, j, level);
      assert pre[..j] == lines[..j];
    } else {
      assert lines[..j] == lines;
    }
  }

  /** The number of a heading lies within the block of numbers of its level. */
  lemma IdWithinLevel(lines: seq<string>, i: nat)
    requires i < |lines| && Level(lines[i]) != 0
    ensures Before(lines, Level(lines[i])) < IdOf(lines, i) <= Before(lines, Level(lines[i])) + Count(lines, Level(lines[i]))
  {
    CountPrefix(lines, i, Level(lines[i]));
  }

  /** Every heading is numbered between 1 and the number of headings. */
  lemma IdsInRange(lines: seq<string>, i: nat)
    requires i < |lines| && Level(lines[i]) != 0
    ensures 1 <= IdOf(lines, i) <= Total(lines)
  {
    IdWithinLevel(lines, i);
  }

  /** Of two headings, the one of the deeper level has the smaller number, wherever they stand. */
  lemma DeeperLevelsFirst(lines: seq<string>, i: nat, j: nat)
    requires i < |lines| && j < |lines|
    requires Level(lines[i]) > Level(lines[j]) >= 1
    ensures IdOf(lines, i) < IdOf(lines, j)
  {
    IdWithinLevel(lines, i);
    IdWithinLevel(lines, j);
  }

  /** Headings of one level are numbered in document order. */
  lemma SameLevelInOrder(lines: seq<string>, i: nat, j: nat)
    requires i < j < |lines|
    requires Level(lines[i]) == Level(lines[j]) != 0
    ensures IdOf(lines, i) < IdOf(lines, j)
  {
    var l := Level(lines[i]);
    CountPrefix(lines, i, l);
    CountMonotone(lines[..j], i + 1, l);
    assert lines[..j][..i + 1] == lines[..i + 1];
  }

  /** No two headings share a number, and so no two share an anchor. */
  lemma IdsDistinct(lines: seq<string>, i: nat, j: nat)
    requires i < |lines| && j < |lines| && i != j
    requires Level(lines[i]) != 0 && Level(lines[j]) != 0
    ensures IdOf(lines, i) != IdOf(lines, j)
    ensures Anchor(IdOf(lines, i)) != Anchor(IdOf(lines, j))
  {
    if Level(lines[i]) > Level(lines[j]) {
      DeeperLevelsFirst(lines, i, j);
    } else if Level(lines[i]) < Level(lines[j]) {
      DeeperLevelsFirst(lines, j, i);
    } else if i < j {
      SameLevelInOrder(lines, i, j);
    } else {
      SameLevelInOrder(lines, j, i);
    }
    if Anchor(IdOf(lines, i)) == Anchor(IdOf(lines, j)) {
      AnchorsDistinct(IdOf(lines, i), IdOf(lines, j));
    }
  }

  /** The `k`-th heading of a level exists while `k` is at most their count. */
  lemma {:induction false} KthOfLevel(lines: seq<string>, level: nat, k: nat)
    requires 1 <= k <= Count(lines, level)
    ensures exists i :: 0 <= i < |lines| && Level(lines[i]) == level && Count(lines[..i], level) == k - 1
  {
    var pre := lines[..|lines| - 1];
    var i := |lines| - 1;
    assert pre == lines[..i];
    if k <= Count(pre, level) {
      KthOfLevel(pre, level, k);
      var j :| 0 <= j < |pre| && Level(pre[j]) == level && Count(pre[..j], level) == k - 1;
      assert pre[..j] == lines[..j];
      assert Level(lines[j]) == level;
    } else {
      assert Level(lines[i]) == level && Count(lines[..i], level) == k - 1;
    }
  }

  /** The numbers leave no gap: every number from 1 to the number of headings belongs to a heading. */
  lemma IdsOnto(lines: seq<string>, k: nat)
    requires 1 <= k <= Total(lines)
    ensures exists i :: 0 <= i < |lines| && Level(lines[i]) != 0 && IdOf(lines, i) == k
  {
    var c3, c2 := Count(lines, 3), Count(lines, 2);
    var level: nat := if k <= c3 then 3 else if k <= c3 + c2 then 2 else 1;
    var n: nat := k - Before(lines, level);
    KthOfLevel(lines, level, n);
    var i :| 0 <= i < |lines| && Level(lines[i]) == level && Count(lines[..i], level) == n - 1;
    assert IdOf(lines, i) == k;
  }
}
