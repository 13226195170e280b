/**
 * The code-block side of the Markdown renderer (components/post/MarkdownRenderer.tsx): fenced blocks
 * are cut out of the text behind numbered placeholders before any other rewrite, rendered with the
 * fence-language aliases and the highlighting fallback, and put back at the end.
 */
module MarkdownCode {
  import opened Wrappers
  import opened Strings
  import opened Seqs

  // ---------------------------------------------------------------------------------------------
  // Fence languages

  /** The alias chain applied to a lowercased fence language; names it does not list pass through. */
  function Alias(l: string): string {
    if l in ["bash", "shell", "sh", "zsh", "console", "shell-session", "bin"] then "bash"
    else if l in ["js", "javascript"] then "javascript"
    else if l in ["ts", "typescript"] then "typescript"
    else if l == "java" then "java"
    else if l in ["py", "python"] then "python"
    else if l == "sql" then "sql"
    else if l in ["yaml", "yml"] then "yaml"
    else if l == "json" then "json"
    else if l == "css" then "css"
    else if l in ["html", "xml", "markup"] then "markup"
    else if l in ["ini", "properties"] then "ini"
    else l
  }

  /**
   * `(lang || 'text').toLowerCase()` followed by the alias chain. A missing or empty language is
   * `text`, which lowercasing and the chain leave alone (`NormalizeAsWritten`).
   */
  function NormalizeLanguage(lang: Option<string>): (r: string)
    ensures lang.None? ==> r == "text"
    ensures r != []
    ensures Lowercase(r)
  {
    if lang.Some? && lang.value != [] then
      var l := Lower(lang.value);
      AliasCases(l);
      TargetsLowercase();
      Alias(l)
    else
      assert Lowercase("text");
      "text"
  }

  /** The normalisation is the alias chain applied to the lowercased language or `text`. */
  lemma NormalizeAsWritten(lang: Option<string>)
    ensures NormalizeLanguage(lang) == Alias(Lower(if lang.Some? && lang.value != [] then lang.value else "text"))
  {
    if !(lang.Some? && lang.value != []) {
      TextIsPlain();
    }
  }

  /** `text` is already lowercase and is no alias. */
  lemma TextIsPlain()
    ensures Lower("text") == "text" && Alias("text") == "text"
  {
    var t := "text";
    assert Lowercase(t);
    LowerOfLowercase(t);
  }

  /** Every alias target is a non-empty lowercase word. */
  lemma TargetsLowercase()
    ensures forall t :: t in AliasTargets ==> t != [] && Lowercase(t) && IsWord(t)
  {
    assert Lowercase("bash") && Lowercase("javascript") && Lowercase("typescript") && Lowercase("java");
    assert Lowercase("python") && Lowercase("sql") && Lowercase("yaml") && Lowercase("json");
    assert Lowercase("css") && Lowercase("markup") && Lowercase("ini");
    TargetWordsA();
    TargetWordsB();
  }

  lemma TargetWordsA()
    ensures IsWord("bash") && IsWord("javascript") && IsWord("typescript") && IsWord("java")
  {
    assert IsWord("bash");
    assert IsWord("javascript");
    assert IsWord("typescript");
  }

  lemma TargetWordsB()
    ensures IsWord("python") && IsWord("sql") && IsWord("yaml") && IsWord("json")
    ensures IsWord("css") && IsWord("markup") && IsWord("ini")
  {
    assert IsWord("python") && IsWord("sql") && IsWord("yaml");
    assert IsWord("json") && IsWord("css");
    assert IsWord("markup") && IsWord("ini");
  }

  /** The aliases as a table: each name on the left is highlighted as the name on the right. */
  const AliasTable: map<string, string> := map[
    "bash" := "bash", "shell" := "bash", "sh" := "bash", "zsh" := "bash", "console" := "bash",
    "shell-session" := "bash", "bin" := "bash",
    "js" := "javascript", "javascript" := "javascript",
    "ts" := "typescript", "typescript" := "typescript",
    "py" := "python", "python" := "python",
    "yaml" := "yaml", "yml" := "yaml",
    "html" := "markup", "xml" := "markup", "markup" := "markup",
    "ini" := "ini", "properties" := "ini"
  ]

  /** A missing language is `text`; a listed name becomes its alias; any other name is only lowercased. */
  lemma NormalizeByTable(lang: Option<string>)
    ensures var l := Lower(if lang.Some? && lang.value != [] then lang.value else "text");
      NormalizeLanguage(lang) == if l in AliasTable then AliasTable[l] else l
  {
    AliasByTable(Lower(if lang.Some? && lang.value != [] then lang.value else "text"));
  }

  lemma AliasByTable(l: string)
    ensures Alias(l) == if l in AliasTable then AliasTable[l] else l
  {
    if l in ShellNames {
      ShellRows(l);
    } else if l in ScriptNames {
      ScriptRows(l);
    } else if l in YamlNames {
      YamlRows(l);
    } else if l in MarkupNames {
      MarkupRows(l);
    } else if l in IniNames {
      IniRows(l);
    } else {
      OtherRows(l);
    }
  }

  const ShellNames: seq<string> := ["bash", "shell", "sh", "zsh", "console", "shell-session", "bin"]
  const ScriptNames: seq<string> := ["js", "javascript", "ts", "typescript", "py", "python"]
  const YamlNames: seq<string> := ["yaml", "yml"]
  const MarkupNames: seq<string> := ["html", "xml", "markup"]
  const IniNames: seq<string> := ["ini", "properties"]

  lemma ShellRows(l: string)
    requires l in ShellNames
    ensures l in AliasTable && AliasTable[l] == Alias(l) == "bash"
  {
  }

  lemma ScriptRows(l: string)
    requires l in ScriptNames
    ensures l in AliasTable && AliasTable[l] == Alias(l)
  {
  }

  lemma YamlRows(l: string)
    requires l in YamlNames
    ensures l in AliasTable && AliasTable[l] == Alias(l) == "yaml"
  {
  }

  lemma MarkupRows(l: string)
    requires l in MarkupNames
    ensures l in AliasTable && AliasTable[l] == Alias(l) == "markup"
  {
  }

  lemma IniRows(l: string)
    requires l in IniNames
    ensures l in AliasTable && AliasTable[l] == Alias(l) == "ini"
  {
  }

  lemma OtherRows(l: string)
    requires l !in ShellNames && l !in ScriptNames && l !in YamlNames && l !in MarkupNames && l !in IniNames
    ensures l !in AliasTable && Alias(l) == l
  {
  }

  /** The names the alias chain can produce besides its input. */
  const AliasTargets: seq<string> :=
    ["bash", "javascript", "typescript", "java", "python", "sql", "yaml", "json", "css", "markup", "ini"]

  lemma AliasCases(l: string)
    ensures Alias(l) == l || Alias(l) in AliasTargets
  {
  }

  lemma AliasTargetsFixed()
    ensures forall t :: t in AliasTargets ==> Alias(t) == t
  {
    FixedA();
    FixedB();
    FixedC();
  }

  lemma FixedA()
    ensures Alias("bash") == "bash" && Alias("javascript") == "javascript" && Alias("typescript") == "typescript"
    ensures Alias("java") == "java"
  {
  }

  lemma FixedB()
    ensures Alias("python") == "python" && Alias("sql") == "sql" && Alias("yaml") == "yaml" && Alias("json") == "json"
  {
  }

  lemma FixedC()
    ensures Alias("css") == "css" && Alias("markup") == "markup" && Alias("ini") == "ini"
  {
  }

  lemma AliasIdempotent(l: string)
    ensures Alias(Alias(l)) == Alias(l)
  {
    if Alias(l) != l {
      AliasCases(l);
      AliasTargetsFixed();
    }
  }

  /** Normalising is idempotent: every normalised name maps to itself. */
  lemma NormalizeIdempotent(lang: Option<string>)
    ensures NormalizeLanguage(Some(NormalizeLanguage(lang))) == NormalizeLanguage(lang)
  {
    var l := Lower(if lang.Some? && lang.value != [] then lang.value else "text");
    var r := NormalizeLanguage(lang);
    NormalizeAsWritten(lang);
    NormalizeAsWritten(Some(r));
    LowerOfLowercase(r);
    AliasIdempotent(l);
  }

  predicate IsWord(s: string) {
    forall k :: 0 <= k < |s| ==> IsWordChar(s[k])
  }

  lemma LowerKeepsWord(s: string)
    requires IsWord(s)
    ensures IsWord(Lower(s))
  {
    var l := Lower(s);
    forall k | 0 <= k < |l| ensures IsWordChar(l[k]) {
      assert l[k] == LowerChar(s[k]);
    }
  }

  /** A fence language made of word characters keeps only word characters after normalising. */
  lemma NormalizedIsWord(lang: Option<string>)
    requires lang.Some? ==> IsWord(lang.value)
    ensures IsWord(NormalizeLanguage(lang))
  {
    var s := if lang.Some? && lang.value != [] then lang.value else "text";
    assert IsWord(s) by {
      if s == "text" {
        assert IsWord("text");
      }
    }
    LowerKeepsWord(s);
    AliasCases(Lower(s));
    TargetsLowercase();
  }

  // ---------------------------------------------------------------------------------------------
  // Highlighting and the markup of one block

  /** Prism as the renderer sees it: which grammars exist, and what highlighting yields (None when it throws). */
  datatype Highlighter = Highlighter(known: string -> bool, highlight: (string, string) -> Option<string>)

  /** The highlighted code, falling back to the code itself for `text`, an unknown grammar or a throw. */
  function Highlighted(code: string, language: string, h: Highlighter): (r: string)
    ensures language == "text" || !h.known(language) ==> r == code
    ensures language != "text" && h.known(language) && h.highlight(code, language).None? ==> r == code
    ensures language != "text" && h.known(language) && h.highlight(code, language).Some? ==>
      r == h.highlight(code, language).value
  {
    if language != "text" && h.known(language) then h.highlight(code, language).GetOr(code) else code
  }

  // The `class` attributes of a block, written in short pieces.

  const WrapperClass: string := "relative group my-4"

  const ButtonPlacement: string := "absolute top-3 right-3 " + "bg-gray-700 hover:bg-gray-600 " + "text-gray-300 px-3 py-1.5 "

  const ButtonEffects: string :=
    "rounded-md text-xs opacity-0 " + "group-hover:opacity-100 " + "transition-opacity z-10 " + "shadow-md"

  const ButtonClass: string := ButtonPlacement + ButtonEffects

  function ThemeClass(dark: bool): string {
    if dark then "bg-gray-800 text-gray-100 " + "border-gray-600" else "bg-gray-50 text-gray-800 " + "border-gray-300"
  }

  const PreClass: string :=
    " rounded-lg border p-5 " + "overflow-x-auto shadow-lg " + "font-mono text-sm " + "leading-relaxed"

  const Indent: string := "\n        "

  const DivOpen: string := "<div class=\"" + WrapperClass + "\">"

  /** The copy button, which hands the block's id to `copyCode`. */
  function Button(codeId: string): string {
    "<button onclick=\"copyCode('" + codeId + "')\" class=\"" + ButtonClass + "\">复制</button>"
  }

  function PreOpen(dark: bool): string {
    "<pre class=\"" + ThemeClass(dark) + PreClass + "\">"
  }

  function CodeOpen(codeId: string, language: string): string {
    "<code id=\"" + codeId + "\" class=\"language-" + language + " block\">"
  }

  /** The markup of a block up to the highlighted code. */
  function BlockOpen(codeId: string, dark: bool, language: string): string {
    DivOpen + Indent + Button(codeId) + Indent + PreOpen(dark) + CodeOpen(codeId, language)
  }

  const BlockClose: string := "</code></pre>\n      </div>"

  /**
   * What the renderer needs besides a fence: the random id it draws for the i-th block, the theme and
   * the highlighter.
   */
  datatype Env = Env(codeId: nat -> string, dark: bool, highlighter: Highlighter)

  /** A fence as matched: its optional language and the code between the opening line and the closing ticks. */
  datatype Fence = Fence(lang: Option<string>, code: string)

  /** The markup stored for the fence that is the `i`-th block. */
  function BlockOf(i: nat, f: Fence, env: Env): string {
    var language := NormalizeLanguage(f.lang);
    BlockOpen(env.codeId(i), env.dark, language) + Highlighted(Trim(f.code), language, env.highlighter) + BlockClose
  }

  // ---------------------------------------------------------------------------------------------
  // Matching fences

  const Ticks: string := "```"

  /** The text a fence was matched from. */
  function Raw(f: Fence): string {
    Ticks + f.lang.GetOr([]) + "\n" + f.code + Ticks
  }

  predicate WordLang(f: Fence) {
    f.lang.Some? ==> f.lang.value != [] && IsWord(f.lang.value)
  }

  /**
   * A match of the fence pattern (three backticks, an optional run of word characters, a newline, then
   * everything up to the nearest three backticks) starting at index `i`, with the index just past it.
   */
  function FenceAt(text: string, i: nat): (r: Option<(Fence, nat)>)
    requires i <= |text|
    ensures r.Some? ==> i < r.value.1 <= |text| && text[i..r.value.1] == Raw(r.value.0)
    ensures r.Some? ==> WordLang(r.value.0)
  {
    if !OccursAt(text, Ticks, i) then None
    else
      var w := PrefixWhile(text[i + 3..], IsWordChar);
      var j := i + 3 + |w|;
      if j < |text| && text[j] == '\n' then
        match IndexFrom(text, Ticks, j + 1)
        case None => None
        case Some(k) =>
          var f := Fence(if w == [] then None else Some(w), text[j + 1..k]);
          FenceSlice(text, i, w, j, k);
          Some((f, k + 3))
      else None
  }

  /** The pieces of a match, put back together, are the matched text. */
  lemma FenceSlice(text: string, i: nat, w: string, j: nat, k: nat)
    requires i + 3 + |w| == j < k && k + 3 <= |text|
    requires OccursAt(text, Ticks, i) && text[i + 3..][..|w|] == w && text[j] == '\n' && OccursAt(text, Ticks, k)
    ensures text[i..k + 3] == Ticks + w + "\n" + text[j + 1..k] + Ticks
  {
    assert text[i + 3..j] == w;
    assert text[i..k + 3] == text[i..i + 3] + text[i + 3..j] + [text[j]] + text[j + 1..k] + text[k..k + 3];
  }

  /**
   * The global scan of the pattern from index `i`: the stretches of text between matches, and the
   * matches. A position where no match starts is skipped one character at a time.
   */
  function Scan(text: string, i: nat): (r: (seq<string>, seq<Fence>))
    requires i <= |text|
    decreases |text| - i
    ensures |r.0| == |r.1| + 1
    ensures forall j :: 0 <= j < |r.1| ==> WordLang(r.1[j])
  {
    if i == |text| then ([[]], [])
    else
      match FenceAt(text, i)
      case Some((f, end)) =>
        var rest := Scan(text, end);
        ([[]] + rest.0, [f] + rest.1)
      case None =>
        var rest := Scan(text, i + 1);
        ([[text[i]] + rest.0[0]] + rest.0[1..], rest.1)
  }

  /** `ps[0] + xs[0] + ps[1] + … + xs[k-1] + ps[k]`. */
  function Interleave(ps: seq<string>, xs: seq<string>): string
    requires |ps| == |xs| + 1
  {
    if xs == [] then ps[0] else ps[0] + xs[0] + Interleave(ps[1..], xs[1..])
  }

  lemma InterleaveConsChar(c: char, ps: seq<string>, xs: seq<string>)
    requires |ps| == |xs| + 1
    ensures Interleave([[c] + ps[0]] + ps[1..], xs) == [c] + Interleave(ps, xs)
  {
    var qs := [[c] + ps[0]] + ps[1..];
    assert qs[1..] == ps[1..];
  }

  lemma InterleaveConsPiece(x: string, ps: seq<string>, xs: seq<string>)
    requires |ps| == |xs| + 1
    ensures Interleave([[]] + ps, [x] + xs) == x + Interleave(ps, xs)
  {
    var l, r := [[]] + ps, [x] + xs;
    assert l[1..] == ps && r[1..] == xs;
    assert l[0] + r[0] == x;
  }

  lemma MapCons<A, B>(a: A, s: seq<A>, f: A -> B)
    ensures Map([a] + s, f) == [f(a)] + Map(s, f)
  {
  }

  /** The scan loses nothing: the stretches and the matched fences, put back together, are the text. */
  lemma {:induction false} ScanCovers(text: string, i: nat)
    requires i <= |text|
    decreases |text| - i
    ensures text[i..] == Interleave(Scan(text, i).0, Map(Scan(text, i).1, Raw))
  {
    if i < |text| {
      match FenceAt(text, i)
      case Some((f, end)) =>
        ScanCovers(text, end);
        ScanCoversFence(text, i, f, end);
      case None =>
        ScanCovers(text, i + 1);
        ScanCoversChar(text, i);
    }
  }

  lemma ScanCoversFence(text: string, i: nat, f: Fence, end: nat)
    requires i < |text| && FenceAt(text, i) == Some((f, end))
    requires text[end..] == Interleave(Scan(text, end).0, Map(Scan(text, end).1, Raw))
    ensures text[i..] == Interleave(Scan(text, i).0, Map(Scan(text, i).1, Raw))
  {
    var rest := Scan(text, end);
    assert Scan(text, i) == ([[]] + rest.0, [f] + rest.1);
    FenceThenRest(text, i, end, Raw(f), rest.0, Map(rest.1, Raw));
    MapCons(f, rest.1, Raw);
  }

  /** A fence's raw text followed by the rest of the text, reassembled. */
  lemma FenceThenRest(text: string, i: nat, end: nat, x: string, ps: seq<string>, xs: seq<string>)
    requires i < end <= |text| && text[i..end] == x
    requires |ps| == |xs| + 1 && text[end..] == Interleave(ps, xs)
    ensures text[i..] == Interleave([[]] + ps, [x] + xs)
  {
    InterleaveConsPiece(x, ps, xs);
    assert text[i..] == text[i..end] + text[end..];
  }

  lemma ScanCoversChar(text: string, i: nat)
    requires i < |text| && FenceAt(text, i).None?
    requires text[i + 1..] == Interleave(Scan(text, i + 1).0, Map(Scan(text, i + 1).1, Raw))
    ensures text[i..] == Interleave(Scan(text, i).0, Map(Scan(text, i).1, Raw))
  {
    var rest := Scan(text, i + 1);
    assert Scan(text, i) == ([[text[i]] + rest.0[0]] + rest.0[1..], rest.1);
    InterleaveConsChar(text[i], rest.0, Map(rest.1, Raw));
    assert text[i..] == [text[i]] + text[i + 1..];
  }

  // ---------------------------------------------------------------------------------------------
  // Extraction

  const Marker: string := "[[CODEBLOCK-"

  /** `[[CODEBLOCK-i]]`. */
  function Placeholder(i: nat): string {
    Marker + NatToString(i) + "]]"
  }

  function Placeholders(n: nat, k: nat): seq<string> {
    seq(k, j requires 0 <= j < k => Placeholder(n + j))
  }

  /** The markup maker of an environment: block `j` made from fence `f`. */
  function Render(env: Env): (nat, Fence) -> string {
    (j: nat, f: Fence) => BlockOf(j, f, env)
  }

  /** The markup of the fences `fences`, the first of them being block `n`. */
  function Blocks(fences: seq<Fence>, n: nat, mk: (nat, Fence) -> string): seq<string> {
    seq(|fences|, j requires 0 <= j < |fences| => mk(n + j, fences[j]))
  }

  /** The text and the blocks the replace callback produces from index `i` on, `n` blocks having been pushed. */
  function ExtractFrom(text: string, i: nat, n: nat, mk: (nat, Fence) -> string): (string, seq<string>)
    requires i <= |text|
    decreases |text| - i
  {
    if i == |text| then ([], [])
    else
      match FenceAt(text, i)
      case Some((f, end)) =>
        var rest := ExtractFrom(text, end, n + 1, mk);
        (Placeholder(n) + rest.0, [mk(n, f)] + rest.1)
      case None =>
        var rest := ExtractFrom(text, i + 1, n, mk);
        ([text[i]] + rest.0, rest.1)
  }

  lemma PlaceholdersCons(n: nat, k: nat)
    ensures Placeholders(n, k + 1) == [Placeholder(n)] + Placeholders(n + 1, k)
  {
  }

  lemma BlocksCons(f: Fence, fs: seq<Fence>, n: nat, mk: (nat, Fence) -> string)
    ensures Blocks([f] + fs, n, mk) == [mk(n, f)] + Blocks(fs, n + 1, mk)
  {
  }

  lemma {:induction false} ExtractScan(text: string, i: nat, n: nat, mk: (nat, Fence) -> string)
    requires i <= |text|
    decreases |text| - i
    ensures var (ps, fs) := Scan(text, i);
      ExtractFrom(text, i, n, mk) == (Interleave(ps, Placeholders(n, |fs|)), Blocks(fs, n, mk))
  {
    if i < |text| {
      match FenceAt(text, i)
      case Some((f, end)) =>
        ExtractScan(text, end, n + 1, mk);
        ExtractScanFence(text, i, n, mk, f, end);
      case None =>
        ExtractScan(text, i + 1, n, mk);
        ExtractScanChar(text, i, n, mk);
    } else {
      assert Placeholders(n, 0) == [];
      assert Blocks([], n, mk) == [];
    }
  }

  lemma ExtractScanFence(text: string, i: nat, n: nat, mk: (nat, Fence) -> string, f: Fence, end: nat)
    requires i < |text| && FenceAt(text, i) == Some((f, end))
    requires var (ps, fs) := Scan(text, end);
      ExtractFrom(text, end, n + 1, mk) == (Interleave(ps, Placeholders(n + 1, |fs|)), Blocks(fs, n + 1, mk))
    ensures var (ps, fs) := Scan(text, i);
      ExtractFrom(text, i, n, mk) == (Interleave(ps, Placeholders(n, |fs|)), Blocks(fs, n, mk))
  {
    var rest := Scan(text, end);
    assert Scan(text, i) == ([[]] + rest.0, [f] + rest.1);
    var out := ExtractFrom(text, end, n + 1, mk);
    assert ExtractFrom(text, i, n, mk) == (Placeholder(n) + out.0, [mk(n, f)] + out.1);
    assert |[f] + rest.1| == |rest.1| + 1;
    ExtractFenceText(rest.0, |rest.1|, out.0, n);
    ExtractFenceBlocks(f, rest.1, out.1, n, mk);
  }

  /** Placeholder `n` in front of the text for the rest of the input. */
  lemma ExtractFenceText(ps: seq<string>, k: nat, t: string, n: nat)
    requires |ps| == k + 1
    requires t == Interleave(ps, Placeholders(n + 1, k))
    ensures Placeholder(n) + t == Interleave([[]] + ps, Placeholders(n, k + 1))
  {
    PlaceholdersCons(n, k);
    InterleaveConsPiece(Placeholder(n), ps, Placeholders(n + 1, k));
  }

  /** Block `n` in front of the blocks for the rest of the input. */
  lemma ExtractFenceBlocks(f: Fence, fs: seq<Fence>, bl: seq<string>, n: nat, mk: (nat, Fence) -> string)
    requires bl == Blocks(fs, n + 1, mk)
    ensures [mk(n, f)] + bl == Blocks([f] + fs, n, mk)
  {
    BlocksCons(f, fs, n, mk);
  }

  lemma ExtractScanChar(text: string, i: nat, n: nat, mk: (nat, Fence) -> string)
    requires i < |text| && FenceAt(text, i).None?
    requires var (ps, fs) := Scan(text, i + 1);
      ExtractFrom(text, i + 1, n, mk) == (Interleave(ps, Placeholders(n, |fs|)), Blocks(fs, n, mk))
    ensures var (ps, fs) := Scan(text, i);
      ExtractFrom(text, i, n, mk) == (Interleave(ps, Placeholders(n, |fs|)), Blocks(fs, n, mk))
  {
    var rest := Scan(text, i + 1);
    assert Scan(text, i) == ([[text[i]] + rest.0[0]] + rest.0[1..], rest.1);
    InterleaveConsChar(text[i], rest.0, Placeholders(n, |rest.1|));
  }

  /**
   * The first replace pass: each fenced block, in order, is replaced by `[[CODEBLOCK-i]]` for its
   * 0-based position `i`, and its markup is pushed so that it sits at index `i` of `codeBlocks`.
   */
  method ExtractCodeBlocks(text: string, env: Env) returns (html: string, codeBlocks: seq<string>)
    ensures var (ps, fs) := Scan(text, 0);
      html == Interleave(ps, Placeholders(0, |fs|)) && codeBlocks == Blocks(fs, 0, Render(env))
  {
    var render := Render(env);
    ghost var whole := ExtractFrom(text, 0, 0, render);
    html, codeBlocks := [], [];
    assert html + whole.0 == whole.0 && codeBlocks + whole.1 == whole.1;
    var i := 0;
    while i < |text|
      invariant i <= |text|
      invariant html + ExtractFrom(text, i, |codeBlocks|, render).0 == whole.0
      invariant codeBlocks + ExtractFrom(text, i, |codeBlocks|, render).1 == whole.1
      decreases |text| - i
    {
      html, codeBlocks, i := ExtractStep(text, i, render, html, codeBlocks);
    }
    assert ExtractFrom(text, i, |codeBlocks|, render) == ([], []);
    assert html + [] == html && codeBlocks + [] == codeBlocks;
    ExtractScan(text, 0, 0, render);
  }

  /** One position of the scan: a fence there is replaced and its markup pushed, any other character kept. */
  method ExtractStep(text: string, i: nat, render: (nat, Fence) -> string, html: string, codeBlocks: seq<string>)
    returns (html': string, codeBlocks': seq<string>, i': nat)
    requires i < |text|
    ensures i < i' <= |text|
    ensures html' + ExtractFrom(text, i', |codeBlocks'|, render).0 == html + ExtractFrom(text, i, |codeBlocks|, render).0
    ensures codeBlocks' + ExtractFrom(text, i', |codeBlocks'|, render).1 == codeBlocks + ExtractFrom(text, i, |codeBlocks|, render).1
  {
    var n := |codeBlocks|;
    match FenceAt(text, i)
    case Some((f, end)) =>
      ghost var rest := ExtractFrom(text, end, n + 1, render);
      ExtractFromFence(text, i, n, render, f, end);
      assert html + (Placeholder(n) + rest.0) == (html + Placeholder(n)) + rest.0;
      assert codeBlocks + ([render(n, f)] + rest.1) == (codeBlocks + [render(n, f)]) + rest.1;
      html', codeBlocks', i' := html + Placeholder(n), codeBlocks + [render(n, f)], end;
    case None =>
      ghost var rest := ExtractFrom(text, i + 1, n, render);
      ExtractFromChar(text, i, n, render);
      assert html + ([text[i]] + rest.0) == (html + [text[i]]) + rest.0;
      html', codeBlocks', i' := html + [text[i]], codeBlocks, i + 1;
  }

  lemma ExtractFromFence(text: string, i: nat, n: nat, mk: (nat, Fence) -> string, f: Fence, end: nat)
    requires i < |text| && FenceAt(text, i) == Some((f, end))
    ensures var rest := ExtractFrom(text, end, n + 1, mk);
      ExtractFrom(text, i, n, mk) == (Placeholder(n) + rest.0, [mk(n, f)] + rest.1)
  {
  }

  lemma ExtractFromChar(text: string, i: nat, n: nat, mk: (nat, Fence) -> string)
    requires i < |text| && FenceAt(text, i).None?
    ensures var rest := ExtractFrom(text, i + 1, n, mk);
      ExtractFrom(text, i, n, mk) == ([text[i]] + rest.0, rest.1)
  {
  }

  // ---------------------------------------------------------------------------------------------
  // Restoring

  /** `s.replace(pattern, () => replacement)`: the first occurrence of `pattern`, replaced literally. */
  function ReplaceFirst(s: string, pattern: string, replacement: string): string {
    match IndexFrom(s, pattern, 0)
    case None => s
    case Some(p) => s[..p] + replacement + s[p + |pattern|..]
  }

  /** The restoring loop from block `idx` on. */
  function RestoreFrom(html: string, blocks: seq<string>, idx: nat): string
    decreases |blocks| - idx
  {
    if idx >= |blocks| then html
    else RestoreFrom(ReplaceFirst(html, Placeholder(idx), blocks[idx]), blocks, idx + 1)
  }

  /** The last step: each placeholder, in order, gives way to the markup stored for it. */
  method RestoreCodeBlocks(html: string, codeBlocks: seq<string>) returns (out: string)
    ensures out == RestoreFrom(html, codeBlocks, 0)
  {
    out := html;
    var idx := 0;
    while idx < |codeBlocks|
      invariant idx <= |codeBlocks|
      invariant RestoreFrom(out, codeBlocks, idx) == RestoreFrom(html, codeBlocks, 0)
    {
      out := ReplaceFirst(out, Placeholder(idx), codeBlocks[idx]);
      idx := idx + 1;
    }
  }

  predicate MarkerFree(s: string) {
    !Contains(s, Marker)
  }

  /** Block markup that cannot take part in a placeholder: marker-free, opening with `<` and closing with `>`. */
  predicate Shielded(b: string) {
    MarkerFree(b) && |b| > 0 && b[0] == '<' && b[|b| - 1] == '>'
  }

  lemma NoBracketMarkerFree(s: string)
    requires Inert(s)
    ensures MarkerFree(s)
  {
    forall i | 0 <= i <= |s| - |Marker| ensures !OccursAt(s, Marker, i) {
      assert s[i..i + |Marker|][0] == s[i];
    }
  }

  lemma MarkerFreeJoin(u: string, v: string)
    requires MarkerFree(u) && MarkerFree(v)
    requires (u != [] && u[|u| - 1] !in Marker) || (v != [] && v[0] !in Marker)
    ensures MarkerFree(u + v)
  {
    var w := u + v;
    var m := |Marker|;
    forall i | 0 <= i <= |w| - m ensures !OccursAt(w, Marker, i) {
      if i + m <= |u| {
        assert w[i..i + m] == u[i..i + m];
        assert !OccursAt(u, Marker, i);
      } else if i >= |u| {
        assert w[i..i + m] == v[i - |u|..i - |u| + m];
        assert !OccursAt(v, Marker, i - |u|);
      } else if u != [] && u[|u| - 1] !in Marker {
        assert w[i..i + m][|u| - 1 - i] == u[|u| - 1];
        assert Marker[|u| - 1 - i] in Marker;
      } else {
        assert w[i..i + m][|u| - i] == v[0];
        assert Marker[|u| - i] in Marker;
      }
    }
  }

  lemma SubstringMarkerFree(s: string, t: string, k: nat)
    requires k + |s| <= |t| && t[k..k + |s|] == s
    requires MarkerFree(t)
    ensures MarkerFree(s)
  {
    if Contains(s, Marker) {
      ContainsMonotone(s, t, Marker, k);
    }
  }

  /** With no marker in `s`, the first occurrence of a placeholder in `s + placeholder + t` is the one after `s`. */
  lemma FirstOccurrence(s: string, t: string, idx: nat)
    requires MarkerFree(s)
    ensures IndexFrom(s + Placeholder(idx) + t, Placeholder(idx), 0) == Some(|s|)
  {
    FirstOccurrenceAt(s, t, idx);
    var w := s + Placeholder(idx) + t;
    var r := IndexFrom(w, Placeholder(idx), 0);
    assert OccursAt(w, Placeholder(idx), |s|);
  }

  lemma FirstOccurrenceAt(s: string, t: string, idx: nat)
    requires MarkerFree(s)
    ensures OccursAt(s + Placeholder(idx) + t, Placeholder(idx), |s|)
    ensures forall j :: 0 <= j < |s| ==> !OccursAt(s + Placeholder(idx) + t, Placeholder(idx), j)
  {
    var p := Placeholder(idx);
    var w := s + p + t;
    var m := |Marker|;
    assert w[|s|..|s| + |p|] == p;
    assert p[..m] == Marker;
    forall j | 0 <= j < |s| ensures !OccursAt(w, p, j) {
      if j + m <= |s| {
        assert w[j..j + m] == s[j..j + m];
        assert !OccursAt(s, Marker, j);
      } else {
        assert w[|s|] == '[' && w[|s| + 1] == '[';
        if j == |s| - 1 {
          assert w[j..j + |p|][2] == w[|s| + 1];
          assert p[2] == 'C';
        } else {
          assert w[j..j + |p|][|s| - j] == w[|s|];
          assert p[|s| - j] == Marker[|s| - j] != '[';
        }
      }
    }
  }

  lemma ReplaceAfter(s: string, t: string, idx: nat, b: string)
    requires MarkerFree(s)
    ensures ReplaceFirst(s + Placeholder(idx) + t, Placeholder(idx), b) == s + b + t
  {
    FirstOccurrence(s, t, idx);
    var w := s + Placeholder(idx) + t;
    assert w[..|s|] == s;
    assert w[|s| + |Placeholder(idx)|..] == t;
  }

  lemma {:induction false} InterleaveSplit(ps: seq<string>, xs: seq<string>, k: nat)
    requires |ps| == |xs| + 1 && k < |xs|
    ensures Interleave(ps, xs) == Interleave(ps[..k + 1], xs[..k]) + xs[k] + Interleave(ps[k + 1..], xs[k + 1..])
  {
    if k > 0 {
      InterleaveSplit(ps[1..], xs[1..], k - 1);
      assert ps[..k + 1][1..] == ps[1..][..k];
      assert xs[..k][1..] == xs[1..][..k - 1];
      assert ps[1..][k..] == ps[k + 1..];
      assert xs[1..][k..] == xs[k + 1..];
    }
  }

  lemma {:induction false} InterleaveShielded(ps: seq<string>, bs: seq<string>)
    requires |ps| == |bs| + 1
    requires forall j :: 0 <= j < |ps| ==> MarkerFree(ps[j])
    requires forall j :: 0 <= j < |bs| ==> Shielded(bs[j])
    ensures MarkerFree(Interleave(ps, bs))
  {
    if bs != [] {
      InterleaveShielded(ps[1..], bs[1..]);
      MarkerFreeJoin(ps[0], bs[0]);
      var u := ps[0] + bs[0];
      assert u[|u| - 1] == bs[0][|bs[0]| - 1];
      MarkerFreeJoin(u, Interleave(ps[1..], bs[1..]));
    }
  }

  /** The pieces of a marker-free interleaving are marker-free. */
  lemma {:induction false} InterleaveParts(ps: seq<string>, xs: seq<string>)
    requires |ps| == |xs| + 1
    requires MarkerFree(Interleave(ps, xs))
    ensures forall j :: 0 <= j < |ps| ==> MarkerFree(ps[j])
    ensures forall j :: 0 <= j < |xs| ==> MarkerFree(xs[j])
  {
    var w := Interleave(ps, xs);
    SubstringMarkerFree(ps[0], w, 0);
    if xs != [] {
      var rest := Interleave(ps[1..], xs[1..]);
      SubstringMarkerFree(xs[0], w, |ps[0]|);
      SubstringMarkerFree(rest, w, |ps[0]| + |xs[0]|);
      InterleaveParts(ps[1..], xs[1..]);
      assert forall j :: 1 <= j < |ps| ==> ps[j] == ps[1..][j - 1];
      assert forall j :: 1 <= j < |xs| ==> xs[j] == xs[1..][j - 1];
    }
  }

  /** Blocks `0..idx-1` already restored, the others still behind their placeholders. */
  function Mixed(blocks: seq<string>, idx: nat): seq<string> {
    seq(|blocks|, j requires 0 <= j < |blocks| => if j < idx then blocks[j] else Placeholder(j))
  }

  lemma RestoreStep(ps: seq<string>, blocks: seq<string>, idx: nat)
    requires |ps| == |blocks| + 1 && idx < |blocks|
    requires forall j :: 0 <= j < |ps| ==> MarkerFree(ps[j])
    requires forall j :: 0 <= j < |blocks| ==> Shielded(blocks[j])
    ensures ReplaceFirst(Interleave(ps, Mixed(blocks, idx)), Placeholder(idx), blocks[idx])
      == Interleave(ps, Mixed(blocks, idx + 1))
  {
    MixedAround(blocks, idx);
    PrefixShielded(ps, blocks, idx);
    Splice(ps, Mixed(blocks, idx), Mixed(blocks, idx + 1), idx, blocks[idx]);
  }

  /** The text before placeholder `idx`, once the blocks before it are back, holds no marker. */
  lemma PrefixShielded(ps: seq<string>, blocks: seq<string>, idx: nat)
    requires |ps| == |blocks| + 1 && idx < |blocks|
    requires forall j :: 0 <= j < |ps| ==> MarkerFree(ps[j])
    requires forall j :: 0 <= j < |blocks| ==> Shielded(blocks[j])
    ensures MarkerFree(Interleave(ps[..idx + 1], blocks[..idx]))
  {
    var qs, bs := ps[..idx + 1], blocks[..idx];
    assert forall j :: 0 <= j < |qs| ==> qs[j] == ps[j];
    assert forall j :: 0 <= j < |bs| ==> bs[j] == blocks[j];
    InterleaveShielded(qs, bs);
  }

  /** Replacing the first placeholder `idx` swaps entry `idx` when nothing before it holds a marker. */
  lemma Splice(ps: seq<string>, xs: seq<string>, ys: seq<string>, idx: nat, b: string)
    requires |ps| == |xs| + 1 && |ys| == |xs| && idx < |xs|
    requires xs[..idx] == ys[..idx] && xs[idx + 1..] == ys[idx + 1..]
    requires xs[idx] == Placeholder(idx) && ys[idx] == b
    requires MarkerFree(Interleave(ps[..idx + 1], xs[..idx]))
    ensures ReplaceFirst(Interleave(ps, xs), Placeholder(idx), b) == Interleave(ps, ys)
  {
    InterleaveSplit(ps, xs, idx);
    InterleaveSplit(ps, ys, idx);
    ReplaceAfter(Interleave(ps[..idx + 1], xs[..idx]), Interleave(ps[idx + 1..], xs[idx + 1..]), idx, b);
  }

  /** Step `idx` of the restore changes entry `idx` of the mixture and nothing else. */
  lemma MixedAround(blocks: seq<string>, idx: nat)
    requires idx < |blocks|
    ensures Mixed(blocks, idx)[..idx] == blocks[..idx] == Mixed(blocks, idx + 1)[..idx]
    ensures Mixed(blocks, idx)[idx + 1..] == Mixed(blocks, idx + 1)[idx + 1..]
    ensures Mixed(blocks, idx)[idx] == Placeholder(idx) && Mixed(blocks, idx + 1)[idx] == blocks[idx]
  {
    var xs, ys := Mixed(blocks, idx), Mixed(blocks, idx + 1);
    assert xs[..idx] == blocks[..idx];
    assert ys[..idx] == blocks[..idx];
    assert xs[idx + 1..] == ys[idx + 1..];
  }

  lemma {:induction false} RestoreRest(ps: seq<string>, blocks: seq<string>, idx: nat)
    requires |ps| == |blocks| + 1 && idx <= |blocks|
    requires forall j :: 0 <= j < |ps| ==> MarkerFree(ps[j])
    requires forall j :: 0 <= j < |blocks| ==> Shielded(blocks[j])
    decreases |blocks| - idx
    ensures RestoreFrom(Interleave(ps, Mixed(blocks, idx)), blocks, idx) == Interleave(ps, blocks)
  {
    if idx == |blocks| {
      assert Mixed(blocks, idx) == blocks;
    } else {
      RestoreStep(ps, blocks, idx);
      RestoreRest(ps, blocks, idx + 1);
    }
  }

  lemma MixedNone(blocks: seq<string>)
    ensures Mixed(blocks, 0) == Placeholders(0, |blocks|)
  {
    var xs, ys := Mixed(blocks, 0), Placeholders(0, |blocks|);
    assert |xs| == |ys|;
    forall j | 0 <= j < |xs| ensures xs[j] == ys[j] {
    }
  }

  /**
   * Restoring undoes the placeholders exactly: whatever stands between them, if it holds no
   * `[[CODEBLOCK-` text, every block comes back whole at the place of its own placeholder.
   */
  lemma CodeBlocksRestored(ps: seq<string>, blocks: seq<string>)
    requires |ps| == |blocks| + 1
    requires forall j :: 0 <= j < |ps| ==> MarkerFree(ps[j])
    requires forall j :: 0 <= j < |blocks| ==> Shielded(blocks[j])
    ensures RestoreFrom(Interleave(ps, Placeholders(0, |blocks|)), blocks, 0) == Interleave(ps, blocks)
  {
    MixedNone(blocks);
    RestoreRest(ps, blocks, 0);
  }

  // ---------------------------------------------------------------------------------------------
  // The blocks are shielded

  /** Highlighting never invents the marker, and the random ids hold neither `[` nor `$`. */
  ghost predicate SafeEnv(env: Env) {
    && (forall i :: Inert(env.codeId(i)))
    && (forall c, l :: MarkerFree(c) && env.highlighter.highlight(c, l).Some? ==>
          MarkerFree(env.highlighter.highlight(c, l).value))
  }

  lemma TrimMarkerFree(s: string)
    requires MarkerFree(s)
    ensures MarkerFree(Trim(s))
  {
    var t := TrimStart(s);
    SubstringMarkerFree(t, s, |s| - |t|);
    SubstringMarkerFree(TrimEnd(t), t, 0);
  }

  /** Text holding neither `[` (which starts a placeholder) nor `$` (which starts a replacement pattern). */
  predicate Inert(s: string) {
    forall k :: 0 <= k < |s| ==> s[k] != '[' && s[k] != '$'
  }

  lemma InertJoin(a: string, b: string)
    requires Inert(a) && Inert(b)
    ensures Inert(a + b)
  {
    var w := a + b;
    forall k | 0 <= k < |w| ensures w[k] != '[' && w[k] != '$' {
      if k < |a| {
        assert w[k] == a[k];
      } else {
        assert w[k] == b[k - |a|];
      }
    }
  }

  lemma InertJoin3(a: string, b: string, c: string)
    requires Inert(a) && Inert(b) && Inert(c)
    ensures Inert(a + b + c)
  {
    InertJoin(a, b);
    InertJoin(a + b, c);
  }

  lemma InertNoDollar(s: string)
    requires Inert(s)
    ensures '$' !in s
  {
    assert forall k :: 0 <= k < |s| ==> s[k] != '$';
  }

  lemma DivOpenInert()
    ensures Inert(DivOpen)
  {
    assert Inert("<div class=\"") && Inert(WrapperClass) && Inert("\">");
    InertJoin3("<div class=\"", WrapperClass, "\">");
  }

  lemma ButtonClassInert()
    ensures Inert(ButtonClass)
  {
    ButtonPlacementInert();
    ButtonEffectsInert();
    InertJoin(ButtonPlacement, ButtonEffects);
  }

  lemma ButtonPlacementInert()
    ensures Inert(ButtonPlacement)
  {
    assert Inert("absolute top-3 right-3 ");
    assert Inert("bg-gray-700 hover:bg-gray-600 ");
    assert Inert("text-gray-300 px-3 py-1.5 ");
    InertJoin3("absolute top-3 right-3 ", "bg-gray-700 hover:bg-gray-600 ", "text-gray-300 px-3 py-1.5 ");
  }

  lemma ButtonEffectsInert()
    ensures Inert(ButtonEffects)
  {
    var a, b, c, d := "rounded-md text-xs opacity-0 ", "group-hover:opacity-100 ", "transition-opacity z-10 ", "shadow-md";
    assert Inert(a);
    assert Inert(b);
    assert Inert(c);
    assert Inert(d);
    InertJoin3(a, b, c);
    InertJoin(a + b + c, d);
  }

  lemma ButtonInert(codeId: string)
    requires Inert(codeId)
    ensures Inert(Button(codeId))
  {
    ButtonClassInert();
    var a, b, c := "<button onclick=\"copyCode('", "')\" class=\"", "\">复制</button>";
    assert Inert(a);
    assert Inert(b);
    assert Inert(c);
    InertJoin3(a, codeId, b);
    InertJoin3(a + codeId + b, ButtonClass, c);
  }

  lemma ThemeClassInert(dark: bool)
    ensures Inert(ThemeClass(dark))
  {
    if dark {
      assert Inert("bg-gray-800 text-gray-100 ") && Inert("border-gray-600");
      InertJoin("bg-gray-800 text-gray-100 ", "border-gray-600");
    } else {
      assert Inert("bg-gray-50 text-gray-800 ") && Inert("border-gray-300");
      InertJoin("bg-gray-50 text-gray-800 ", "border-gray-300");
    }
  }

  lemma PreClassInert()
    ensures Inert(PreClass)
  {
    var a, b, c, d := " rounded-lg border p-5 ", "overflow-x-auto shadow-lg ", "font-mono text-sm ", "leading-relaxed";
    assert Inert(a) && Inert(b);
    assert Inert(c) && Inert(d);
    InertJoin3(a, b, c);
    InertJoin(a + b + c, d);
  }

  lemma PreOpenInert(dark: bool)
    ensures Inert(PreOpen(dark))
  {
    ThemeClassInert(dark);
    PreClassInert();
    assert Inert("<pre class=\"") && Inert("\">");
    InertJoin3("<pre class=\"", ThemeClass(dark), PreClass);
    InertJoin("<pre class=\"" + ThemeClass(dark) + PreClass, "\">");
  }

  lemma CodeOpenInert(codeId: string, language: string)
    requires Inert(codeId) && Inert(language)
    ensures Inert(CodeOpen(codeId, language))
  {
    var a, b, c := "<code id=\"", "\" class=\"language-", " block\">";
    assert Inert(a) && Inert(b) && Inert(c);
    InertJoin3(a, codeId, b);
    InertJoin3(a + codeId + b, language, c);
  }

  lemma WordInert(s: string)
    requires IsWord(s)
    ensures Inert(s)
  {
    forall k | 0 <= k < |s| ensures s[k] != '[' && s[k] != '$' {
      assert IsWordChar(s[k]);
    }
  }

  /** The fixed parts of a block's markup hold neither `[` nor `$`. */
  lemma OpenInert(codeId: string, dark: bool, language: string)
    requires Inert(codeId) && Inert(language)
    ensures Inert(BlockOpen(codeId, dark, language))
  {
    DivOpenInert();
    ButtonInert(codeId);
    PreOpenInert(dark);
    CodeOpenInert(codeId, language);
    assert Inert(Indent);
    InertJoin3(DivOpen, Indent, Button(codeId));
    InertJoin3(DivOpen + Indent + Button(codeId), Indent, PreOpen(dark));
    InertJoin(DivOpen + Indent + Button(codeId) + Indent + PreOpen(dark), CodeOpen(codeId, language));
  }

  lemma OpenMarkerFree(codeId: string, dark: bool, language: string)
    requires Inert(codeId) && Inert(language)
    ensures var o := BlockOpen(codeId, dark, language);
      MarkerFree(o) && o[0] == '<' && o[|o| - 1] == '>'
  {
    OpenInert(codeId, dark, language);
    NoBracketMarkerFree(BlockOpen(codeId, dark, language));
  }

  lemma BlockShielded(i: nat, f: Fence, env: Env)
    requires MarkerFree(f.code) && WordLang(f) && SafeEnv(env)
    ensures Shielded(BlockOf(i, f, env))
  {
    var language := NormalizeLanguage(f.lang);
    NormalizedIsWord(f.lang);
    WordInert(language);
    OpenMarkerFree(env.codeId(i), env.dark, language);
    TrimMarkerFree(f.code);
    HighlightedMarkerFree(Trim(f.code), language, env);
    CloseInert();
    NoBracketMarkerFree(BlockClose);
    ShieldedJoin(BlockOpen(env.codeId(i), env.dark, language), Highlighted(Trim(f.code), language, env.highlighter), BlockClose);
  }

  lemma HighlightedMarkerFree(code: string, language: string, env: Env)
    requires MarkerFree(code) && SafeEnv(env)
    ensures MarkerFree(Highlighted(code, language, env.highlighter))
  {
  }

  /** Markup opening with `<` and closing with `>`, around marker-free text, holds no marker. */
  lemma ShieldedJoin(o: string, h: string, c: string)
    requires MarkerFree(o) && |o| > 0 && o[0] == '<' && o[|o| - 1] == '>'
    requires MarkerFree(h)
    requires MarkerFree(c) && |c| > 0 && c[0] == '<' && c[|c| - 1] == '>'
    ensures Shielded(o + h + c)
  {
    MarkerBounds();
    MarkerFreeJoin(o, h);
    MarkerFreeJoin(o + h, c);
    var w := o + h + c;
    assert w[0] == o[0] && w[|w| - 1] == c[|c| - 1];
  }

  lemma RawCodeMarkerFree(f: Fence)
    requires MarkerFree(Raw(f))
    ensures MarkerFree(f.code)
  {
    var pre := Ticks + f.lang.GetOr([]) + "\n";
    assert Raw(f) == pre + f.code + Ticks;
    assert Raw(f)[|pre|..|pre| + |f.code|] == f.code;
    SubstringMarkerFree(f.code, Raw(f), |pre|);
  }

  /**
   * Code is protected from every rewrite between extraction and restoring: when the page holds no
   * `[[CODEBLOCK-` text, however the passes rewrite the stretches between placeholders (without
   * writing the marker), the restored page is those stretches with every block back in its place.
   */
  lemma CodeIsProtected(text: string, env: Env, rewritten: seq<string>)
    requires MarkerFree(text) && SafeEnv(env)
    requires |rewritten| == |Scan(text, 0).0|
    requires forall j :: 0 <= j < |rewritten| ==> MarkerFree(rewritten[j])
    ensures var blocks := Blocks(Scan(text, 0).1, 0, Render(env));
      RestoreFrom(Interleave(rewritten, Placeholders(0, |blocks|)), blocks, 0) == Interleave(rewritten, blocks)
  {
    var (ps, fs) := Scan(text, 0);
    ScanCovers(text, 0);
    assert text[0..] == text;
    InterleaveParts(ps, Map(fs, Raw));
    var blocks := Blocks(fs, 0, Render(env));
    forall j | 0 <= j < |blocks| ensures Shielded(blocks[j]) {
      RawCodeMarkerFree(fs[j]);
      BlockShielded(j, fs[j], env);
    }
    CodeBlocksRestored(rewritten, blocks);
  }

  /**
   * With no rewrite in between, extracting and restoring turns the text into itself with each fence
   * replaced by its block: the text is its stretches and raw fences, the result the same stretches
   * and the blocks.
   */
  lemma ExtractRestore(text: string, env: Env)
    requires MarkerFree(text) && SafeEnv(env)
    ensures var (ps, fs) := Scan(text, 0);
      var (html, blocks) := ExtractFrom(text, 0, 0, Render(env));
      text == Interleave(ps, Map(fs, Raw)) && blocks == Blocks(fs, 0, Render(env))
      && RestoreFrom(html, blocks, 0) == Interleave(ps, blocks)
  {
    var (ps, fs) := Scan(text, 0);
    ScanCovers(text, 0);
    assert text[0..] == text;
    ExtractScan(text, 0, 0, Render(env));
    InterleaveParts(ps, Map(fs, Raw));
    CodeIsProtected(text, env, ps);
  }

  // ---------------------------------------------------------------------------------------------
  // The restore as written

  /**
   * The replacement string of `String.prototype.replace` for a pattern without groups (GetSubstitution,
   * section 22.1.3.19.1 of ECMA-262): `$$` is a dollar, `$&` the match, `` $` `` the text before it and
   * `$'` the text after it; any other `$` stays.
   */
  function Expand(t: string, matched: string, before: string, after: string): string
    decreases |t|
  {
    if t == [] then []
    else if |t| >= 2 && t[0] == '$' && t[1] == '$' then "$" + Expand(t[2..], matched, before, after)
    else if |t| >= 2 && t[0] == '$' && t[1] == '&' then matched + Expand(t[2..], matched, before, after)
    else if |t| >= 2 && t[0] == '$' && t[1] == '`' then before + Expand(t[2..], matched, before, after)
    else if |t| >= 2 && t[0] == '$' && t[1] == '\'' then after + Expand(t[2..], matched, before, after)
    else [t[0]] + Expand(t[1..], matched, before, after)
  }

  /** `s.replace(pattern, replacement)` with a string replacement, as the restoring loop calls it. */
  function ReplaceFirstAsWritten(s: string, pattern: string, replacement: string): string {
    match IndexFrom(s, pattern, 0)
    case None => s
    case Some(p) => s[..p] + Expand(replacement, pattern, s[..p], s[p + |pattern|..]) + s[p + |pattern|..]
  }

  function RestoreAsWritten(html: string, blocks: seq<string>, idx: nat): string
    decreases |blocks| - idx
  {
    if idx >= |blocks| then html
    else RestoreAsWritten(ReplaceFirstAsWritten(html, Placeholder(idx), blocks[idx]), blocks, idx + 1)
  }

  lemma {:induction false} ExpandPrefix(u: string, rest: string, matched: string, before: string, after: string)
    requires '$' !in u
    ensures Expand(u + rest, matched, before, after) == u + Expand(rest, matched, before, after)
  {
    var e := Expand(rest, matched, before, after);
    if u == [] {
      assert u + rest == rest && u + e == e;
    } else {
      var t := u + rest;
      assert t[1..] == u[1..] + rest;
      assert u[0] in u;
      assert t[0] == u[0] != '$';
      ExpandPrefix(u[1..], rest, matched, before, after);
      assert Expand(t, matched, before, after) == [u[0]] + (u[1..] + e);
      assert [u[0]] + (u[1..] + e) == u + e;
    }
  }

  /**
   * The restore as written loses a dollar sign: a block whose code reads `echo $$` (a fence with no
   * language, which is not highlighted) comes back reading `echo $`, while the literal restore keeps it.
   */
  lemma DollarsCollapse(env: Env)
    requires Inert(env.codeId(0))
    ensures var block := BlockOf(0, Fence(None, "echo $$\n"), env);
      var front := BlockOpen(env.codeId(0), env.dark, "text");
      block == front + "echo $$" + BlockClose
      && RestoreFrom(Placeholder(0), [block], 0) == block
      && RestoreAsWritten(Placeholder(0), [block], 0) == front + "echo $" + BlockClose
  {
    EchoTrimmed();
    UnhighlightedBlock(0, "echo $$\n", env);
    TextOpenInert(env.codeId(0), env.dark);
    CloseInert();
    EchoBetween(BlockOpen(env.codeId(0), env.dark, "text"), BlockClose);
  }

  lemma TextOpenInert(codeId: string, dark: bool)
    requires Inert(codeId)
    ensures Inert(BlockOpen(codeId, dark, "text"))
  {
    assert Inert("text");
    OpenInert(codeId, dark, "text");
  }

  /** Markup without `$` around `echo $$`: the literal restore keeps both dollars, the restore as written one. */
  lemma EchoBetween(front: string, tail: string)
    requires Inert(front) && Inert(tail)
    ensures RestoreFrom(Placeholder(0), [front + "echo $$" + tail], 0) == front + "echo $$" + tail
    ensures RestoreAsWritten(Placeholder(0), [front + "echo $$" + tail], 0) == front + "echo $" + tail
  {
    var u := front + "echo ";
    assert Inert("echo ");
    InertJoin(front, "echo ");
    InertNoDollar(u);
    InertNoDollar(tail);
    DollarRestore(u, tail);
    Regroup(front, "echo ", "$$", tail);
    Regroup(front, "echo ", "$", tail);
    EchoPieces();
  }

  lemma EchoPieces()
    ensures "echo " + "$$" == "echo $$" && "echo " + "$" == "echo $"
  {
  }

  lemma Regroup(a: string, b: string, c: string, d: string)
    ensures (a + b) + c + d == a + (b + c) + d
  {
  }

  /** The page `[[CODEBLOCK-0]]` restored with a block holding one `$$`: the restore as written halves it. */
  lemma DollarRestore(u: string, v: string)
    requires '$' !in u && '$' !in v
    ensures RestoreFrom(Placeholder(0), [u + "$$" + v], 0) == u + "$$" + v
    ensures RestoreAsWritten(Placeholder(0), [u + "$$" + v], 0) == u + "$" + v
  {
    RestoreSingle(u + "$$" + v);
    ExpandDoubleDollar(u, v, Placeholder(0), [], []);
  }

  lemma EchoTrimmed()
    ensures Trim("echo $$\n") == "echo $$"
  {
    var s, e := "echo $$\n", "echo $$";
    assert !IsSpace(s[0]);
    assert TrimStart(s) == s;
    assert s[..|s| - 1] == e;
    assert TrimEnd(s) == TrimEnd(e);
    assert !IsSpace(e[|e| - 1]);
  }

  /** A fence without a language is shown as its trimmed code, unhighlighted. */
  lemma UnhighlightedBlock(i: nat, code: string, env: Env)
    ensures BlockOf(i, Fence(None, code), env) == BlockOpen(env.codeId(i), env.dark, "text") + Trim(code) + BlockClose
  {
    assert NormalizeLanguage(None) == "text";
  }

  lemma CloseInert()
    ensures Inert(BlockClose) && BlockClose[0] == '<' && BlockClose[|BlockClose| - 1] == '>'
  {
  }

  lemma MarkerBounds()
    ensures '<' !in Marker && '>' !in Marker
  {
  }

  lemma ExpandDoubleDollar(u: string, v: string, matched: string, before: string, after: string)
    requires '$' !in u && '$' !in v
    ensures Expand(u + "$$" + v, matched, before, after) == u + "$" + v
  {
    ExpandPrefix(u, "$$" + v, matched, before, after);
    assert u + "$$" + v == u + ("$$" + v);
    assert ("$$" + v)[2..] == v;
    ExpandPrefix(v, [], matched, before, after);
    assert v + [] == v;
  }

  /** Restoring the only placeholder of a page that is nothing else: the literal restore gives the block back. */
  lemma RestoreSingle(block: string)
    ensures RestoreFrom(Placeholder(0), [block], 0) == block
    ensures RestoreAsWritten(Placeholder(0), [block], 0) == Expand(block, Placeholder(0), [], [])
  {
    var p := Placeholder(0);
    assert IndexFrom(p, p, 0) == Some(0);
    assert p[..0] == [] && p[|p|..] == [];
  }
}
