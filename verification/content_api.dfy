/**
 * The article source of lib/content-api.ts: turning the files of the posts directory into articles
 * (`getArticles`) and looking articles up by slug, category and tag.
 */
module ContentApi {
  import opened Wrappers
  import opened Strings
  import opened Seqs
  import opened Sorting
  import opened FrontMatter

  /** An article as the rest of the blog sees it. */
  datatype Article = Article(
    id: string,
    title: string,
    slug: string,
    summary: string,
    content: string,
    tags: Json,
    category: string,
    coverImage: string,
    readingTime: Json,
    published: bool,
    publishedAt: string,
    updatedAt: string,
    authorName: string)

  /** One entry of the posts directory listing, with the file's decoded text (None when fetching it fails). */
  datatype FileEntry = FileEntry(name: string, sha: string, createdAt: string, updatedAt: string, text: Option<string>)

  /** Time stamps of date strings (`new Date(s).getTime()`), supplied by the caller; None stands for NaN. */
  type Clock = string -> Option<int>

  predicate IsMarkdownName(name: string) {
    EndsWith(name, ".mdx") || EndsWith(name, ".md")
  }

  /** `name.replace(/\.(mdx?)$/, '')`. */
  function StripExtension(name: string): (r: string)
    ensures EndsWith(name, ".mdx") ==> r + ".mdx" == name
    ensures !EndsWith(name, ".mdx") && EndsWith(name, ".md") ==> r + ".md" == name
    ensures !IsMarkdownName(name) ==> r == name
  {
    if EndsWith(name, ".mdx") then name[..|name| - 4]
    else if EndsWith(name, ".md") then name[..|name| - 3]
    else name
  }

  /** JavaScript truthiness of a front-matter value. */
  predicate Truthy(j: Json) {
    match j
    case JNull => false
    case JBool(b) => b
    case JNumber(n) => n != 0.0
    case JString(s) => s != []
    case JArray(_) => true
    case JObject(_) => true
  }

  /**
   * `(frontmatter[key] as string) || fallback` for a field the blog treats as text. A non-empty
   * string is kept and anything else gives the fallback (an array value is not modelled here).
   */
  function TextField(fields: map<string, Json>, key: string, fallback: string): (r: string)
    ensures key in fields && fields[key].JString? && fields[key].s != [] ==> r == fields[key].s
    ensures key !in fields ==> r == fallback
  {
    if key in fields && fields[key].JString? && fields[key].s != [] then fields[key].s else fallback
  }

  /** `(frontmatter[key] as T) || fallback` when the value is kept whatever its JSON type. */
  function AnyField(fields: map<string, Json>, key: string, fallback: Json): (r: Json)
    ensures key in fields && Truthy(fields[key]) ==> r == fields[key]
    ensures !(key in fields && Truthy(fields[key])) ==> r == fallback
  {
    if key in fields && Truthy(fields[key]) then fields[key] else fallback
  }

  /** The article built from a file and its parsed front matter, with the source's defaults. */
  function ArticleOf(f: FileEntry, p: Parsed): Article {
    Article(
      f.sha,
      TextField(p.fields, "title", ""),
      TextField(p.fields, "slug", StripExtension(f.name)),
      TextField(p.fields, "summary", ""),
      p.body,
      AnyField(p.fields, "tags", JArray([])),
      TextField(p.fields, "category", ""),
      TextField(p.fields, "coverImage", ""),
      AnyField(p.fields, "readingTime", JNumber(1.0)),
      !("published" in p.fields && p.fields["published"] == JBool(false)),
      TextField(p.fields, "date", f.createdAt),
      f.updatedAt,
      TextField(p.fields, "author", "老A"))
  }

  /** What one directory entry contributes: an article, or nothing. */
  function SelectFile(f: FileEntry, parse: ArrayParser): Option<Article> {
    if IsMarkdownName(f.name) && f.text.Some? then
      match ParseSpec(f.text.value, parse)
      case None => None
      case Some(p) =>
        if "published" in p.fields && p.fields["published"] == JBool(false) then None
        else Some(ArticleOf(f, p))
    else None
  }

  /** The articles of the listing in directory order, before sorting. */
  function Selected(files: seq<FileEntry>, parse: ArrayParser): seq<Article> {
    Present(Map(files, (f: FileEntry) => SelectFile(f, parse)))
  }

  /**
   * The comparator `new Date(b.publishedAt).getTime() - new Date(a.publishedAt).getTime()` as "may
   * stand before": newest first. A NaN difference counts as 0, so an article whose date does not
   * parse is equivalent to every other one.
   */
  function ByDateDescending(clock: Clock): (Article, Article) -> bool {
    (a: Article, b: Article) =>
      match (clock(a.publishedAt), clock(b.publishedAt))
      case (Some(ta), Some(tb)) => ta >= tb
      case _ => true
  }

  /** Every article's date has a time stamp. */
  predicate DatesKnown(articles: seq<Article>, clock: Clock) {
    forall i :: 0 <= i < |articles| ==> clock(articles[i].publishedAt).Some?
  }

  /**
   * `getArticles`: every Markdown file whose text could be fetched and parsed, newest first.
   * `listing` is None when the directory cannot be read, which the source turns into no articles.
   * When some date is NaN the comparator is inconsistent and the order is left to the engine
   * (ECMA-262, section 23.1.3.30): only the articles themselves are promised then.
   */
  method GetArticles(listing: Option<seq<FileEntry>>, parse: ArrayParser, clock: Clock) returns (articles: seq<Article>)
    ensures listing.None? ==> articles == []
    ensures listing.Some? ==> multiset(articles) == multiset(Selected(listing.value, parse))
    ensures listing.Some? && DatesKnown(Selected(listing.value, parse), clock) ==>
      articles == Sort(Selected(listing.value, parse), ByDateDescending(clock))
  {
    if listing.None? {
      return [];
    }
    var files := listing.value;
    ghost var outcomes := Map(files, (f: FileEntry) => SelectFile(f, parse));
    var acc: seq<Article> := [];
    for i := 0 to |files|
      invariant acc == Present(outcomes[..i])
    {
      assert outcomes[..i + 1][..i] == outcomes[..i];
      var f := files[i];
      assert outcomes[..i + 1][i] == SelectFile(f, parse);
      if IsMarkdownName(f.name) {
        match f.text
        case None =>
        case Some(text) =>
          var parsed := ParseFrontMatter(text, parse);
          if parsed.Some? {
            var p := parsed.value;
            if !("published" in p.fields && p.fields["published"] == JBool(false)) {
              acc := acc + [ArticleOf(f, p)];
            }
          }
      }
    }
    assert outcomes[..|files|] == outcomes;
    articles := Sort(acc, ByDateDescending(clock));
  }

  /** With every date known, the comparator is a total preorder on the articles. */
  lemma DatedPreorder(s: seq<Article>, clock: Clock)
    requires DatesKnown(s, clock)
    ensures PreorderOn(multiset(s), ByDateDescending(clock))
  {
    forall a | a in multiset(s)
      ensures clock(a.publishedAt).Some?
    {
      var i :| 0 <= i < |s| && s[i] == a;
    }
  }

  /** With every date known, the sort puts the articles newest first. */
  lemma NewestFirst(s: seq<Article>, clock: Clock, i: nat, j: nat)
    requires DatesKnown(s, clock)
    requires i < j < |Sort(s, ByDateDescending(clock))|
    ensures var r := Sort(s, ByDateDescending(clock));
      clock(r[i].publishedAt).Some? && clock(r[j].publishedAt).Some? &&
      clock(r[i].publishedAt).value >= clock(r[j].publishedAt).value
  {
    var le := ByDateDescending(clock);
    var r := Sort(s, le);
    DatedPreorder(s, clock);
    SortSorted(s, le);
    assert le(r[i], r[j]);
    assert r[i] in multiset(s) && r[j] in multiset(s) by {
      assert r[i] in multiset(r) && r[j] in multiset(r);
    }
  }

  /** With every date known, articles with the same time stamp keep their listing order. */
  lemma SameDateKeepsOrder(s: seq<Article>, clock: Clock, x: Article)
    requires DatesKnown(s, clock) && x in s
    ensures Ties(Sort(s, ByDateDescending(clock)), ByDateDescending(clock), x) == Ties(s, ByDateDescending(clock), x)
  {
    DatedPreorder(s, clock);
    assert x in multiset(s);
    PreorderOnMember(multiset(s), x, ByDateDescending(clock));
    SortStable(s, ByDateDescending(clock), x);
  }

  /** Listings are processed file by file: one file's outcome does not depend on the others. */
  lemma SelectedAppend(a: seq<FileEntry>, b: seq<FileEntry>, parse: ArrayParser)
    ensures Selected(a + b, parse) == Selected(a, parse) + Selected(b, parse)
  {
    var select := (f: FileEntry) => SelectFile(f, parse);
    MapAppend(a, b, select);
    PresentAppend(Map(a, select), Map(b, select));
  }

  /**
   * A file becomes an article exactly when its name ends in `.md` or `.mdx`, its text was fetched and
   * its front matter parses; the `published` test never rejects it, and `published` is always true.
   */
  lemma SelectFileExactly(f: FileEntry, parse: ArrayParser)
    ensures SelectFile(f, parse).Some? <==>
      IsMarkdownName(f.name) && f.text.Some? && ParseSpec(f.text.value, parse).Some?
    ensures SelectFile(f, parse).Some? ==> SelectFile(f, parse).value.published
    ensures SelectFile(f, parse).Some? ==>
      SelectFile(f, parse).value.tags.JString? || SelectFile(f, parse).value.tags.JArray?
  {
    if IsMarkdownName(f.name) && f.text.Some? && ParseSpec(f.text.value, parse).Some? {
      PublishedNeverFalse(f.text.value, parse);
      ParsedStringsOrArrays(f.text.value, parse);
    }
  }

  /** Without a `slug` line, the slug is the file name without its `.md` / `.mdx` extension. */
  lemma SlugDefault(f: FileEntry, parse: ArrayParser)
    requires SelectFile(f, parse).Some?
    requires "slug" !in ParseSpec(f.text.value, parse).value.fields
    ensures var slug := SelectFile(f, parse).value.slug;
      slug + ".mdx" == f.name || slug + ".md" == f.name
  {
    PublishedNeverFalse(f.text.value, parse);
  }

  /** A file whose parse throws is skipped, and the files around it still yield their articles. */
  lemma FailingFileSkipped(before: seq<FileEntry>, f: FileEntry, after: seq<FileEntry>, parse: ArrayParser)
    requires f.text.Some? && ParseSpec(f.text.value, parse).None?
    ensures Selected(before + [f] + after, parse) == Selected(before, parse) + Selected(after, parse)
  {
    SelectedAppend(before + [f], after, parse);
    SelectedAppend(before, [f], parse);
    NothingFromFailingFile(f, parse);
  }

  lemma NothingFromFailingFile(f: FileEntry, parse: ArrayParser)
    requires f.text.Some? && ParseSpec(f.text.value, parse).None?
    ensures Selected([f], parse) == []
  {
    var os := Map([f], (g: FileEntry) => SelectFile(g, parse));
    assert os[0].None?;
    assert os[..0] == [];
  }

  /** `getArticle`: the first article with the slug (`find`), or null. */
  function FindBySlug(articles: seq<Article>, slug: string): (r: Option<Article>)
    ensures r.None? <==> forall i :: 0 <= i < |articles| ==> articles[i].slug != slug
    ensures r.Some? ==> exists i :: (0 <= i < |articles| && articles[i] == r.value && r.value.slug == slug
      && forall j :: 0 <= j < i ==> articles[j].slug != slug)
  {
    if articles == [] then None
    else if articles[0].slug == slug then Some(articles[0])
    else
      var r := FindBySlug(articles[1..], slug);
      assert forall i :: 1 <= i < |articles| ==> articles[i] == articles[1..][i - 1];
      r
  }

  /** `getArticlesByCategory`. */
  function ByCategory(articles: seq<Article>, category: string): seq<Article> {
    Filter(articles, (a: Article) => a.category == category)
  }

  /**
   * `tags.includes(tag)`: membership for an array, where only a string item can equal the tag, and
   * substring search for a string. Any other value has no `includes`, and the call throws (None).
   */
  function TagsInclude(tags: Json, tag: string): (r: Option<bool>)
    ensures tags.JArray? ==> r == Some(JString(tag) in tags.items)
    ensures tags.JString? ==> r == Some(Contains(tags.s, tag))
    ensures r.None? <==> !tags.JArray? && !tags.JString?
  {
    match tags
    case JArray(items) => Some(JString(tag) in items)
    case JString(s) => Some(Contains(s, tag))
    case _ => None
  }

  predicate HasTag(a: Article, tag: string) {
    TagsInclude(a.tags, tag) == Some(true)
  }

  /** `includes` can be called on every article's tags. */
  predicate TagsSearchable(articles: seq<Article>, tag: string) {
    forall i :: 0 <= i < |articles| ==> TagsInclude(articles[i].tags, tag).Some?
  }

  /** `getArticlesByTag`: an exception in the `filter` is caught and gives no articles. */
  function ByTag(articles: seq<Article>, tag: string): seq<Article> {
    if TagsSearchable(articles, tag) then Filter(articles, (a: Article) => HasTag(a, tag)) else []
  }

  /**
   * Exactly the articles of the category, each as often as in the input, in their original order;
   * by `FilterUnique`, no other list is all three.
   */
  lemma ByCategoryExactly(articles: seq<Article>, category: string)
    ensures forall a :: a in ByCategory(articles, category) <==> a in articles && a.category == category
    ensures forall a :: multiset(ByCategory(articles, category))[a] == if a.category == category then multiset(articles)[a] else 0
    ensures Subseq(ByCategory(articles, category), articles)
  {
    var p := (a: Article) => a.category == category;
    FilterSubseq(articles, p);
    FilterMembers(articles, p);
    FilterMultiplicity(articles, p);
  }

  /**
   * Exactly the articles carrying the tag, each as often as in the input, in their original order;
   * nothing at all when some article's `tags` is neither an array nor a string.
   */
  lemma ByTagExactly(articles: seq<Article>, tag: string)
    ensures TagsSearchable(articles, tag) ==>
      forall a :: a in ByTag(articles, tag) <==> a in articles && HasTag(a, tag)
    ensures TagsSearchable(articles, tag) ==>
      forall a :: multiset(ByTag(articles, tag))[a] == if HasTag(a, tag) then multiset(articles)[a] else 0
    ensures Subseq(ByTag(articles, tag), articles)
    ensures !TagsSearchable(articles, tag) ==> ByTag(articles, tag) == []
  {
    var p := (a: Article) => HasTag(a, tag);
    if TagsSearchable(articles, tag) {
      FilterSubseq(articles, p);
      FilterMembers(articles, p);
      FilterMultiplicity(articles, p);
    }
  }
}
