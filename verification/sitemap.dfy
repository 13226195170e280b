/**
 * The sitemap (app/sitemap.ts): four static pages, then one entry per article, per distinct category
 * and per distinct tag. Entries are kept as (kind, key) pairs; URLs, dates and priorities are left out.
 */
module Sitemap {
  import opened Seqs
  import opened FrontMatter
  import opened ContentApi

  datatype SitemapEntry =
    | StaticPage(path: string)
    | PostPage(slug: string)
    | CategoryPage(category: string)
    | TagPage(tag: Json)

  /** The home, about, contact and categories pages. */
  const StaticPages: seq<SitemapEntry> := [StaticPage(""), StaticPage("/about"), StaticPage("/contact"), StaticPage("/categories")]

  function CategoryFn(): Article -> string {
    (a: Article) => a.category
  }

  /** What `flatMap` takes from one article: the items of an array, any other value as it is. */
  function TagValues(a: Article): seq<Json> {
    if a.tags.JArray? then a.tags.items else [a.tags]
  }

  function TagsFn(): Article -> seq<Json> {
    (a: Article) => TagValues(a)
  }

  predicate NonBlank(s: string) {
    s != []
  }

  /** `[...new Set(articles.map(a => a.category).filter(Boolean))]`: a Set keeps first-insertion order. */
  function Categories(articles: seq<Article>): seq<string> {
    Dedup(Filter(Map(articles, CategoryFn()), NonBlank))
  }

  /** `[...new Set(articles.flatMap(a => a.tags))]`. */
  function Tags(articles: seq<Article>): seq<Json> {
    Dedup(Flatten(Map(articles, TagsFn())))
  }

  function PostEntry(a: Article): SitemapEntry {
    PostPage(a.slug)
  }

  function CategoryEntry(c: string): SitemapEntry {
    CategoryPage(c)
  }

  function TagEntry(t: Json): SitemapEntry {
    TagPage(t)
  }

  /**
   * `sitemap()`. `validDate` says whether `new Date(s).toISOString()` succeeds; an article whose
   * `updatedAt` it rejects throws, and the `catch` returns the static pages alone.
   */
  function BuildSitemap(articles: seq<Article>, validDate: string -> bool): (r: seq<SitemapEntry>)
    ensures |r| >= 4 && r[..4] == StaticPages
    ensures (exists i :: 0 <= i < |articles| && !validDate(articles[i].updatedAt)) ==> r == StaticPages
  {
    if forall i :: 0 <= i < |articles| ==> validDate(articles[i].updatedAt) then
      Assemble(articles, Categories(articles), Tags(articles))
    else StaticPages
  }

  /** `[...staticPages, ...articlePages, ...categoryPages, ...tagPages]`. */
  function Assemble(articles: seq<Article>, categories: seq<string>, tags: seq<Json>): seq<SitemapEntry> {
    StaticPages + Map(articles, PostEntry) + Map(categories, CategoryEntry) + Map(tags, TagEntry)
  }

  lemma AssembleLayout(articles: seq<Article>, categories: seq<string>, tags: seq<Json>)
    ensures var m := Assemble(articles, categories, tags);
      var n, c := |articles|, |categories|;
      && |m| == 4 + n + c + |tags|
      && (forall i :: 0 <= i < n ==> m[4 + i] == PostPage(articles[i].slug))
      && (forall i :: 0 <= i < c ==> m[4 + n + i] == CategoryPage(categories[i]))
      && (forall i :: 0 <= i < |tags| ==> m[4 + n + c + i] == TagPage(tags[i]))
  {
    Concat4(StaticPages, Map(articles, PostEntry), Map(categories, CategoryEntry), Map(tags, TagEntry));
  }

  /** One entry per article, in article order, then the categories, then the tags. */
  lemma {:induction false} SitemapLayout(articles: seq<Article>, validDate: string -> bool)
    requires forall i :: 0 <= i < |articles| ==> validDate(articles[i].updatedAt)
    ensures var m := BuildSitemap(articles, validDate);
      var n, c := |articles|, |Categories(articles)|;
      && |m| == 4 + n + c + |Tags(articles)|
      && (forall i :: 0 <= i < n ==> m[4 + i] == PostPage(articles[i].slug))
      && (forall i :: 0 <= i < c ==> m[4 + n + i] == CategoryPage(Categories(articles)[i]))
      && (forall i :: 0 <= i < |Tags(articles)| ==> m[4 + n + c + i] == TagPage(Tags(articles)[i]))
  {
    AssembleLayout(articles, Categories(articles), Tags(articles));
  }

  /** One category entry per distinct non-empty category, in order of first occurrence. */
  lemma {:induction false} CategoriesExactly(articles: seq<Article>)
    ensures Distinct(Categories(articles))
    ensures forall c :: c in Categories(articles) <==> c != [] && exists i :: 0 <= i < |articles| && articles[i].category == c
    ensures var cs := Filter(Map(articles, CategoryFn()), NonBlank);
      forall i, j :: 0 <= i < j < |Categories(articles)| ==>
        FirstIndex(cs, Categories(articles)[i]) < FirstIndex(cs, Categories(articles)[j])
  {
    var ms := Map(articles, CategoryFn());
    var cs := Filter(ms, NonBlank);
    forall c ensures c in Categories(articles) <==> c != [] && exists i :: 0 <= i < |articles| && articles[i].category == c {
      if c != [] && exists i :: 0 <= i < |articles| && articles[i].category == c {
        var i :| 0 <= i < |articles| && articles[i].category == c;
        assert ms[i] == c;
      }
      if c in Categories(articles) {
        assert c in cs;
        var k :| 0 <= k < |ms| && ms[k] == c;
      }
    }
    forall i, j | 0 <= i < j < |Categories(articles)|
      ensures FirstIndex(cs, Categories(articles)[i]) < FirstIndex(cs, Categories(articles)[j])
    {
      DedupFirstOccurrenceOrder(cs, i, j);
    }
  }

  /** One tag entry per distinct tag of any article, in order of first occurrence. */
  lemma {:induction false} TagsExactly(articles: seq<Article>)
    ensures Distinct(Tags(articles))
    ensures forall t :: t in Tags(articles) <==> exists i :: 0 <= i < |articles| && t in TagValues(articles[i])
    ensures var all := Flatten(Map(articles, TagsFn()));
      forall i, j :: 0 <= i < j < |Tags(articles)| ==> FirstIndex(all, Tags(articles)[i]) < FirstIndex(all, Tags(articles)[j])
  {
    var all := Flatten(Map(articles, TagsFn()));
    FlattenMembers(articles);
    forall t ensures t in Tags(articles) <==> t in all {
      if t in Tags(articles) {
        var k :| 0 <= k < |Tags(articles)| && Tags(articles)[k] == t;
      }
      if t in all {
        var k :| 0 <= k < |all| && all[k] == t;
      }
    }
    forall i, j | 0 <= i < j < |Tags(articles)|
      ensures FirstIndex(all, Tags(articles)[i]) < FirstIndex(all, Tags(articles)[j])
    {
      DedupFirstOccurrenceOrder(all, i, j);
    }
  }

  lemma {:induction false} FlattenMembers(articles: seq<Article>)
    ensures forall t :: t in Flatten(Map(articles, TagsFn())) <==> exists i :: 0 <= i < |articles| && t in TagValues(articles[i])
  {
    if articles != [] {
      FlattenMembers(articles[1..]);
      assert Map(articles, TagsFn()) == [TagValues(articles[0])] + Map(articles[1..], TagsFn());
      forall t ensures t in Flatten(Map(articles, TagsFn())) <==> exists i :: 0 <= i < |articles| && t in TagValues(articles[i]) {
        if exists i :: 0 <= i < |articles| && t in TagValues(articles[i]) {
          var i :| 0 <= i < |articles| && t in TagValues(articles[i]);
          if i > 0 {
            assert articles[1..][i - 1] == articles[i];
          }
        }
        if t in Flatten(Map(articles[1..], TagsFn())) {
          var i :| 0 <= i < |articles[1..]| && t in TagValues(articles[1..][i]);
          assert articles[i + 1] == articles[1..][i];
        }
      }
    }
  }

  /** A `tags` value written as text, not as a list, gets one tag page of its own. */
  lemma TextTagsListed(articles: seq<Article>, i: nat)
    requires i < |articles| && articles[i].tags.JString?
    ensures articles[i].tags in Tags(articles)
  {
    TagsExactly(articles);
    assert articles[i].tags in TagValues(articles[i]);
  }
}
