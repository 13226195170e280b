/**
 * The categories page (app/categories/page.tsx): how many articles each category has, largest first,
 * with the first three articles of each and a "view all" link when there are more.
 */
module Categories {
  import opened Seqs
  import opened Sorting
  import opened Tally
  import opened ContentApi

  /** The category shown for articles without one. */
  const Uncategorized: string := "未分类"

  /** `article.category || '未分类'`. */
  function CategoryOf(a: Article): (c: string)
    ensures c != []
    ensures a.category != [] ==> c == a.category
  {
    if a.category != [] then a.category else Uncategorized
  }

  function CategoryKeys(articles: seq<Article>): seq<string> {
    Map(articles, CategoryOf)
  }

  /** The `reduce` that counts articles per category, then the entries sorted by count, largest first. */
  method CategoryStats(articles: seq<Article>) returns (categories: seq<Entry>)
    ensures categories == Ranked(CategoryKeys(articles))
  {
    ghost var keys := CategoryKeys(articles);
    var counts: map<string, nat> := map[];
    var order: seq<string> := [];
    for i := 0 to |articles|
      invariant Tallies(counts, order, keys[..i])
    {
      var c := CategoryOf(articles[i]);
      assert keys[..i + 1] == keys[..i] + [c];
      counts, order := CountOne(counts, order, keys[..i], c);
    }
    assert keys[..|articles|] == keys;
    RankTally(counts, order, keys);
    categories := Sort(EntriesOf(counts, order), ByCountDescending());
  }

  /** The articles listed under a category: those whose defaulted category is its name. */
  function InCategory(articles: seq<Article>, name: string): seq<Article> {
    Filter(articles, (a: Article) => CategoryOf(a) == name)
  }

  /** The first three articles shown on a category's card: the head of its list, at most three long. */
  function Preview(articles: seq<Article>, name: string): (r: seq<Article>)
    ensures |r| == if |InCategory(articles, name)| <= 3 then |InCategory(articles, name)| else 3
    ensures r == InCategory(articles, name)[..|r|]
  {
    Take(InCategory(articles, name), 3)
  }

  /** The card shows the "view all" link. */
  predicate ShowsViewAll(e: Entry) {
    e.count > 3
  }

  /** The count on a card is the number of articles listed under its category. */
  lemma CountIsCategorySize(articles: seq<Article>, e: Entry)
    requires e in Ranked(CategoryKeys(articles))
    ensures e.count == |InCategory(articles, e.key)| >= 1
  {
    RankedCounts(CategoryKeys(articles));
    FilterCount(articles, CategoryOf, (a: Article) => CategoryOf(a) == e.key, e.key);
  }

  /**
   * A card previews `min(3, count)` articles of its category, and shows the "view all" link exactly
   * when the preview leaves some of them out.
   */
  lemma PreviewAndViewAll(articles: seq<Article>, e: Entry)
    requires e in Ranked(CategoryKeys(articles))
    ensures |Preview(articles, e.key)| == if e.count <= 3 then e.count else 3
    ensures ShowsViewAll(e) <==> |Preview(articles, e.key)| < |InCategory(articles, e.key)|
    ensures forall i :: 0 <= i < |Preview(articles, e.key)| ==> CategoryOf(Preview(articles, e.key)[i]) == e.key
  {
    CountIsCategorySize(articles, e);
    PreviewOfCategory(articles, e.key, e.count);
  }

  lemma PreviewOfCategory(articles: seq<Article>, name: string, count: nat)
    requires count == |InCategory(articles, name)|
    ensures |Preview(articles, name)| == if count <= 3 then count else 3
    ensures count > 3 <==> |Preview(articles, name)| < count
    ensures forall i :: 0 <= i < |Preview(articles, name)| ==> CategoryOf(Preview(articles, name)[i]) == name
  {
    var listed := InCategory(articles, name);
    var p := Preview(articles, name);
    forall i | 0 <= i < |p|
      ensures CategoryOf(p[i]) == name
    {
      assert p[i] == listed[i];
    }
  }

  /** Every article is counted in exactly one card, and the page is empty only without articles. */
  lemma EveryArticleCountedOnce(articles: seq<Article>)
    ensures SumOf(Ranked(CategoryKeys(articles)), CountOf) == |articles|
    ensures Distinct(Map(Ranked(CategoryKeys(articles)), KeyOf))
    ensures Ranked(CategoryKeys(articles)) == [] <==> articles == []
  {
    var keys := CategoryKeys(articles);
    RankedSum(keys);
    RankedKeysOnce(keys);
    if articles != [] {
      assert keys[0] in keys;
    }
  }
}
