/**
 * The tag cloud widget (components/widgets/TagCloud.tsx): it fetches `/api/articles`, counts the tags
 * of the articles it receives, keeps the twenty most used and sizes each by its share of the largest
 * count.
 */
module TagCloud {
  import opened Wrappers
  import opened Seqs
  import opened FrontMatter
  import opened Sorting
  import opened Tally
  import opened ContentApi
  import opened ArticlesRoute

  /** How many tags the cloud shows. */
  const MaxTags: nat := 20

  /** Every article's `tags` is an array, so `article.tags.forEach` can be called on it. */
  predicate TagArrays(articles: seq<Article>) {
    forall i :: 0 <= i < |articles| ==> articles[i].tags.JArray?
  }

  /** The items of an array `tags` value. */
  function TagItems(a: Article): seq<Json> {
    if a.tags.JArray? then a.tags.items else []
  }

  /** `tagCounts[tag]` uses the item's property key; `numberText` writes a number as text. */
  function KeyFn(numberText: real -> string): Json -> string {
    (v: Json) => KeyText(v, numberText)
  }

  function ArticleKeys(numberText: real -> string): Article -> seq<string> {
    (a: Article) => Map(TagItems(a), KeyFn(numberText))
  }

  /** The keys counted for the articles' tags, article by article. */
  function TagKeys(articles: seq<Article>, numberText: real -> string): seq<string> {
    Flatten(Map(articles, ArticleKeys(numberText)))
  }

  lemma TagKeysStep(articles: seq<Article>, numberText: real -> string, i: nat)
    requires i < |articles| && articles[i].tags.JArray?
    ensures TagKeys(articles[..i + 1], numberText) == TagKeys(articles[..i], numberText) + Map(articles[i].tags.items, KeyFn(numberText))
    ensures TagArrays(articles[..i]) ==> TagArrays(articles[..i + 1])
  {
    var f := ArticleKeys(numberText);
    assert articles[..i + 1] == articles[..i] + [articles[i]];
    MapAppend(articles[..i], [articles[i]], f);
    FlattenAppend(Map(articles[..i], f), Map([articles[i]], f));
    assert Flatten(Map([articles[i]], f)) == f(articles[i]) + Flatten([]);
  }

  /** A tag list of strings is counted under those strings. */
  lemma StringTagsCountedAsWritten(a: Article, numberText: real -> string, tags: seq<string>)
    requires a.tags == JArray(Map(tags, (t: string) => JString(t)))
    ensures ArticleKeys(numberText)(a) == tags
  {
  }

  /** The twenty most used tags, most used first. */
  function TopTags(articles: seq<Article>, numberText: real -> string): seq<Entry> {
    Take(Ranked(TagKeys(articles, numberText)), MaxTags)
  }

  datatype Size = Lg | Base | Sm | Xs

  /** `getTagSize`: the band of `count / maxCount`. */
  function TagSize(count: nat, maxCount: nat): Size {
    if maxCount == 0 then
      // `count / 0` is Infinity for a positive count and NaN for 0.
      if count > 0 then Lg else Xs
    else
      var ratio := count as real / maxCount as real;
      if ratio > 0.8 then Lg
      else if ratio > 0.6 then Base
      else if ratio > 0.4 then Sm
      else Xs
  }

  /** Larger sizes have larger ranks. */
  function Rank(s: Size): nat {
    match s
    case Xs => 0
    case Sm => 1
    case Base => 2
    case Lg => 3
  }

  /** The bands in integer terms: a tag is `text-lg` when its count exceeds four fifths of the maximum, and so on. */
  lemma TagSizeBands(count: nat, maxCount: nat)
    requires maxCount > 0
    ensures TagSize(count, maxCount) == Lg <==> 5 * count > 4 * maxCount
    ensures TagSize(count, maxCount) == Base <==> 5 * count <= 4 * maxCount && 5 * count > 3 * maxCount
    ensures TagSize(count, maxCount) == Sm <==> 5 * count <= 3 * maxCount && 5 * count > 2 * maxCount
    ensures TagSize(count, maxCount) == Xs <==> 5 * count <= 2 * maxCount
  {
    var c, m := count as real, maxCount as real;
    var ratio := c / m;
    assert ratio * m == c;
    RatioAbove(c, m, 0.8, 4.0);
    RatioAbove(c, m, 0.6, 3.0);
    RatioAbove(c, m, 0.4, 2.0);
  }

  lemma RatioAbove(c: real, m: real, t: real, k: real)
    requires m > 0.0 && 5.0 * t == k
    ensures c / m > t <==> 5.0 * c > k * m
  {
    var r := c / m;
    assert r * m == c;
    if r > t {
      assert (r - t) * m > 0.0;
    } else {
      assert (t - r) * m >= 0.0;
    }
  }

  /** A tag used more often is never drawn smaller. */
  lemma TagSizeMonotone(c1: nat, c2: nat, maxCount: nat)
    requires c1 <= c2
    ensures Rank(TagSize(c1, maxCount)) <= Rank(TagSize(c2, maxCount))
  {
    if maxCount > 0 {
      TagSizeBands(c1, maxCount);
      TagSizeBands(c2, maxCount);
    }
  }

  /** The most used tag is drawn largest. */
  lemma MaxCountIsLarge(maxCount: nat)
    requires maxCount > 0
    ensures TagSize(maxCount, maxCount) == Lg
  {
    TagSizeBands(maxCount, maxCount);
  }

  /**
   * The nested `forEach` that counts every tag of every article into `tagCounts`. It throws (`ok`
   * false) at the first article whose `tags` is not an array and so has no `forEach`.
   */
  method CountTags(articles: seq<Article>, numberText: real -> string)
    returns (ok: bool, counts: map<string, nat>, order: seq<string>)
    ensures ok <==> TagArrays(articles)
    ensures ok ==> Tallies(counts, order, TagKeys(articles, numberText))
  {
    counts, order := map[], [];
    for i := 0 to |articles|
      invariant TagArrays(articles[..i])
      invariant Tallies(counts, order, TagKeys(articles[..i], numberText))
    {
      if !articles[i].tags.JArray? {
        return false, counts, order;
      }
      TagKeysStep(articles, numberText, i);
      counts, order := CountArticleTags(counts, order, TagKeys(articles[..i], numberText), articles[i].tags.items, numberText);
    }
    assert articles[..|articles|] == articles;
    ok := true;
  }

  /** The inner `forEach` over the items of one article's tag array. */
  method CountArticleTags(counts0: map<string, nat>, order0: seq<string>, ghost before: seq<string>, items: seq<Json>, numberText: real -> string)
    returns (counts: map<string, nat>, order: seq<string>)
    requires Tallies(counts0, order0, before)
    ensures Tallies(counts, order, before + Map(items, KeyFn(numberText)))
  {
    counts, order := counts0, order0;
    ghost var seen := before;
    for j := 0 to |items|
      invariant seen == before + Map(items[..j], KeyFn(numberText))
      invariant Tallies(counts, order, seen)
    {
      var tag := KeyText(items[j], numberText);
      assert seen + [tag] == before + Map(items[..j + 1], KeyFn(numberText)) by {
        assert items[..j + 1] == items[..j] + [items[j]];
        MapAppend(items[..j], [items[j]], KeyFn(numberText));
      }
      counts, order := CountOne(counts, order, seen, tag);
      seen := seen + [tag];
    }
    assert items[..|items|] == items;
  }

  /** The state of the widget. */
  class TagCloudWidget {
    var tags: seq<Entry>
    var loading: bool

    constructor()
      ensures tags == [] && loading
    {
      tags := [];
      loading := true;
    }

    /**
     * The effect: `response` is None when the request or its JSON decoding throws. That, or an
     * article whose `tags` is not an array, throws into the `catch`, which leaves the tags as they
     * were; loading ends either way.
     */
    method FetchTags(response: Option<Response>, numberText: real -> string)
      modifies this
      ensures response.None? ==> tags == old(tags)
      ensures response.Some? && !TagArrays(ArticlesOf(response.value)) ==> tags == old(tags)
      ensures response.Some? && TagArrays(ArticlesOf(response.value)) ==>
        tags == TopTags(ArticlesOf(response.value), numberText)
      ensures !loading
    {
      if response.Some? {
        var articles := ArticlesOf(response.value);
        var ok, counts, order := CountTags(articles, numberText);
        if ok {
          RankTally(counts, order, TagKeys(articles, numberText));
          var ranked := Sort(EntriesOf(counts, order), ByCountDescending());
          tags := Take(ranked, MaxTags);
        }
      }
      loading := false;
    }

    /** `Math.max(...tags.map(t => t.count))`; -Infinity (None) for no tags. */
    function MaxTagCount(): (m: Option<nat>)
      reads this
      ensures m.None? <==> tags == []
    {
      if tags == [] then None else Some(MaxCount(tags))
    }

    /** The size each tag is drawn at. */
    function Sizes(): (r: seq<Size>)
      reads this
      ensures |r| == |tags|
    {
      match MaxTagCount()
      case None => []
      case Some(m) => Map(tags, (e: Entry) => TagSize(e.count, m))
    }
  }

  /** The cloud shows at most twenty tags, each once, and every shown count is that tag's number of uses. */
  lemma TopTagsCounts(articles: seq<Article>, numberText: real -> string)
    ensures |TopTags(articles, numberText)| <= MaxTags
    ensures Distinct(Map(TopTags(articles, numberText), KeyOf))
    ensures forall i :: 0 <= i < |TopTags(articles, numberText)| ==>
      TopTags(articles, numberText)[i].count == multiset(TagKeys(articles, numberText))[TopTags(articles, numberText)[i].key] >= 1
  {
    TopTagsOfRanking(TagKeys(articles, numberText), TopTags(articles, numberText));
  }

  lemma TopTagsOfRanking(keys: seq<string>, t: seq<Entry>)
    requires t == Take(Ranked(keys), MaxTags)
    ensures |t| <= MaxTags
    ensures Distinct(Map(t, KeyOf))
    ensures forall i :: 0 <= i < |t| ==> t[i].count == multiset(keys)[t[i].key] >= 1
  {
    RankedKeysOnce(keys);
    RankedCounts(keys);
    PrefixOfRanking(Ranked(keys), t, multiset(keys));
  }

  /** A prefix of a ranking keeps its distinct keys and its counts. */
  lemma PrefixOfRanking(r: seq<Entry>, t: seq<Entry>, uses: multiset<string>)
    requires |t| <= |r| && t == r[..|t|]
    requires Distinct(Map(r, KeyOf))
    requires forall i :: 0 <= i < |r| ==> r[i].count == uses[r[i].key] >= 1
    ensures Distinct(Map(t, KeyOf))
    ensures forall i :: 0 <= i < |t| ==> t[i].count == uses[t[i].key] >= 1
  {
    var mr := Map(r, KeyOf);
    var mt := Map(t, KeyOf);
    assert forall i :: 0 <= i < |mt| ==> mt[i] == mr[i];
  }

  /** A tag left out of the cloud is used no more often than any tag in it. */
  lemma LeftOutTagsAreLessUsed(articles: seq<Article>, numberText: real -> string, tag: string)
    requires tag in TagKeys(articles, numberText)
    requires tag !in Map(TopTags(articles, numberText), KeyOf)
    ensures forall i :: 0 <= i < |TopTags(articles, numberText)| ==> multiset(TagKeys(articles, numberText))[tag] <= TopTags(articles, numberText)[i].count
  {
    LeftOutOfRanking(TagKeys(articles, numberText), TopTags(articles, numberText), tag);
  }

  lemma LeftOutOfRanking(keys: seq<string>, t: seq<Entry>, tag: string)
    requires t == Take(Ranked(keys), MaxTags)
    requires tag in keys && tag !in Map(t, KeyOf)
    ensures forall i :: 0 <= i < |t| ==> multiset(keys)[tag] <= t[i].count
  {
    RankedKeysOnce(keys);
    RankedCounts(keys);
    RankedSorted(keys);
    CutBelow(Ranked(keys), t, multiset(keys), tag);
  }

  /** In a ranking, a key past the cut is used no more often than any key before it. */
  lemma CutBelow(r: seq<Entry>, t: seq<Entry>, uses: multiset<string>, tag: string)
    requires |t| <= |r| && t == r[..|t|]
    requires Sorted(r, ByCountDescending())
    requires forall i :: 0 <= i < |r| ==> r[i].count == uses[r[i].key]
    requires tag in Map(r, KeyOf) && tag !in Map(t, KeyOf)
    ensures forall i :: 0 <= i < |t| ==> uses[tag] <= t[i].count
  {
    var mr := Map(r, KeyOf);
    var j :| 0 <= j < |mr| && mr[j] == tag;
    assert mr[..|t|] == Map(t, KeyOf);
    assert j >= |t|;
    forall i | 0 <= i < |t| ensures uses[tag] <= t[i].count {
      assert t[i] == r[i];
      assert ByCountDescending()(r[i], r[j]);
    }
  }

  /** Once loaded, the tags are drawn from largest to smallest, and the first one largest. */
  lemma SizesDescend(w: TagCloudWidget, articles: seq<Article>, numberText: real -> string)
    requires w.tags == TopTags(articles, numberText) && w.tags != []
    ensures w.Sizes()[0] == Lg
    ensures forall i, j :: 0 <= i < j < |w.tags| ==> Rank(w.Sizes()[i]) >= Rank(w.Sizes()[j])
  {
    var keys := TagKeys(articles, numberText);
    RankedSorted(keys);
    RankedCounts(keys);
    var t := w.tags;
    assert Sorted(t, ByCountDescending());
    MaxIsFirst(t);
    var m := MaxCount(t);
    MaxCountIsLarge(m);
    forall i, j | 0 <= i < j < |t| ensures Rank(w.Sizes()[i]) >= Rank(w.Sizes()[j]) {
      assert ByCountDescending()(t[i], t[j]);
      TagSizeMonotone(t[j].count, t[i].count, m);
    }
  }
}
