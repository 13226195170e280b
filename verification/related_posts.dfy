/**
 * The related-posts widget (components/post/AsyncRelatedPosts.tsx): up to three other posts of the
 * same category, taken from `/api/articles`.
 */
module RelatedPosts {
  import opened Wrappers
  import opened Seqs
  import opened ContentApi
  import opened ArticlesRoute

  /** How many related posts are shown. */
  const MaxRelated: nat := 3

  /** Another post of the same category. */
  function IsRelated(currentSlug: string, category: string): Article -> bool {
    (p: Article) => p.slug != currentSlug && p.category == category
  }

  /** `allPosts.filter(p => p.slug !== currentSlug && p.category === category).slice(0, 3)`. */
  function Related(allPosts: seq<Article>, currentSlug: string, category: string): seq<Article> {
    Take(Filter(allPosts, IsRelated(currentSlug, category)), MaxRelated)
  }

  /**
   * At most three posts, none of them the current one, all of the category: the first qualifying
   * posts, in the order they were fetched.
   */
  lemma RelatedExactly(allPosts: seq<Article>, currentSlug: string, category: string)
    ensures var r := Related(allPosts, currentSlug, category);
      && |r| <= MaxRelated
      && (forall i :: 0 <= i < |r| ==> r[i].slug != currentSlug && r[i].category == category)
      && r == Filter(allPosts, IsRelated(currentSlug, category))[..|r|]
      && |r| == Min(MaxRelated, |Filter(allPosts, IsRelated(currentSlug, category))|)
      && Subseq(r, allPosts)
  {
    var f := Filter(allPosts, IsRelated(currentSlug, category));
    var r := Related(allPosts, currentSlug, category);
    forall i | 0 <= i < |r| ensures r[i].slug != currentSlug && r[i].category == category {
      assert r[i] == f[i];
      assert IsRelated(currentSlug, category)(f[i]);
    }
    FilterSubseq(allPosts, IsRelated(currentSlug, category));
    PrefixSubseq(f, |r|);
    SubseqTransitive(r, f, allPosts);
  }

  /** Every qualifying post that is not shown comes after three that are. */
  lemma RelatedAreFirst(allPosts: seq<Article>, currentSlug: string, category: string, p: Article)
    requires IsRelated(currentSlug, category)(p) && p in allPosts
    requires p !in Related(allPosts, currentSlug, category)
    ensures |Related(allPosts, currentSlug, category)| == MaxRelated
  {
    var f := Filter(allPosts, IsRelated(currentSlug, category));
    assert p in f;
  }

  /** The widget's state. */
  class RelatedPostsWidget {
    var relatedPosts: seq<Article>
    var isLoading: bool

    constructor()
      ensures relatedPosts == [] && isLoading
    {
      relatedPosts := [];
      isLoading := true;
    }

    /**
     * The effect: `response` is None when the request or its decoding throws, which keeps the posts
     * (the initial empty list); an error response has no `articles` and yields no posts.
     */
    method FetchRelatedPosts(response: Option<Response>, currentSlug: string, category: string)
      modifies this
      ensures relatedPosts == if response.Some? then Related(ArticlesOf(response.value), currentSlug, category)
                              else old(relatedPosts)
      ensures response.Some? && response.value.Failed? ==> relatedPosts == []
      ensures !isLoading
    {
      if response.Some? {
        var allPosts := ArticlesOf(response.value);
        relatedPosts := Related(allPosts, currentSlug, category);
      }
      isLoading := false;
    }
  }
}
