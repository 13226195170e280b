/**
 * The client-side search of app/search/page.tsx: the query is lowercased, cut into words at white
 * space, and a post matches when every word occurs in its title, summary or content.
 */
module Search {
  import opened Wrappers
  import opened Strings
  import opened Seqs
  import opened ContentApi

  /** `s.split(/\s/)`: the pieces between single white-space characters. */
  function SplitAtSpaces(s: string): (parts: seq<string>)
    ensures |parts| >= 1
    ensures forall i :: 0 <= i < |parts| ==> forall j :: 0 <= j < |parts[i]| ==> !IsSpace(parts[i][j])
  {
    if s == [] then [[]]
    else
      var rest := SplitAtSpaces(s[1..]);
      if IsSpace(s[0]) then [[]] + rest
      else [[s[0]] + rest[0]] + rest[1..]
  }

  predicate NonEmpty(w: string) {
    |w| > 0
  }

  /**
   * `query.toLowerCase().trim().split(/\s+/).filter(word => word.length > 0)`. Splitting at runs of
   * white space instead of single characters only changes which empty pieces appear, and those are
   * dropped.
   */
  function Words(query: string): (ws: seq<string>)
    ensures forall i :: 0 <= i < |ws| ==> ws[i] != [] && forall j :: 0 <= j < |ws[i]| ==> !IsSpace(ws[i][j])
  {
    var parts := SplitAtSpaces(Trim(Lower(query)));
    var ws := Filter(parts, NonEmpty);
    assert forall i :: 0 <= i < |ws| ==> ws[i] in parts;
    ws
  }

  /** `word` occurs in the lowercased title, summary or content. */
  predicate MatchesWord(post: Article, word: string) {
    Contains(Lower(post.title), word) || Contains(Lower(post.summary), word) || Contains(Lower(post.content), word)
  }

  /** The filter callback as written: one test for a single word, `every` for several. */
  predicate MatchesAsWritten(post: Article, words: seq<string>) {
    if |words| == 1 then MatchesWord(post, words[0])
    else forall i :: 0 <= i < |words| ==> MatchesWord(post, words[i])
  }

  /** A post matches when every query word occurs in it (AND over the words). */
  predicate MatchesAll(post: Article, words: seq<string>) {
    forall i :: 0 <= i < |words| ==> MatchesWord(post, words[i])
  }

  /** The single-word branch is the general rule for one word. */
  lemma SingleWordBranchAgrees(post: Article, words: seq<string>)
    ensures MatchesAsWritten(post, words) <==> MatchesAll(post, words)
  {
  }

  /** The results of the effect for a query that is not blank. */
  function SearchBy(posts: seq<Article>, words: seq<string>): seq<Article> {
    Filter(posts, (post: Article) => MatchesAsWritten(post, words))
  }

  /** What the effect stores in `results`: nothing for a blank query. */
  function Results(posts: seq<Article>, query: string): (r: seq<Article>)
    ensures AllSpace(query) ==> r == []
  {
    if Trim(query) == [] then [] else SearchBy(posts, Words(query))
  }

  /** The results are exactly the posts containing every word, in the order the posts were loaded. */
  lemma ResultsExactly(posts: seq<Article>, query: string)
    requires !AllSpace(query)
    ensures forall p :: p in Results(posts, query) <==> p in posts && MatchesAll(p, Words(query))
    ensures forall p :: multiset(Results(posts, query))[p] == if MatchesAll(p, Words(query)) then multiset(posts)[p] else 0
    ensures Subseq(Results(posts, query), posts)
  {
    assert Results(posts, query) == SearchBy(posts, Words(query));
    SearchByExactly(posts, Words(query));
  }

  lemma SearchByExactly(posts: seq<Article>, words: seq<string>)
    ensures forall p :: p in SearchBy(posts, words) <==> p in posts && MatchesAll(p, words)
    ensures forall p :: multiset(SearchBy(posts, words))[p] == if MatchesAll(p, words) then multiset(posts)[p] else 0
    ensures Subseq(SearchBy(posts, words), posts)
  {
    var f := (post: Article) => MatchesAsWritten(post, words);
    FilterSubseq(posts, f);
    FilterMembers(posts, f);
    FilterMultiplicity(posts, f);
    forall p ensures f(p) <==> MatchesAll(p, words) {
      SingleWordBranchAgrees(p, words);
    }
  }

  /** Adding a word can only narrow the results: the new results are the old ones that contain it. */
  lemma {:induction false} MoreWordsFewerResults(posts: seq<Article>, words: seq<string>, w: string)
    requires |words| >= 1
    ensures SearchBy(posts, words + [w]) == Filter(SearchBy(posts, words), (post: Article) => MatchesWord(post, w))
  {
    var f := (post: Article) => MatchesAsWritten(post, words);
    var g := (post: Article) => MatchesWord(post, w);
    var fg := (post: Article) => MatchesAsWritten(post, words + [w]);
    forall post: Article ensures fg(post) == (f(post) && g(post)) {
      var ws := words + [w];
      assert forall i :: 0 <= i < |words| ==> ws[i] == words[i];
      assert ws[|words|] == w;
    }
    FilterFilter(posts, f, g, fg);
  }

  /** Every character of a non-space run ends up in some non-empty piece. */
  lemma {:induction false} SplitHasWord(s: string, k: nat)
    requires k < |s| && !IsSpace(s[k])
    ensures exists i :: 0 <= i < |SplitAtSpaces(s)| && SplitAtSpaces(s)[i] != []
  {
    var parts := SplitAtSpaces(s);
    if k == 0 {
      assert parts[0] != [];
    } else {
      SplitHasWord(s[1..], k - 1);
      var rest := SplitAtSpaces(s[1..]);
      var i :| 0 <= i < |rest| && rest[i] != [];
      if IsSpace(s[0]) {
        assert parts[i + 1] == rest[i];
      } else if i == 0 {
        assert parts[0] != [];
      } else {
        assert parts[i] == rest[i];
      }
    }
  }

  /** A query that is not blank has at least one word, so `every` is never vacuous. */
  lemma NonBlankQueryHasWords(query: string)
    requires !AllSpace(query)
    ensures |Words(query)| >= 1
  {
    var l := Lower(query);
    var k :| 0 <= k < |query| && !IsSpace(query[k]);
    assert !IsSpace(l[k]);
    assert !AllSpace(l);
    var t := Trim(l);
    assert t != [] && !IsSpace(t[0]);
    SplitHasWord(t, 0);
    var parts := SplitAtSpaces(t);
    var i :| 0 <= i < |parts| && parts[i] != [];
    assert parts[i] in Words(query);
  }

  /** The state of the search page and its two effects. */
  class SearchPage {
    var query: string
    var allPosts: seq<Article>
    var results: seq<Article>
    var isLoading: bool

    constructor(initialQuery: Option<string>)
      ensures query == initialQuery.GetOr([]) && allPosts == [] && results == [] && !isLoading
    {
      query := initialQuery.GetOr([]);
      allPosts := [];
      results := [];
      isLoading := false;
    }

    /** The first effect: the loaded posts, or no change when loading throws. */
    method LoadPosts(posts: Option<seq<Article>>)
      modifies this
      ensures allPosts == if posts.Some? then posts.value else old(allPosts)
      ensures query == old(query) && results == old(results) && isLoading == old(isLoading)
    {
      if posts.Some? {
        allPosts := posts.value;
      }
    }

    /** The second effect, run whenever the query or the posts change. */
    method RunSearch()
      modifies this
      ensures results == Results(allPosts, query)
      ensures isLoading == (if Trim(query) == [] then old(isLoading) else false)
      ensures query == old(query) && allPosts == old(allPosts)
    {
      var q, posts := query, allPosts;
      if Trim(q) == [] {
        results := [];
        return;
      }
      isLoading := true;
      results := Results(posts, q);
      isLoading := false;
    }
  }
}
