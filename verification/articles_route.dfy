/**
 * `GET /api/articles` (app/api/articles/route.ts): choose the articles by category, tag or none,
 * then cut one page out of them.
 */
module ArticlesRoute {
  import opened Wrappers
  import opened Strings
  import opened Seqs
  import opened ContentApi

  /** The query parameters; None when a parameter is absent. */
  datatype Query = Query(category: Option<string>, tag: Option<string>, limit: Option<string>, page: Option<string>)

  /**
   * The JSON response. Numbers that JavaScript computes as NaN or an infinity are serialised as
   * `null`; they are None here.
   */
  datatype Response =
    | Ok(articles: seq<Article>, page: Option<int>, limit: Option<int>, total: nat, totalPages: Option<int>)
    | Failed(status: nat, error: string)

  /** `searchParams.get(name) || fallback`: an absent or empty parameter takes the fallback. */
  function ParamOr(p: Option<string>, fallback: string): string {
    if p.Some? && p.value != [] then p.value else fallback
  }

  predicate IsHexDigit(c: char) {
    '0' <= c <= '9' || 'a' <= c <= 'f' || 'A' <= c <= 'F'
  }

  function HexDigitValue(c: char): nat
    requires IsHexDigit(c)
  {
    if '0' <= c <= '9' then c as int - '0' as int
    else if 'a' <= c <= 'f' then c as int - 'a' as int + 10
    else c as int - 'A' as int + 10
  }

  function HexValue(d: string): nat
    requires forall i :: 0 <= i < |d| ==> IsHexDigit(d[i])
  {
    if d == [] then 0 else 16 * HexValue(d[..|d| - 1]) + HexDigitValue(d[|d| - 1])
  }

  /**
   * `parseInt(s)` without a radix: leading white space and one sign are skipped, a `0x` prefix selects
   * hexadecimal, and the longest run of digits that follows is read; None (NaN) when there is none.
   */
  function ParseInt(s: string): Option<int> {
    var t := TrimStart(s);
    var negative := t != [] && t[0] == '-';
    var u := if t != [] && (t[0] == '-' || t[0] == '+') then t[1..] else t;
    var magnitude :=
      if |u| >= 2 && u[0] == '0' && (u[1] == 'x' || u[1] == 'X') then
        var d := PrefixWhile(u[2..], IsHexDigit);
        if d == [] then None else Some(HexValue(d))
      else
        var d := PrefixWhile(u, IsDecimalDigit);
        if d == [] then None else Some(DecimalValue(d));
    match magnitude
    case None => None
    case Some(m) => Some(if negative then -(m as int) else m)
  }

  /** `parseInt` reads back what `String(n)` prints. */
  lemma ParseIntOfNat(n: nat)
    ensures ParseInt(NatToString(n)) == Some(n)
  {
    var s := NatToString(n);
    DecimalValueOfNat(n);
    assert !IsSpace(s[0]);
    assert TrimStart(s) == s;
    assert PrefixWhile(s, IsDecimalDigit) == s by {
      PrefixWhileAll(s, IsDecimalDigit);
    }
  }

  /** The fallback texts "10" and "1" read as the default limit and page. */
  lemma DefaultsParse()
    ensures ParseInt("10") == Some(10) && ParseInt("1") == Some(1)
  {
    ParseIntOfNat(10);
    assert NatToString(10) == "10";
    ParseIntOfNat(1);
    assert NatToString(1) == "1";
  }

  /** `s.slice(start, end)` for integer bounds: negative bounds count from the end, and both are clamped. */
  function Slice<T>(s: seq<T>, start: int, end: int): (r: seq<T>)
    ensures 0 <= start <= end <= |s| ==> r == s[start..end]
    ensures |r| <= |s|
  {
    var from := if start < 0 then Max(|s| + start, 0) else Min(start, |s|);
    var to := if end < 0 then Max(|s| + end, 0) else Min(end, |s|);
    if from < to then s[from..to] else []
  }

  function Min(a: int, b: int): int {
    if a <= b then a else b
  }

  function Max(a: int, b: int): int {
    if a >= b then a else b
  }

  /** The list the request pages through: a non-empty `category` wins over a non-empty `tag`. */
  function SelectSource(q: Query, all: seq<Article>): (r: seq<Article>)
    ensures q.category.Some? && q.category.value != [] ==> r == ByCategory(all, q.category.value)
    ensures !(q.category.Some? && q.category.value != []) && q.tag.Some? && q.tag.value != [] ==> r == ByTag(all, q.tag.value)
    ensures !(q.category.Some? && q.category.value != []) && !(q.tag.Some? && q.tag.value != []) ==> r == all
  {
    if q.category.Some? && q.category.value != [] then ByCategory(all, q.category.value)
    else if q.tag.Some? && q.tag.value != [] then ByTag(all, q.tag.value)
    else all
  }

  /** `Math.ceil(total / limit)`, None when the quotient is NaN or infinite (a zero or NaN limit). */
  function TotalPages(total: nat, limit: Option<int>): (r: Option<int>)
    ensures limit.Some? && limit.value > 0 ==>
      r.Some? && r.value >= 0 && r.value * limit.value >= total && (r.value - 1) * limit.value < total
    ensures limit.None? || limit.value == 0 ==> r.None?
  {
    match limit
    case None => None
    case Some(l) =>
      if l == 0 then None
      else if l > 0 then
        var q := (total + l - 1) / l;
        CeilDivBounds(total, l);
        Some(q)
      else Some(-(total / -l))
  }

  lemma CeilDivBounds(total: nat, l: int)
    requires l > 0
    ensures (total + l - 1) / l >= 0
    ensures ((total + l - 1) / l) * l >= total
    ensures ((total + l - 1) / l - 1) * l < total
  {
    var x := total + l - 1;
    var q, m := x / l, x % l;
    assert x == q * l + m && 0 <= m < l;
    assert (q - 1) * l == q * l - l;
  }

  /** Page `page` of size `limit`: `slice((page - 1) * limit, (page - 1) * limit + limit)`, NaN bounds as 0. */
  function PageOf(list: seq<Article>, page: Option<int>, limit: Option<int>): seq<Article> {
    if page.Some? && limit.Some? then
      var start := (page.value - 1) * limit.value;
      Slice(list, start, start + limit.value)
    else []
  }

  /**
   * The route handler. `all` is None when the content call throws, which the `catch` answers with
   * status 500. The content API's own functions catch every error and answer no articles instead,
   * so through them the handler sees `Some([])` and the 500 answer is not reached.
   */
  function Get(q: Query, all: Option<seq<Article>>): (r: Response)
    ensures all.None? ==> r == Failed(500, "Failed to fetch articles")
    ensures all.Some? ==> r.Ok? && r.total == |SelectSource(q, all.value)|
    ensures all.Some? && ParamOr(q.limit, "") == [] ==> r.limit == Some(10)
    ensures all.Some? && ParamOr(q.page, "") == [] ==> r.page == Some(1)
  {
    match all
    case None => Failed(500, "Failed to fetch articles")
    case Some(articles) =>
      var limit := ParseInt(ParamOr(q.limit, "10"));
      var page := ParseInt(ParamOr(q.page, "1"));
      DefaultsParse();
      var list := SelectSource(q, articles);
      Ok(PageOf(list, page, limit), page, limit, |list|, TotalPages(|list|, limit))
  }

  /** For page and limit at least 1, a page is the clipped window `[(page-1)·limit, page·limit)` of the list. */
  lemma PageWindow(list: seq<Article>, page: int, limit: int)
    requires page >= 1 && limit >= 1
    ensures var start := (page - 1) * limit;
      PageOf(list, Some(page), Some(limit)) == if start >= |list| then [] else list[start..Min(start + limit, |list|)]
    ensures |PageOf(list, Some(page), Some(limit))| <= limit
  {
    PageStart(page, limit);
  }

  lemma PageStart(page: int, limit: int)
    requires page >= 1 && limit >= 1
    ensures (page - 1) * limit >= 0 && page * limit == (page - 1) * limit + limit
  {
    MulMonotone(0, page - 1, limit);
  }

  /** The first `k` pages, one after the other. */
  function FirstPages(list: seq<Article>, k: nat, limit: int): seq<Article> {
    if k == 0 then [] else FirstPages(list, k - 1, limit) + PageOf(list, Some(k), Some(limit))
  }

  lemma {:induction false} FirstPagesPrefix(list: seq<Article>, k: nat, limit: int)
    requires limit >= 1
    ensures FirstPages(list, k, limit) == list[..Min(k * limit, |list|)]
  {
    if k > 0 {
      FirstPagesPrefix(list, k - 1, limit);
      var start := (k - 1) * limit;
      PageStart(k, limit);
      PageWindow(list, k, limit);
      PrefixThenWindow(list, start, limit, FirstPages(list, k - 1, limit), PageOf(list, Some(k), Some(limit)));
    }
  }

  /** The prefix up to `start`, followed by the clipped window from `start`, is the prefix up to `start + limit`. */
  lemma PrefixThenWindow(list: seq<Article>, start: nat, limit: int, before: seq<Article>, page: seq<Article>)
    requires limit >= 1
    requires before == list[..Min(start, |list|)]
    requires page == if start >= |list| then [] else list[start..Min(start + limit, |list|)]
    ensures before + page == list[..Min(start + limit, |list|)]
  {
    var n := |list|;
    if start >= n {
      assert Min(start + limit, n) == n && Min(start, n) == n;
    } else {
      var end := Min(start + limit, n);
      assert list[..start] + list[start..end] == list[..end];
    }
  }

  /** Pages 1 to `totalPages`, in order, give back the whole list. */
  lemma AllPagesCoverList(list: seq<Article>, limit: int)
    requires limit >= 1
    ensures var n := TotalPages(|list|, Some(limit)).value;
      n >= 0 && FirstPages(list, n, limit) == list
  {
    var n := TotalPages(|list|, Some(limit)).value;
    FirstPagesPrefix(list, n, limit);
    assert Min(n * limit, |list|) == |list|;
  }

  /** A page after the last one is empty. */
  lemma PagesPastTheEndEmpty(list: seq<Article>, page: int, limit: int)
    requires limit >= 1
    requires page > TotalPages(|list|, Some(limit)).value
    ensures PageOf(list, Some(page), Some(limit)) == []
  {
    var n := TotalPages(|list|, Some(limit)).value;
    assert (page - 1) * limit >= n * limit by {
      assert page - 1 >= n;
      MulMonotone(n, page - 1, limit);
    }
  }

  lemma MulMonotone(a: int, b: int, c: int)
    requires a <= b && c >= 0
    ensures a * c <= b * c
  {
    assert b * c - a * c == (b - a) * c;
  }

  /** `data.articles || []`: what a client reads from a response; an error response has no articles. */
  function ArticlesOf(response: Response): (r: seq<Article>)
    ensures response.Failed? ==> r == []
  {
    if response.Ok? then response.articles else []
  }

  /** The request without parameters: no filter, the default page and limit. */
  const DefaultQuery: Query := Query(None, None, None, None)

  /** A client that requests `/api/articles` without parameters receives the ten newest articles only. */
  lemma DefaultRequestFirstPage(all: seq<Article>)
    ensures ArticlesOf(Get(DefaultQuery, Some(all))) == Take(all, 10)
  {
    var r := Get(DefaultQuery, Some(all));
    assert r.limit == Some(10) && r.page == Some(1);
    assert SelectSource(DefaultQuery, all) == all;
  }

  /**
   * What a client sees when the articles cannot be read: the content API answers no articles, so the
   * handler answers an empty success, whatever the parameters.
   */
  lemma UnreadableContentListsNothing(q: Query)
    ensures Get(q, Some([])).Ok?
    ensures Get(q, Some([])).total == 0 && ArticlesOf(Get(q, Some([]))) == []
  {
    assert SelectSource(q, []) == [];
  }
}
