/**
 * The year-month archive: the grouping `reduce` of app/archive/page.tsx and
 * components/widgets/ArchiveWidget.tsx, the groups sorted by key, newest month first, and the
 * widget's cut to twelve months.
 */
module Archive {
  import opened Wrappers
  import opened Strings
  import opened Seqs
  import opened Sorting
  import opened Tally
  import opened ContentApi
  import opened ArticlesRoute

  /** The two `format` results for one date: the `yyyy-MM` key and the `yyyy年MM月` label. */
  datatype MonthName = MonthName(key: string, display: string)

  /**
   * `parseISO` followed by the two `format` calls, supplied by the caller. None when the date is
   * invalid, where `format` throws.
   */
  type Calendar = string -> Option<MonthName>

  /** The value stored under a key: `{ display, count, articles }`. */
  datatype Group = Group(display: string, count: nat, articles: seq<Article>)

  /** One `[yearMonth, data]` entry of the sorted archive. */
  datatype Month = Month(key: string, display: string, count: nat, articles: seq<Article>)

  /** Every article has a date the calendar can format. */
  predicate Dated(articles: seq<Article>, calendar: Calendar) {
    forall i :: 0 <= i < |articles| ==> calendar(articles[i].publishedAt).Some?
  }

  function NameOf(calendar: Calendar, a: Article): MonthName {
    calendar(a.publishedAt).GetOr(MonthName([], []))
  }

  function KeyFn(calendar: Calendar): Article -> string {
    (a: Article) => NameOf(calendar, a).key
  }

  function InMonth(calendar: Calendar, key: string): Article -> bool {
    (a: Article) => NameOf(calendar, a).key == key
  }

  /** The month key of every article, in article order. */
  function MonthKeys(articles: seq<Article>, calendar: Calendar): seq<string> {
    Map(articles, KeyFn(calendar))
  }

  /** The articles of one month, in article order. */
  function Members(articles: seq<Article>, calendar: Calendar, key: string): seq<Article> {
    Filter(articles, InMonth(calendar, key))
  }

  /** One step of the `reduce`: create the group on first sight of its key, then `count++` and `push`. */
  function Enter(groups: map<string, Group>, a: Article, name: MonthName): map<string, Group> {
    var g := if name.key in groups then groups[name.key] else Group(name.display, 0, []);
    groups[name.key := Group(g.display, g.count + 1, g.articles + [a])]
  }

  /** The accumulator after the `reduce` over `articles`. */
  function GroupMap(articles: seq<Article>, calendar: Calendar): map<string, Group> {
    if articles == [] then map[]
    else
      var a := articles[|articles| - 1];
      Enter(GroupMap(articles[..|articles| - 1], calendar), a, NameOf(calendar, a))
  }

  /** The entry for one key of the accumulator. */
  function MonthAt(groups: map<string, Group>, key: string): Month {
    if key in groups then Month(key, groups[key].display, groups[key].count, groups[key].articles)
    else Month(key, [], 0, [])
  }

  function MonthAtFn(groups: map<string, Group>): string -> Month {
    (key: string) => MonthAt(groups, key)
  }

  /** `Object.entries(acc)` for an accumulator whose keys were created in `order`. */
  function Listed(groups: map<string, Group>, order: seq<string>): seq<Month> {
    Map(OwnKeys(order), MonthAtFn(groups))
  }

  /** `b.localeCompare(a)`: the greater key first. */
  function ByKeyDescending(): (Month, Month) -> bool {
    (a: Month, b: Month) => TextLe(b.key, a.key)
  }

  lemma {:induction false} ByKeyDescendingIsTotal()
    ensures IsTotalPreorder(ByKeyDescending())
  {
    forall a: Month, b: Month ensures ByKeyDescending()(a, b) || ByKeyDescending()(b, a) {
      TextLeTotal(a.key, b.key);
    }
    forall a: Month, b: Month, c: Month | ByKeyDescending()(a, b) && ByKeyDescending()(b, c)
      ensures ByKeyDescending()(a, c)
    {
      TextLeTransitive(c.key, b.key, a.key);
    }
  }

  /** The sorted archive of `articles`; None when a date cannot be formatted. */
  function ArchiveOf(articles: seq<Article>, calendar: Calendar): Option<seq<Month>> {
    if Dated(articles, calendar) then
      Some(Sort(Listed(GroupMap(articles, calendar), Dedup(MonthKeys(articles, calendar))), ByKeyDescending()))
    else None
  }

  /** `groups`, with its keys created in `order`, is the accumulator after the `reduce` over `seen`. */
  predicate Grouped(groups: map<string, Group>, order: seq<string>, seen: seq<Article>, calendar: Calendar) {
    groups == GroupMap(seen, calendar) && order == Dedup(MonthKeys(seen, calendar))
  }

  /** The grouping `reduce` and the key sort, shared by the archive page and the widget. */
  method BuildArchive(articles: seq<Article>, calendar: Calendar) returns (archive: Option<seq<Month>>)
    ensures archive == ArchiveOf(articles, calendar)
  {
    var groups: map<string, Group> := map[];
    var order: seq<string> := [];
    for i := 0 to |articles|
      invariant Dated(articles[..i], calendar)
      invariant Grouped(groups, order, articles[..i], calendar)
    {
      var a := articles[i];
      var m := calendar(a.publishedAt);
      if m.None? {
        assert !Dated(articles, calendar);
        return None;
      }
      assert articles[..i + 1] == articles[..i] + [a];
      groups, order := EnterArticle(groups, order, articles[..i], a, m.value, calendar);
    }
    assert articles[..|articles|] == articles;
    var sorted := Sort(Listed(groups, order), ByKeyDescending());
    archive := Some(sorted);
  }

  /** The body of the `reduce` for one article whose date formats as `name`. */
  method EnterArticle(groups0: map<string, Group>, order0: seq<string>, ghost seen: seq<Article>, a: Article,
                      name: MonthName, ghost calendar: Calendar)
    returns (groups: map<string, Group>, order: seq<string>)
    requires Grouped(groups0, order0, seen, calendar) && calendar(a.publishedAt) == Some(name)
    ensures Grouped(groups, order, seen + [a], calendar)
  {
    groups, order := groups0, order0;
    if name.key !in groups {
      groups := groups[name.key := Group(name.display, 0, [])];
      order := order + [name.key];
    }
    var g := groups[name.key];
    var g' := Group(g.display, g.count + 1, g.articles + [a]);
    UpdateTwice(groups0, name.key, Group(name.display, 0, []), g');
    groups := groups[name.key := g'];
    assert groups == Enter(groups0, a, name);
    EnterKeepsGrouped(groups0, order0, seen, a, name, calendar);
  }

  lemma UpdateTwice<K, V>(m: map<K, V>, k: K, v: V, w: V)
    ensures m[k := v][k := w] == m[k := w]
  {
  }

  /** One step of the `reduce` keeps the accumulator and its key order in step with the articles seen. */
  lemma EnterKeepsGrouped(groups: map<string, Group>, order: seq<string>, seen: seq<Article>, a: Article,
                          name: MonthName, calendar: Calendar)
    requires Grouped(groups, order, seen, calendar) && calendar(a.publishedAt) == Some(name)
    ensures Grouped(Enter(groups, a, name), if name.key in groups then order else order + [name.key], seen + [a], calendar)
  {
    GroupStep(seen, a, calendar);
  }

  /** What one more article does to the accumulator and to the keys. */
  lemma {:induction false} GroupStep(seen: seq<Article>, a: Article, calendar: Calendar)
    ensures var s := seen + [a];
      && s[..|seen|] == seen
      && GroupMap(s, calendar) == Enter(GroupMap(seen, calendar), a, NameOf(calendar, a))
      && MonthKeys(s, calendar) == MonthKeys(seen, calendar) + [NameOf(calendar, a).key]
      && (NameOf(calendar, a).key in GroupMap(seen, calendar) <==> NameOf(calendar, a).key in Dedup(MonthKeys(seen, calendar)))
  {
    var s := seen + [a];
    assert s[..|seen|] == seen && s[|seen|] == a;
    assert MonthKeys(s, calendar) == MonthKeys(seen, calendar) + [NameOf(calendar, a).key];
    GroupMapDomain(seen, calendar);
  }

  /** The accumulator has a group for exactly the keys met. */
  lemma {:induction false} GroupMapDomain(articles: seq<Article>, calendar: Calendar)
    ensures forall k :: k in GroupMap(articles, calendar) <==> k in MonthKeys(articles, calendar)
  {
    if articles != [] {
      var n := |articles| - 1;
      GroupMapDomain(articles[..n], calendar);
      var ks := MonthKeys(articles, calendar);
      assert ks == MonthKeys(articles[..n], calendar) + [ks[n]];
    }
  }

  /** No article of a key that never occurs. */
  lemma {:induction false} MembersOfAbsentKey(articles: seq<Article>, calendar: Calendar, key: string)
    requires key !in MonthKeys(articles, calendar)
    ensures Members(articles, calendar, key) == []
  {
    forall j | 0 <= j < |articles| ensures !InMonth(calendar, key)(articles[j]) {
      assert MonthKeys(articles, calendar)[j] == NameOf(calendar, articles[j]).key;
    }
    FilterNone(articles, InMonth(calendar, key));
  }

  /**
   * `g` is the group of month `key` over `articles`: exactly the articles of that month, in article
   * order, counted, under the label of the first of them.
   */
  ghost predicate GroupOf(g: Group, articles: seq<Article>, calendar: Calendar, key: string) {
    && g.articles == Members(articles, calendar, key)
    && g.count == |g.articles|
    && g.articles != []
    && g.display == NameOf(calendar, g.articles[0]).display
  }

  /** One step of the `reduce` keeps every group exact. */
  lemma {:induction false} EnterKeepsGroup(gm: map<string, Group>, pre: seq<Article>, a: Article, calendar: Calendar, key: string)
    requires key in gm <==> key in MonthKeys(pre, calendar)
    requires key in gm ==> GroupOf(gm[key], pre, calendar, key)
    requires key in Enter(gm, a, NameOf(calendar, a))
    ensures GroupOf(Enter(gm, a, NameOf(calendar, a))[key], pre + [a], calendar, key)
  {
    FilterAppend(pre, [a], InMonth(calendar, key));
    if key !in gm {
      MembersOfAbsentKey(pre, calendar, key);
    }
  }

  /** Each group of the accumulator is exact. */
  lemma {:induction false} GroupMapExact(articles: seq<Article>, calendar: Calendar)
    ensures forall k :: k in GroupMap(articles, calendar) ==> GroupOf(GroupMap(articles, calendar)[k], articles, calendar, k)
  {
    if articles != [] {
      var n := |articles| - 1;
      var pre, a := articles[..n], articles[n];
      GroupMapExact(pre, calendar);
      GroupMapDomain(pre, calendar);
      assert articles == pre + [a];
      var gm := GroupMap(pre, calendar);
      forall k | k in GroupMap(articles, calendar)
        ensures GroupOf(GroupMap(articles, calendar)[k], articles, calendar, k)
      {
        EnterKeepsGroup(gm, pre, a, calendar, k);
      }
    }
  }

  /** Each listed entry is the accumulator's entry for one of the keys. */
  lemma {:induction false} ListedEntries(gm: map<string, Group>, order: seq<string>)
    ensures forall m :: m in Listed(gm, order) ==> m.key in order && m == MonthAt(gm, m.key)
  {
    var ks := OwnKeys(order);
    var l := Listed(gm, order);
    PermutationMembers(order, ks);
    forall i | 0 <= i < |l| ensures l[i].key in order && l[i] == MonthAt(gm, l[i].key) {
      assert l[i] == MonthAt(gm, ks[i]);
    }
    EntriesByIndex(l, gm, order);
  }

  lemma EntriesByIndex(l: seq<Month>, gm: map<string, Group>, order: seq<string>)
    requires forall i :: 0 <= i < |l| ==> l[i].key in order && l[i] == MonthAt(gm, l[i].key)
    ensures forall m :: m in l ==> m.key in order && m == MonthAt(gm, m.key)
  {
  }

  /** The archive lists every month once: its keys are distinct and are exactly the months met. */
  lemma {:induction false} ArchiveKeysOnce(articles: seq<Article>, calendar: Calendar)
    requires Dated(articles, calendar)
    ensures var r := ArchiveOf(articles, calendar).value;
      && Distinct(Map(r, MonthKeyFn()))
      && forall k :: k in MonthKeys(articles, calendar) <==> k in Map(r, MonthKeyFn())
  {
    var d := Dedup(MonthKeys(articles, calendar));
    var gm := GroupMap(articles, calendar);
    var l := Listed(gm, d);
    var r := ArchiveOf(articles, calendar).value;
    assert Map(l, MonthKeyFn()) == OwnKeys(d);
    DistinctPermutation(d, OwnKeys(d));
    MapPermutation(l, r, MonthKeyFn());
    DistinctPermutation(Map(l, MonthKeyFn()), Map(r, MonthKeyFn()));
    forall k
      ensures k in MonthKeys(articles, calendar) <==> k in Map(r, MonthKeyFn())
    {
      calc {
        k in MonthKeys(articles, calendar);
        k in d;
        k in multiset(OwnKeys(d));
        k in multiset(Map(l, MonthKeyFn()));
        k in multiset(Map(r, MonthKeyFn()));
      }
    }
  }

  function MonthKeyFn(): Month -> string {
    (m: Month) => m.key
  }

  function MonthCount(m: Month): nat {
    m.count
  }

  /** Every listed month: its articles are exactly those of its key, counted, with the first one's label. */
  lemma {:induction false} ArchiveMonths(articles: seq<Article>, calendar: Calendar)
    requires Dated(articles, calendar)
    ensures var r := ArchiveOf(articles, calendar).value;
      forall j :: 0 <= j < |r| ==> GroupOf(Group(r[j].display, r[j].count, r[j].articles), articles, calendar, r[j].key)
  {
    var d := Dedup(MonthKeys(articles, calendar));
    var gm := GroupMap(articles, calendar);
    var l := Listed(gm, d);
    var r := ArchiveOf(articles, calendar).value;
    GroupMapExact(articles, calendar);
    GroupMapDomain(articles, calendar);
    ListedEntries(gm, d);
    PermutationMembers(l, r);
    forall j | 0 <= j < |r|
      ensures GroupOf(Group(r[j].display, r[j].count, r[j].articles), articles, calendar, r[j].key)
    {
      var k := r[j].key;
      assert r[j] in l;
      assert k in d;
      assert k in gm;
      assert Group(r[j].display, r[j].count, r[j].articles) == gm[k];
    }
  }

  /** The archive is in descending key order: newest month first for `yyyy-MM` keys. */
  lemma {:induction false} ArchiveSorted(articles: seq<Article>, calendar: Calendar)
    requires Dated(articles, calendar)
    ensures Sorted(ArchiveOf(articles, calendar).value, ByKeyDescending())
  {
    ByKeyDescendingIsTotal();
    SortSorted(Listed(GroupMap(articles, calendar), Dedup(MonthKeys(articles, calendar))), ByKeyDescending());
  }

  /** The month counts add up to the number of articles in the page header. */
  lemma {:induction false} ArchiveSum(articles: seq<Article>, calendar: Calendar)
    requires Dated(articles, calendar)
    ensures SumOf(ArchiveOf(articles, calendar).value, MonthCount) == |articles|
  {
    var keys := MonthKeys(articles, calendar);
    var d := Dedup(keys);
    var gm := GroupMap(articles, calendar);
    var l := Listed(gm, d);
    SumOfPermutation(l, ArchiveOf(articles, calendar).value, MonthCount);
    GroupMapExact(articles, calendar);
    GroupMapDomain(articles, calendar);
    forall k ensures CountIn(keys)(k) == MonthCount(MonthAtFn(gm)(k)) {
      FilterCount(articles, KeyFn(calendar), InMonth(calendar, k), k);
      if k !in gm {
        MembersOfAbsentKey(articles, calendar, k);
      }
    }
    SumOfMap(OwnKeys(d), MonthAtFn(gm), MonthCount, CountIn(keys));
    SumOfPermutation(OwnKeys(d), d, CountIn(keys));
    DedupSum(keys);
  }

  /** The archive page: None stands for the "archive failed to load" message its `catch` renders. */
  function ArchivePage(articles: seq<Article>, calendar: Calendar): (r: Option<seq<Month>>)
    ensures r.Some? <==> Dated(articles, calendar)
  {
    ArchiveOf(articles, calendar)
  }

  /** How many months the widget shows. */
  const WidgetMonths: nat := 12

  /** `sortedArchive.slice(0, 12)`. */
  function LatestMonths(archive: seq<Month>): seq<Month> {
    Take(archive, WidgetMonths)
  }

  /** The widget shows the latest months: a month it leaves out is older than every month it shows. */
  lemma {:induction false} ShownAreLatest(articles: seq<Article>, calendar: Calendar, key: string)
    requires Dated(articles, calendar)
    requires key in MonthKeys(articles, calendar)
    requires key !in Map(LatestMonths(ArchiveOf(articles, calendar).value), MonthKeyFn())
    ensures var shown := LatestMonths(ArchiveOf(articles, calendar).value);
      forall i :: 0 <= i < |shown| ==> TextLe(key, shown[i].key) && key != shown[i].key
  {
    var r := ArchiveOf(articles, calendar).value;
    var shown := LatestMonths(r);
    ArchiveKeysOnce(articles, calendar);
    ArchiveSorted(articles, calendar);
    var mr := Map(r, MonthKeyFn());
    var j :| 0 <= j < |mr| && mr[j] == key;
    var m := r[j];
    assert m !in shown;
    CutOff(r, ByKeyDescending(), WidgetMonths, m);
    forall i | 0 <= i < |shown| ensures TextLe(key, shown[i].key) && key != shown[i].key {
      assert ByKeyDescending()(r[i], m);
      assert Map(shown, MonthKeyFn())[i] == shown[i].key;
    }
  }

  /** The shown counts cover at most all posts, and all of them when there are at most twelve months. */
  lemma {:induction false} ShownCounts(articles: seq<Article>, calendar: Calendar)
    requires Dated(articles, calendar)
    ensures var r := ArchiveOf(articles, calendar).value;
      && |LatestMonths(r)| <= WidgetMonths
      && SumOf(LatestMonths(r), MonthCount) <= |articles|
      && (|Dedup(MonthKeys(articles, calendar))| <= WidgetMonths ==> SumOf(LatestMonths(r), MonthCount) == |articles|)
  {
    ArchiveSum(articles, calendar);
    ArchiveLength(articles, calendar);
    LatestSum(ArchiveOf(articles, calendar).value, |articles|);
  }

  /** The archive has one entry per month met. */
  lemma ArchiveLength(articles: seq<Article>, calendar: Calendar)
    requires Dated(articles, calendar)
    ensures |ArchiveOf(articles, calendar).value| == |Dedup(MonthKeys(articles, calendar))|
  {
    var d := Dedup(MonthKeys(articles, calendar));
    assert |OwnKeys(d)| == |d|;
  }

  /** The cut to twelve months keeps at most the whole sum, and all of it when there are at most twelve. */
  lemma LatestSum(r: seq<Month>, total: nat)
    requires SumOf(r, MonthCount) == total
    ensures |LatestMonths(r)| <= WidgetMonths
    ensures SumOf(LatestMonths(r), MonthCount) <= total
    ensures |r| <= WidgetMonths ==> SumOf(LatestMonths(r), MonthCount) == total
  {
    SumOfPrefix(LatestMonths(r), r, MonthCount);
    if |r| <= WidgetMonths {
      assert LatestMonths(r) == r;
    }
  }

  /** The widget's state. */
  class ArchiveWidget {
    var posts: seq<Article>
    var loading: bool

    constructor()
      ensures posts == [] && loading
    {
      posts := [];
      loading := true;
    }

    /** The effect: `response` is None when the request or its decoding throws, which keeps the posts. */
    method FetchPosts(response: Option<Response>)
      modifies this
      ensures posts == if response.Some? then ArticlesOf(response.value) else old(posts)
      ensures !loading
    {
      if response.Some? {
        posts := ArticlesOf(response.value);
      }
      loading := false;
    }

    /** The months the widget renders; None when a date cannot be formatted. */
    function Shown(calendar: Calendar): (r: Option<seq<Month>>)
      reads this
      ensures r.Some? <==> Dated(posts, calendar)
      ensures r.Some? ==> |r.value| <= WidgetMonths
    {
      match ArchiveOf(posts, calendar)
      case None => None
      case Some(archive) => Some(LatestMonths(archive))
    }
  }

  /**
   * The widget fetches `/api/articles` without parameters and so receives at most ten posts: they span
   * at most ten months, and the twelve-month cut never removes any.
   */
  lemma {:induction false} WidgetCutNeverApplies(all: seq<Article>, posts: seq<Article>, calendar: Calendar)
    requires posts == ArticlesOf(Get(DefaultQuery, Some(all)))
    requires Dated(posts, calendar)
    ensures |posts| <= 10
    ensures LatestMonths(ArchiveOf(posts, calendar).value) == ArchiveOf(posts, calendar).value
  {
    DefaultRequestFirstPage(all);
    FewMonths(posts, calendar);
  }

  /** An archive of at most twelve articles is shown whole. */
  lemma {:induction false} FewMonths(posts: seq<Article>, calendar: Calendar)
    requires Dated(posts, calendar) && |posts| <= WidgetMonths
    ensures LatestMonths(ArchiveOf(posts, calendar).value) == ArchiveOf(posts, calendar).value
  {
    ArchiveLength(posts, calendar);
    assert |Dedup(MonthKeys(posts, calendar))| <= |posts|;
  }
}
