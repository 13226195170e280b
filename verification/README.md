# lao-a-blog article catalogue, in Dafny

A model of the article-catalogue logic of the lao-a blog (a Next.js site whose articles are Markdown
files in a GitHub repository), with proofs of what that logic promises. The model covers:

- **Front matter and article selection** (`lib/content-api.ts`): the `---` header match, the "simple
  YAML" line parser that fills the front-matter record, the per-file selection and defaulting loop of
  `getArticles`, and the lookups by slug, category and tag.
- **String helpers** (`lib/utils.ts`): `calculateReadingTime` and `slugify`.
- **Listings**:
  - the article API's source choice and pagination (`app/api/articles/route.ts`);
  - the search page's AND-over-words filter and its two effects (`app/search/page.tsx`);
  - the category counts, preview and "view all" link (`app/categories/page.tsx`);
  - the tag cloud's counting, top-20 cut and size bands (`components/widgets/TagCloud.tsx`);
  - the year-month archive on its page and in its widget (`app/archive/page.tsx`,
    `components/widgets/ArchiveWidget.tsx`);
  - the related-posts selection (`components/post/AsyncRelatedPosts.tsx`);
  - the sitemap (`app/sitemap.ts`).
- **Markdown renderer internals** (`components/post/MarkdownRenderer.tsx`):
  - fence-language normalisation;
  - the code-block placeholder protocol;
  - heading numbering;
  - blockquote merging.

Modules, one per file:

- `Wrappers`, `Strings`, `Seqs`, `Sorting`: the JavaScript string and array operations the code uses.
  Among them are `trim`, `split`/`join`, `includes`, `Set` de-duplication and a stable comparator sort.
- `FrontMatter` and `ContentApi`: `content-api.ts`.
- `Utils`: `utils.ts`.
- `ArticlesRoute`: the `/api/articles` route.
- `Search`: the search page.
- `Tally`: the shared `acc[key] = (acc[key] || 0) + 1` counting and `Object.entries` ranking.
- `Categories` and `TagCloud`: the category page and the tag cloud.
- `Archive`: the archive page and widget.
- `RelatedPosts`: the related-posts widget.
- `Sitemap`: the sitemap.
- `MarkdownCode`, `MarkdownHeadings`, `MarkdownQuotes`: the renderer.

How the model is written:

- Where the source updates state step by step, the model does so too: `parseFrontMatter`'s line loop, the `getArticles` loop, the counting `reduce`s and `forEach`es, the fence extraction, the placeholder restore and the heading passes are methods with loops. Each is proved equal to a declarative specification, and the properties are proved about that specification.
- The React components' state is a class with one method per effect.

Two facts about the source that the proofs bring out:

- The `published !== false` filter never excludes an article. A parsed front-matter value is always a string or an array, so `published` is always true (`FrontMatter.PublishedNeverFalse`).
- The `shell-session` alias in the fence-language chain can never be reached. The fence pattern captures its language with `(\w+)`, which stops at `-` (`MarkdownCode.NormalizedIsWord`).

## Model

| member | source | states |
|---|---|---|
| FrontMatter.MatchHeader | lao-a-blog/src/lib/content-api.ts:96-103 | a match splits the text into `---` and a line break, the front matter, the first later line break-`---`-line break, and the body; no closing marker occurs inside the front matter; no match exactly when the text does not open with `---` and a line break or no closing marker follows |
| FrontMatter.MatchHeaderComplete | lao-a-blog/src/lib/content-api.ts:96 | a header whose front matter holds no `---` line is always recognised, with that front matter and body |
| FrontMatter.Unquote | lao-a-blog/src/lib/content-api.ts:113-116 | a value wrapped in matching double or single quotes loses exactly the outer pair; a lone quote character becomes empty; any other value is unchanged |
| FrontMatter.ParseValue | lao-a-blog/src/lib/content-api.ts:110-121 | a parsed value is only ever a string or an array |
| FrontMatter.ParseLineAtFirstColon | lao-a-blog/src/lib/content-api.ts:108-123 | a line without `:` or with nothing before its first `:` is skipped; otherwise its key is the trimmed text before the first `:` and its value is everything after it, later colons included, or the parse throws |
| FrontMatter.LineResults | lao-a-blog/src/lib/content-api.ts:107 | one outcome per front-matter line, each that line's own outcome |
| FrontMatter.ParseFrontMatter | lao-a-blog/src/lib/content-api.ts:95-128 | the line-by-line loop computes the specification; without a header the text comes back whole with no fields; with one, the body is the text after the header |
| FrontMatter.FoldStep | lao-a-blog/src/lib/content-api.ts:107-125 | each line adds its key and value to the record, leaves it unchanged, or makes the parse throw |
| FrontMatter.FoldThrowsAll | lao-a-blog/src/lib/content-api.ts:120 | a line that throws fails the whole parse, whatever follows it |
| FrontMatter.FoldStringsOrArrays | lao-a-blog/src/lib/content-api.ts:110-123 | every stored value is a string or an array |
| FrontMatter.PublishedNeverFalse | lao-a-blog/src/lib/content-api.ts:141-152 | no parsed record has `published` equal to `false`, so the `published !== false` test keeps every file |
| FrontMatter.KeyPresentIffDefined | lao-a-blog/src/lib/content-api.ts:107-125 | a key is in the record exactly when some line defines it and it is not `__proto__`, whose assignment goes to the prototype setter and creates no key |
| FrontMatter.LastDefinitionWins | lao-a-blog/src/lib/content-api.ts:107-125 | a key holds the value of the last line that defines it |
| FrontMatter.ParsedStringsOrArrays | lao-a-blog/src/lib/content-api.ts:107-125 | every value of a parsed record is a string or an array |
| ContentApi.StripExtension | lao-a-blog/src/lib/content-api.ts:145 | `.mdx` or else `.md` is cut off the end of the name; any other name is unchanged |
| ContentApi.TextField | lao-a-blog/src/lib/content-api.ts:144-156 | a non-empty string value is taken; an absent key gives the fallback |
| ContentApi.AnyField | lao-a-blog/src/lib/content-api.ts:148-151 | a truthy value is taken, anything else gives the fallback |
| ContentApi.GetArticles | lao-a-blog/src/lib/content-api.ts:130-175 | an unreadable directory gives no articles; otherwise the loop yields exactly the selected articles of the listing, and, when every date has a time stamp, in the order of the stable newest-first sort |
| ContentApi.DatedPreorder | lao-a-blog/src/lib/content-api.ts:168-170 | with every date known, the date comparator is a total preorder on the articles |
| ContentApi.NewestFirst | lao-a-blog/src/lib/content-api.ts:168-170 | with every date known, the sorted articles go from the latest time stamp to the earliest |
| ContentApi.SameDateKeepsOrder | lao-a-blog/src/lib/content-api.ts:168-170 | with every date known, articles with the same time stamp keep their listing order |
| ContentApi.SelectedAppend | lao-a-blog/src/lib/content-api.ts:135-165 | a file's outcome does not depend on the other files |
| ContentApi.SelectFileExactly | lao-a-blog/src/lib/content-api.ts:136-163 | a file becomes an article exactly when its name ends in `.md` or `.mdx`, its text was fetched and its front matter parses; its `published` is always true and its `tags` is a string or an array |
| ContentApi.SlugDefault | lao-a-blog/src/lib/content-api.ts:145 | without a `slug` line the slug is the file name without its `.md` or `.mdx` extension |
| ContentApi.FailingFileSkipped | lao-a-blog/src/lib/content-api.ts:161-163 | a file whose parse throws is skipped and the files around it still yield their articles |
| ContentApi.NothingFromFailingFile | lao-a-blog/src/lib/content-api.ts:161-163 | a file whose parse throws yields no article |
| ContentApi.FindBySlug | lao-a-blog/src/lib/content-api.ts:177-185 | the result is the first article with the slug, and null exactly when no article has it |
| ContentApi.ByCategoryExactly | lao-a-blog/src/lib/content-api.ts:187-195 | exactly the articles of the category, each as often as in the input, in their original order |
| ContentApi.ByTagExactly | lao-a-blog/src/lib/content-api.ts:197-205 | exactly the articles whose `tags` includes the tag, each as often as in the input, in their original order; no articles at all when some article's `tags` has no `includes` |
| ContentApi.TagsInclude | lao-a-blog/src/lib/content-api.ts:200 | an array includes the tag when it has it as a string item, a text value when the tag is part of the text, and any other value throws |
| Utils.Utf16Length | lao-a-blog/src/lib/utils.ts:22 | the string's length in UTF-16 code units lies between its number of characters and twice that |
| Utils.ReadingTime | lao-a-blog/src/lib/utils.ts:20-24 | the result r is the ceiling of length/200: r·200 reaches the length and (r−1)·200 falls short of it; empty content reads in 0 minutes |
| Utils.ReadingTimeMonotone | lao-a-blog/src/lib/utils.ts:20-24 | longer content never has a shorter reading time |
| Utils.RemoveDisallowed | lao-a-blog/src/lib/utils.ts:29 | only word characters, white space and `-` remain |
| Utils.CollapseSeparators | lao-a-blog/src/lib/utils.ts:30 | each run of white space, `_` and `-` becomes a single `-`: no separator other than `-` remains, no two dashes are adjacent, other characters are kept |
| Utils.TrimDashes | lao-a-blog/src/lib/utils.ts:31 | the input is a run of dashes, the result, and a run of dashes, and the result neither starts nor ends with `-`; dashes inside it stay |
| Utils.TrimmedUnique | lao-a-blog/src/lib/utils.ts:31 | any split of the input into dashes, a result without end dashes, and dashes gives the result of the trim |
| Utils.CollapseRunOfSeparators | lao-a-blog/src/lib/utils.ts:30 | a nonempty run of white space, `_` and `-` collapses to a single `-` |
| Utils.CollapseJoin | lao-a-blog/src/lib/utils.ts:30 | when no run of separators spans the boundary, collapsing two texts joined is collapsing each and joining |
| Utils.DropSeparatorsAppend | lao-a-blog/src/lib/utils.ts:30 | a leading run of separators of a joined text is that of the first part, and continues into the second when the first part is all separators |
| Utils.SlugifyJoinsWords | lao-a-blog/src/lib/utils.ts:26-32 | two slugs joined by any run of white space, `_` or dashes slugify to the two joined by one `-` |
| Utils.SlugifyIsSlug | lao-a-blog/src/lib/utils.ts:26-32 | every slug consists of lowercase ASCII letters, digits and `-`, does not start or end with `-`, and has no two dashes in a row |
| Utils.SlugifyFixesSlugs | lao-a-blog/src/lib/utils.ts:26-32 | a text that already has the shape of a slug is its own slug |
| Utils.SlugifyIdempotent | lao-a-blog/src/lib/utils.ts:26-32 | slugifying twice gives the same as slugifying once |
| Utils.SlugifyWithoutAlnum | lao-a-blog/src/lib/utils.ts:29-31 | a text with no ASCII letter or digit, such as punctuation or Chinese, has the empty slug |
| Utils.SlugifyKeepsAlnum | lao-a-blog/src/lib/utils.ts:28-31 | apart from its dashes, the slug is the lowercased ASCII letters and digits of the text, in order |
| Utils.CollapseKeepsOthers | lao-a-blog/src/lib/utils.ts:30 | collapsing only replaces separators; every other character stays, in order |
| Utils.TrimDashesKeepsOthers | lao-a-blog/src/lib/utils.ts:31 | trimming removes only dashes |
| ArticlesRoute.ParseIntOfNat | lao-a-blog/src/app/api/articles/route.ts:9-10 | `parseInt` reads back every non-negative decimal numeral |
| ArticlesRoute.DefaultsParse | lao-a-blog/src/app/api/articles/route.ts:9-10 | the fallbacks "10" and "1" read as the default limit 10 and page 1 |
| ArticlesRoute.Slice | lao-a-blog/src/app/api/articles/route.ts:25 | within bounds, `slice` is the sub-sequence between them; never longer than the list |
| ArticlesRoute.SelectSource | lao-a-blog/src/app/api/articles/route.ts:14-20 | a non-empty category wins over a tag; a non-empty tag is used next; otherwise all articles |
| ArticlesRoute.TotalPages | lao-a-blog/src/app/api/articles/route.ts:33 | for a positive limit, the ceiling of total/limit; for a zero or NaN limit, not a number |
| ArticlesRoute.Get | lao-a-blog/src/app/api/articles/route.ts:4-43 | a content call that throws answers 500 with the error text, a branch the content API never takes since it answers no articles instead; otherwise `total` is the selected list's length, and a missing limit or page reads as 10 or 1 |
| ArticlesRoute.UnreadableContentListsNothing | lao-a-blog/src/app/api/articles/route.ts:4-43 | when the articles cannot be read the client gets an empty success, with total 0, whatever the parameters |
| ArticlesRoute.PageWindow | lao-a-blog/src/app/api/articles/route.ts:23-25 | for page and limit at least 1, the page is the window from (page−1)·limit to page·limit clipped to the list, at most `limit` long |
| ArticlesRoute.AllPagesCoverList | lao-a-blog/src/app/api/articles/route.ts:23-33 | pages 1 to totalPages, one after another, give back the whole list |
| ArticlesRoute.PagesPastTheEndEmpty | lao-a-blog/src/app/api/articles/route.ts:23-33 | a page after the last is empty |
| ArticlesRoute.ArticlesOf | lao-a-blog/src/app/api/articles/route.ts:36-41 | an error response carries no articles |
| ArticlesRoute.DefaultRequestFirstPage | lao-a-blog/src/app/api/articles/route.ts:9-25 | a request without parameters receives the first ten articles |
| Search.SplitAtSpaces | lao-a-blog/src/app/search/page.tsx:49 | splitting gives at least one piece and no piece contains white space |
| Search.Words | lao-a-blog/src/app/search/page.tsx:43-49 | every query word is non-empty and free of white space |
| Search.SingleWordBranchAgrees | lao-a-blog/src/app/search/page.tsx:52-63 | the single-word test and the `every` test agree: a post matches iff every query word occurs in its lowercased title, summary or content |
| Search.Results | lao-a-blog/src/app/search/page.tsx:34-37 | a blank query gives no results |
| Search.ResultsExactly | lao-a-blog/src/app/search/page.tsx:42-64 | for a non-blank query, the results are exactly the loaded posts that contain every word, each as often as loaded, in their loaded order |
| Search.SearchByExactly | lao-a-blog/src/app/search/page.tsx:42-64 | the filter keeps exactly the posts containing every word, each as often as in the input, in order |
| Search.MoreWordsFewerResults | lao-a-blog/src/app/search/page.tsx:59-63 | adding a word keeps exactly those earlier results that also contain it |
| Search.NonBlankQueryHasWords | lao-a-blog/src/app/search/page.tsx:34-49 | a non-blank query has at least one word, so `every` is never vacuous |
| Search.SearchPage.constructor | lao-a-blog/src/app/search/page.tsx:13-17 | the query starts as the `q` parameter or empty, with no posts, no results and not loading |
| Search.SearchPage.LoadPosts | lao-a-blog/src/app/search/page.tsx:20-30 | the loaded posts replace the old ones; a failed load changes nothing |
| Search.SearchPage.RunSearch | lao-a-blog/src/app/search/page.tsx:33-68 | the results become the filter's results for the current query and posts; loading ends for a non-blank query; the query and posts are unchanged |
| Categories.CategoryOf | lao-a-blog/src/app/categories/page.tsx:17 | an article without a category counts under `未分类`; the counted category is never empty |
| Categories.CategoryStats | lao-a-blog/src/app/categories/page.tsx:16-24 | the `reduce` and the sort yield the count-ranked exact tally of the articles' categories, which is the corrected counting of the first Findings row, not the statement as written |
| Categories.Preview | lao-a-blog/src/app/categories/page.tsx:57-59 | the preview is the first min(3, n) articles of the category's n articles, in list order |
| Categories.CountIsCategorySize | lao-a-blog/src/app/categories/page.tsx:16-58 | a card's count is the number of articles listed under its category, at least 1 |
| Categories.PreviewAndViewAll | lao-a-blog/src/app/categories/page.tsx:57-75 | a card previews min(3, count) articles, all of its category, and shows "view all" exactly when the preview leaves some out |
| Categories.EveryArticleCountedOnce | lao-a-blog/src/app/categories/page.tsx:16-36 | the counts add up to the number of articles, each category appears once, and the page is empty only without articles |
| RelatedPosts.RelatedExactly | lao-a-blog/src/components/post/AsyncRelatedPosts.tsx:25-27 | at most three posts, none with the current slug, all of the category: the first qualifying posts, in fetched order |
| RelatedPosts.RelatedAreFirst | lao-a-blog/src/components/post/AsyncRelatedPosts.tsx:25-27 | a qualifying post is left out only when three are already shown |
| RelatedPosts.RelatedPostsWidget.constructor | lao-a-blog/src/components/post/AsyncRelatedPosts.tsx:13-14 | no related posts, loading |
| RelatedPosts.RelatedPostsWidget.FetchRelatedPosts | lao-a-blog/src/components/post/AsyncRelatedPosts.tsx:16-35 | the related posts are computed from the response's articles; a response without articles yields none; a failed request keeps the initial list; loading ends |
| Sitemap.BuildSitemap | lao-a-blog/src/app/sitemap.ts:4-69 | the four static pages come first; when an article's date is invalid, the static pages alone are returned |
| Sitemap.AssembleLayout | lao-a-blog/src/app/sitemap.ts:64 | the list has 4 + articles + categories + tags entries, each group in its place and order |
| Sitemap.SitemapLayout | lao-a-blog/src/app/sitemap.ts:38-64 | one entry per article, in article order, then the categories, then the tags; the length is the sum |
| Sitemap.CategoriesExactly | lao-a-blog/src/app/sitemap.ts:46 | the categories are distinct, are exactly the non-empty categories of the articles, and are in order of first occurrence |
| Sitemap.TagsExactly | lao-a-blog/src/app/sitemap.ts:55-56 | the tags are distinct, are exactly the values `flatMap` takes from the articles' `tags` (the items of an array, any other value itself), and are in order of first occurrence |
| Sitemap.TextTagsListed | lao-a-blog/src/app/sitemap.ts:55-56 | `tags` written as text, not as a list, gets one tag page of its own |
| Tally.OwnKeys | lao-a-blog/src/app/categories/page.tsx:22 | `Object.entries` lists every key of the object exactly once: the same keys, array indices first |
| Tally.CountMapExact | lao-a-blog/src/app/categories/page.tsx:16-20 | the counting object holds exactly the keys counted, each with its number of occurrences |
| Tally.AddKeepsTally | lao-a-blog/src/components/widgets/TagCloud.tsx:27 | counting one more key keeps the object an exact tally; a new key is appended to the creation order |
| Tally.CountOne | lao-a-blog/src/components/widgets/TagCloud.tsx:27 | the counting statement keeps the object an exact tally of the keys seen so far |
| Tally.EntriesOfTally | lao-a-blog/src/app/categories/page.tsx:22-23 | the entries of any exact tally of the keys are the same list |
| Tally.RankTally | lao-a-blog/src/app/categories/page.tsx:22-24 | sorting the entries of a finished tally by count gives the ranking |
| Tally.RankedSorted | lao-a-blog/src/app/categories/page.tsx:24 | the ranking is ordered by count, largest first |
| Tally.RankedKeysOnce | lao-a-blog/src/app/categories/page.tsx:16-23 | every counted key is listed exactly once and nothing else is listed |
| Tally.RankedCounts | lao-a-blog/src/app/categories/page.tsx:18 | each listed count is its key's number of occurrences, at least 1 |
| Tally.RankedSum | lao-a-blog/src/app/categories/page.tsx:16-20 | the counts add up to the number of keys counted |
| Tally.RankedTiesInEntryOrder | lao-a-blog/src/app/categories/page.tsx:22-24 | keys used equally often keep the order `Object.entries` lists them in |
| Tally.MaxCount | lao-a-blog/src/components/widgets/TagCloud.tsx:68 | the maximum is at least every count and is one of them |
| Tally.MaxIsFirst | lao-a-blog/src/components/widgets/TagCloud.tsx:33-68 | in a list sorted largest first, the maximum is the first count |
| Tally.OrdinaryKeysCountedExactly | lao-a-blog/src/app/categories/page.tsx:18 | for keys that name nothing inherited from `Object.prototype`, counting as written gives the exact tally |
| Tally.InheritedKeysMiscounted | lao-a-blog/src/app/categories/page.tsx:18 | an article in category `constructor` is counted as the text `function Object() { [native code] }1`, and `__proto__` is not counted at all |
| Tally.CountSingle | lao-a-blog/src/components/widgets/TagCloud.tsx:27 | one key is intended to count 1, and as written is one step from the empty object |
| TagCloud.TagKeysStep | lao-a-blog/src/components/widgets/TagCloud.tsx:25-29 | the keys of one more article's tag items follow the keys of the articles before it |
| TagCloud.StringTagsCountedAsWritten | lao-a-blog/src/components/widgets/TagCloud.tsx:26-27 | a tag list of strings is counted under those strings |
| TagCloud.CountTags | lao-a-blog/src/components/widgets/TagCloud.tsx:24-29 | the loops throw exactly when some article's `tags` is not an array; otherwise they build the exact tally of every tag item's property key, which is the corrected counting of the first Findings row, not the statement as written |
| TagCloud.CountArticleTags | lao-a-blog/src/components/widgets/TagCloud.tsx:26-28 | the inner loop adds the property key of each of one article's tag items to the tally |
| TagCloud.TagSizeBands | lao-a-blog/src/components/widgets/TagCloud.tsx:48-54 | the band in integer terms: `text-lg` iff 5·count > 4·max, `text-base` iff between 3/5 and 4/5, `text-sm` iff between 2/5 and 3/5, else `text-xs` |
| TagCloud.TagSizeMonotone | lao-a-blog/src/components/widgets/TagCloud.tsx:48-54 | a more used tag is never drawn smaller |
| TagCloud.MaxCountIsLarge | lao-a-blog/src/components/widgets/TagCloud.tsx:49-68 | the most used tag is drawn `text-lg` |
| TagCloud.TagCloudWidget.constructor | lao-a-blog/src/components/widgets/TagCloud.tsx:13-14 | no tags, loading |
| TagCloud.TagCloudWidget.FetchTags | lao-a-blog/src/components/widgets/TagCloud.tsx:16-45 | a response whose articles all have array `tags` gives the twenty most used tags; a failed request or any other `tags` value throws into the `catch` and leaves the tags; loading ends |
| TagCloud.TagCloudWidget.MaxTagCount | lao-a-blog/src/components/widgets/TagCloud.tsx:68 | there is no maximum exactly when there are no tags |
| TagCloud.TagCloudWidget.Sizes | lao-a-blog/src/components/widgets/TagCloud.tsx:68-90 | one size per shown tag |
| TagCloud.TopTagsCounts | lao-a-blog/src/components/widgets/TagCloud.tsx:24-34 | at most twenty tags, each once, each with its number of uses, at least 1 |
| TagCloud.LeftOutTagsAreLessUsed | lao-a-blog/src/components/widgets/TagCloud.tsx:33-34 | a tag cut from the cloud is used no more often than any tag in it |
| TagCloud.SizesDescend | lao-a-blog/src/components/widgets/TagCloud.tsx:33-68 | the first tag is drawn `text-lg` and sizes never grow along the cloud |
| Sorting.Insert | lao-a-blog/src/app/categories/page.tsx:24 | inserting adds exactly one element |
| Sorting.Sort | lao-a-blog/src/app/categories/page.tsx:24 | the sort is a permutation of its input |
| Sorting.SortSorted | lao-a-blog/src/app/categories/page.tsx:24 | with a comparator that is a total preorder on the elements, the result is ordered |
| Sorting.InsertSorted | lao-a-blog/src/app/categories/page.tsx:24 | inserting into an ordered list keeps it ordered |
| Sorting.InsertTies | lao-a-blog/src/app/categories/page.tsx:24 | an inserted element goes before the elements equivalent to it |
| Sorting.SortStable | lao-a-blog/src/app/categories/page.tsx:24 | the sort is stable: elements the comparator holds equivalent keep their input order |
| Sorting.SortedUnique | lao-a-blog/src/app/categories/page.tsx:24 | two ordered permutations of each other that keep every group of equivalent elements in the same order are equal |
| Sorting.OnlyStableOrder | lao-a-blog/src/app/categories/page.tsx:24 | the sort result is the only ordered permutation of the input that keeps equivalent elements in input order |
| Sorting.TotalPreorderOn | lao-a-blog/src/app/categories/page.tsx:24 | a comparator that is a total preorder everywhere is one on every collection |
| Sorting.SortedStrict | lao-a-blog/src/app/archive/page.tsx:38-39 | an element strictly after another in the order stands after it in a sorted list |
| Sorting.CutOff | lao-a-blog/src/components/widgets/TagCloud.tsx:33-34 | an element of a sorted list left out of a prefix may follow every element of the prefix |
| Archive.ByKeyDescendingIsTotal | lao-a-blog/src/app/archive/page.tsx:39 | comparing keys greatest first is a total preorder, which the sort needs for an ordered result |
| Archive.BuildArchive | lao-a-blog/src/app/archive/page.tsx:18-39 | the `reduce` and the key sort compute the archive of the articles, or fail when a date cannot be formatted |
| Archive.EnterArticle | lao-a-blog/src/app/archive/page.tsx:19-33 | the body of the `reduce` keeps the accumulator and its key order in step with the articles seen |
| Archive.EnterKeepsGrouped | lao-a-blog/src/app/archive/page.tsx:23-32 | one step creates the group on first sight of its key, then counts and appends the article |
| Archive.GroupMapDomain | lao-a-blog/src/app/archive/page.tsx:18-35 | the accumulator has a group for exactly the months met |
| Archive.GroupMapExact | lao-a-blog/src/app/archive/page.tsx:23-32 | each group holds exactly its month's articles, in input order, its count is their number, and its label comes from the first of them |
| Archive.ArchiveKeysOnce | lao-a-blog/src/app/archive/page.tsx:18-39 | the archive lists every month met exactly once |
| Archive.ArchiveMonths | lao-a-blog/src/app/archive/page.tsx:18-39 | every listed month holds exactly its articles, in input order, counted, under the first one's label |
| Archive.ArchiveSorted | lao-a-blog/src/app/archive/page.tsx:38-39 | the archive is in descending key order, newest month first for `yyyy-MM` keys |
| Archive.ArchiveSum | lao-a-blog/src/app/archive/page.tsx:31-47 | the month counts add up to the article total in the page header |
| Archive.ArchivePage | lao-a-blog/src/app/archive/page.tsx:13-39 | the page renders exactly when every date can be formatted |
| Archive.ArchiveLength | lao-a-blog/src/app/archive/page.tsx:18-39 | one entry per distinct month |
| Archive.ShownAreLatest | lao-a-blog/src/components/widgets/ArchiveWidget.tsx:51-53 | a month the widget leaves out is older than every month it shows |
| Archive.ShownCounts | lao-a-blog/src/components/widgets/ArchiveWidget.tsx:44-53 | at most twelve months are shown; their counts add up to at most the number of posts, and to all of them when there are at most twelve months |
| Archive.LatestSum | lao-a-blog/src/components/widgets/ArchiveWidget.tsx:53 | the cut keeps at most twelve months and at most the whole sum |
| Archive.ArchiveWidget.constructor | lao-a-blog/src/components/widgets/ArchiveWidget.tsx:12-13 | no posts, loading |
| Archive.ArchiveWidget.FetchPosts | lao-a-blog/src/components/widgets/ArchiveWidget.tsx:14-28 | the response's articles become the posts; a failed request keeps them; loading ends |
| Archive.ArchiveWidget.Shown | lao-a-blog/src/components/widgets/ArchiveWidget.tsx:30-53 | the widget renders exactly when every date can be formatted, and shows at most twelve months |
| Archive.WidgetCutNeverApplies | lao-a-blog/src/components/widgets/ArchiveWidget.tsx:17-53 | the widget requests `/api/articles` without parameters, receives at most ten posts, and its twelve-month cut never removes a month |
| Archive.FewMonths | lao-a-blog/src/components/widgets/ArchiveWidget.tsx:53 | an archive of at most twelve posts is shown whole |
| MarkdownCode.NormalizeLanguage | lao-a-blog/src/components/post/MarkdownRenderer.tsx:79 | a missing language is `text`; the result is never empty and is lowercase |
| MarkdownCode.NormalizeAsWritten | lao-a-blog/src/components/post/MarkdownRenderer.tsx:79-102 | the normalised name is the alias chain applied to the lowercased language, or to `text` when there is none |
| MarkdownCode.NormalizeByTable | lao-a-blog/src/components/post/MarkdownRenderer.tsx:79-102 | against an independent alias table: `sh`, `shell`, `zsh`, `console`, `shell-session`, `bin` → `bash`, `js` → `javascript`, `ts` → `typescript`, `py` → `python`, `yml` → `yaml`, `html`, `xml` → `markup`, `properties` → `ini`; every other name is only lowercased |
| MarkdownCode.AliasByTable | lao-a-blog/src/components/post/MarkdownRenderer.tsx:80-102 | the if/else chain agrees with the alias table on every name |
| MarkdownCode.AliasCases | lao-a-blog/src/components/post/MarkdownRenderer.tsx:80-102 | the chain returns its input or one of the eleven target names |
| MarkdownCode.AliasIdempotent | lao-a-blog/src/components/post/MarkdownRenderer.tsx:80-102 | applying the chain twice is applying it once |
| MarkdownCode.NormalizeIdempotent | lao-a-blog/src/components/post/MarkdownRenderer.tsx:79-102 | every normalised name normalises to itself |
| MarkdownCode.NormalizedIsWord | lao-a-blog/src/components/post/MarkdownRenderer.tsx:74-102 | a language matched by `(\w+)` stays made of word characters |
| MarkdownCode.Highlighted | lao-a-blog/src/components/post/MarkdownRenderer.tsx:105-113 | the trimmed code is kept for `text`, for a language the highlighter lacks, and when highlighting throws; otherwise the highlighter's output |
| MarkdownCode.FenceAt | lao-a-blog/src/components/post/MarkdownRenderer.tsx:74 | a match spans three backticks, a word-character language, a newline, the code, and the nearest closing backticks, exactly the text it was cut from |
| MarkdownCode.Scan | lao-a-blog/src/components/post/MarkdownRenderer.tsx:74 | the global match splits the text into one more stretch than fences, each fence with a word language |
| MarkdownCode.ScanCovers | lao-a-blog/src/components/post/MarkdownRenderer.tsx:74 | the stretches and the matched fences, put back together, are the text |
| MarkdownCode.ExtractScan | lao-a-blog/src/components/post/MarkdownRenderer.tsx:74-122 | extraction leaves the stretches with the placeholders numbered from the blocks already pushed, and pushes one block per fence |
| MarkdownCode.ExtractCodeBlocks | lao-a-blog/src/components/post/MarkdownRenderer.tsx:73-123 | the i-th fence, counting from 0, is replaced by `[[CODEBLOCK-i]]` and its markup is stored at index i |
| MarkdownCode.ExtractStep | lao-a-blog/src/components/post/MarkdownRenderer.tsx:74-122 | each position either replaces a fence and pushes its markup or keeps one character, and what remains to do shrinks accordingly |
| MarkdownCode.RestoreCodeBlocks | lao-a-blog/src/components/post/MarkdownRenderer.tsx:186-188 | the loop replaces each placeholder in index order by its block, taken literally |
| MarkdownCode.ReplaceAfter | lao-a-blog/src/components/post/MarkdownRenderer.tsx:187 | with no marker before it, the placeholder replaced is the intended one |
| MarkdownCode.CodeBlocksRestored | lao-a-blog/src/components/post/MarkdownRenderer.tsx:186-188 | restoring puts every block back in the place of its own placeholder, whatever marker-free text stands between them |
| MarkdownCode.BlockShielded | lao-a-blog/src/components/post/MarkdownRenderer.tsx:115-119 | a block's markup holds no placeholder marker and opens and closes with a tag |
| MarkdownCode.CodeIsProtected | lao-a-blog/src/components/post/MarkdownRenderer.tsx:72-188 | however the later passes rewrite the stretches between placeholders (without writing the marker), the restored page is those stretches with every block back in place, for a page holding no `[[CODEBLOCK-` text |
| MarkdownCode.ExtractRestore | lao-a-blog/src/components/post/MarkdownRenderer.tsx:74-188 | with no rewrite in between, extraction then restoring is the text with each fence replaced by its block |
| MarkdownCode.UnhighlightedBlock | lao-a-blog/src/components/post/MarkdownRenderer.tsx:76-119 | a fence without a language shows its trimmed code, unhighlighted |
| MarkdownCode.DollarsCollapse | lao-a-blog/src/components/post/MarkdownRenderer.tsx:186-188 | a block whose code reads `echo $$` comes back reading `echo $` from the restore as written, and intact from the literal restore |
| MarkdownCode.ExpandDoubleDollar | lao-a-blog/src/components/post/MarkdownRenderer.tsx:187 | a replacement text with one `$$` and no other `$` expands to a single `$` |
| MarkdownCode.RestoreSingle | lao-a-blog/src/components/post/MarkdownRenderer.tsx:187 | a page that is one placeholder gets its block back from the literal restore, and the expanded block from the restore as written |
| MarkdownHeadings.Level | lao-a-blog/src/components/post/MarkdownRenderer.tsx:127-137 | a line is a heading of level 3, 2 or 1, or none |
| MarkdownHeadings.LevelByMarker | lao-a-blog/src/components/post/MarkdownRenderer.tsx:127-137 | a line has level k exactly when it starts with the k-hash marker (`### `, `## `, `# `) |
| MarkdownHeadings.Title | lao-a-blog/src/components/post/MarkdownRenderer.tsx:127-137 | the title is the rest of the line after the marker |
| MarkdownHeadings.AnchorsDistinct | lao-a-blog/src/components/post/MarkdownRenderer.tsx:129-139 | different numbers give different `heading-n` ids |
| MarkdownHeadings.HeadingHtml | lao-a-blog/src/components/post/MarkdownRenderer.tsx:130-140 | a rendered heading is a tag, opening with `<` |
| MarkdownHeadings.RenderedHeadingUnmatched | lao-a-blog/src/components/post/MarkdownRenderer.tsx:127-141 | a rendered heading is no heading line for the later passes |
| MarkdownHeadings.Pass | lao-a-blog/src/components/post/MarkdownRenderer.tsx:127-131 | one pass keeps the number of lines |
| MarkdownHeadings.HeadingPass | lao-a-blog/src/components/post/MarkdownRenderer.tsx:127-141 | the loop of one pass numbers the unrendered lines with its marker in order from the counter, and the counter grows by their number |
| MarkdownHeadings.NumberHeadings | lao-a-blog/src/components/post/MarkdownRenderer.tsx:126-141 | the three passes give every heading of level k the number: all deeper headings, plus the headings of level k before it, plus 1 |
| MarkdownHeadings.PassStage | lao-a-blog/src/components/post/MarkdownRenderer.tsx:127-141 | the pass for level k takes the document with the deeper levels numbered to the one with level k numbered too, counting every level-k line |
| MarkdownHeadings.StageEnds | lao-a-blog/src/components/post/MarkdownRenderer.tsx:126-141 | before the passes nothing is numbered; after them the document is the reference numbering |
| MarkdownHeadings.IdsInRange | lao-a-blog/src/components/post/MarkdownRenderer.tsx:126-141 | every id lies between 1 and the number of headings |
| MarkdownHeadings.DeeperLevelsFirst | lao-a-blog/src/components/post/MarkdownRenderer.tsx:126-141 | every `###` heading is numbered before every `##` heading, and every `##` before every `#`, wherever they stand |
| MarkdownHeadings.SameLevelInOrder | lao-a-blog/src/components/post/MarkdownRenderer.tsx:127-141 | headings of one level are numbered in document order |
| MarkdownHeadings.IdsDistinct | lao-a-blog/src/components/post/MarkdownRenderer.tsx:126-141 | no two headings share an id or an anchor |
| MarkdownHeadings.IdsOnto | lao-a-blog/src/components/post/MarkdownRenderer.tsx:126-141 | every number from 1 to the number of headings is some heading's id: no gaps |
| MarkdownQuotes.QuoteLine | lao-a-blog/src/components/post/MarkdownRenderer.tsx:158-160 | a line becomes a quote exactly when it starts with `> `, holding the rest of the line |
| MarkdownQuotes.QuoteLines | lao-a-blog/src/components/post/MarkdownRenderer.tsx:158-160 | the first pass treats each line on its own |
| MarkdownQuotes.GapIsSpace | lao-a-blog/src/components/post/MarkdownRenderer.tsx:163 | the merge pattern's white space spans the text after a quote up to the next line exactly when every line in between is blank |
| MarkdownQuotes.Gather | lao-a-blog/src/components/post/MarkdownRenderer.tsx:163 | a merged quote starts with its own line's content |
| MarkdownQuotes.LoneQuote | lao-a-blog/src/components/post/MarkdownRenderer.tsx:158-163 | a quote line nothing joins keeps the element the first pass made |
| MarkdownQuotes.TwoQuotesJoin | lao-a-blog/src/components/post/MarkdownRenderer.tsx:158-163 | two quote lines with only blank lines between them become one blockquote with `<br>` between their contents |
| MarkdownQuotes.MergeKeeps | lao-a-blog/src/components/post/MarkdownRenderer.tsx:163 | the merge loses no quote content and no non-blank line, and keeps both in order |
| MarkdownQuotes.MergeMaximal | lao-a-blog/src/components/post/MarkdownRenderer.tsx:163 | after the merge no two blockquotes are separated by blank lines only |
| MarkdownQuotes.PartsNonEmpty | lao-a-blog/src/components/post/MarkdownRenderer.tsx:158-163 | every blockquote holds at least one line |
| MarkdownQuotes.MergeWithoutQuotes | lao-a-blog/src/components/post/MarkdownRenderer.tsx:163 | a document without quote lines passes through unchanged |
| Strings.Trim | lao-a-blog/src/lib/content-api.ts:110 | `trim()` leaves neither leading nor trailing white space, and empties exactly a white-space-only text |
| Strings.JoinSplit | lao-a-blog/src/lib/content-api.ts:108-110 | joining the pieces of a split with the same separator gives back the text |
| Strings.SplitAtFirst | lao-a-blog/src/lib/content-api.ts:108-110 | the first piece of a split is the text before the first separator, and the other pieces rejoined are everything after it |
| Strings.SplitJoin | lao-a-blog/src/lib/content-api.ts:107 | splitting a join of separator-free pieces gives back the pieces |
| Strings.IndexFrom | lao-a-blog/src/components/post/MarkdownRenderer.tsx:187 | the first occurrence at or after the start, and none when there is none |
| Strings.TextLeTotal | lao-a-blog/src/app/archive/page.tsx:39 | any two keys are comparable |
| Strings.TextLeTransitive | lao-a-blog/src/app/archive/page.tsx:39 | the key order is transitive |
| Strings.TextLeAntisymmetric | lao-a-blog/src/app/archive/page.tsx:39 | two keys that each sort no later than the other are equal |
| Seqs.Dedup | lao-a-blog/src/app/sitemap.ts:46-56 | a `Set` of a list holds every element once and nothing else |
| Seqs.DedupFirstOccurrenceOrder | lao-a-blog/src/app/sitemap.ts:46-56 | a `Set` keeps its elements in order of first occurrence |
| Seqs.FilterMultiplicity | lao-a-blog/src/lib/content-api.ts:190 | `filter` keeps each element that passes as often as it occurs and drops every other |
| Seqs.FilterUnique | lao-a-blog/src/lib/content-api.ts:190 | the `filter` result is the only order-preserving selection with those multiplicities |
| Seqs.SubseqMultiset | lao-a-blog/src/lib/content-api.ts:190 | an order-preserving selection holds no element more often than its source |
| Seqs.Take | lao-a-blog/src/components/widgets/TagCloud.tsx:34 | `slice(0, n)` is the first n elements, or all when there are fewer |

## Left out

- Fetching: the GitHub directory listing, the file download and base64 decoding are I/O. The listing and each file's decoded text (or its failure) are inputs of `ContentApi.GetArticles`.
- `JSON.parse` of a bracketed front-matter value is a foreign parser. It is a parameter (`ArrayParser`) that returns the items of the array or fails.
- Dates:
  - `parseISO`, `format`, `new Date(...).getTime()` and `toISOString` are foreign calls. They are parameters: a clock for the article sort (None for an unparseable date), a calendar giving the `yyyy-MM` key and label, and a validity test in the sitemap.
  - `formatDate` and `formatDateShort` in `utils.ts` are not modelled.
- Unicode:
  - `toLowerCase` is modelled on ASCII letters only.
  - `\w` and `\s` follow JavaScript's definitions for regular expressions without the `u` flag.
  - `localeCompare` on archive keys is modelled as code-point order (`Strings.TextLe`). Locale collation is not modelled. It agrees with code-point order on the digit-and-dash `yyyy-MM` keys.
- ContentApi.GetArticles: when some date does not parse, `getTime()` is NaN and the comparator is inconsistent, so the order is left to the engine. In that case the model promises only which articles are returned, not their order.
- ContentApi.TextField: a front-matter value that is an array where the blog expects text is replaced by the fallback, but the source keeps the array. This covers `title`, `slug`, `summary`, `category`, `coverImage`, `date` and `author`. The model therefore does not capture:
  - the category page counting `category: [x]` under `x` while the category lookup's `===` never matches it;
  - the search page throwing on an array title;
  - the sitemap listing an array category.
- Sitemap.Tags: a `Set` compares array and object items by identity. The model compares them by value, so two equal array items from different articles get one tag page here and two in the source.
- TagCloud.KeyFn: how JavaScript writes a number as a property key (`Number::toString`) is a parameter.
- `encodeURIComponent`, the base URL, `lastModified`, `changeFrequency` and `priority` are not modelled in the sitemap. Entries are (kind, key) pairs.
- `TagCloud.TagSize` divides with exact rationals, not doubles. Rounding of `count / maxCount` near a band boundary is not modelled.
- Prism:
  - Prism is a parameter (`Highlighter`): which grammars exist and what highlighting returns.
  - `MarkdownCode.CodeIsProtected` assumes the highlighter never writes `[[CODEBLOCK-` into its output.
- Code ids: the `Math.random` ids of code blocks are a parameter. `MarkdownCode.CodeIsProtected` needs them free of `[` and `$`; the base-36 ids the source draws are.
- The copy button's `copyCode` handler and the pre-hydration `basicHtml` path are DOM code and are not modelled.
- The renderer passes between heading numbering and the blockquote merge, and after it, are not modelled one by one: bold, italic, inline code, links, lists, paragraphs and the `<p>` clean-up. `MarkdownCode.CodeIsProtected` takes their combined effect as any rewrite of the text between placeholders that does not write the placeholder marker.
- Line splitting:
  - `MarkdownHeadings` and `MarkdownQuotes` take the document as a list of lines.
  - Line terminators other than `\n` (`\r`, U+2028, U+2029), which `.` and `^`/`$` in multiline mode also treat as line ends, are not modelled.
- `MarkdownQuotes`:
  - Quote contents are assumed to hold no `</blockquote>` or `<blockquote` text.
  - A line an author wrote as raw `<blockquote ...>` markup is treated as an ordinary line, but the merge pattern would also join it.
- `Archive.ArchiveWidget.Shown`: the rendering of the groups is left out.
- `TagCloud.TagCloudWidget.Sizes`: the rendering of the tags is left out.
- `Search.SearchPage.RunSearch`: the `isLoading` flag is set to true and back to false within one synchronous effect. The model keeps only the final value.
- Browser-bound components are not modelled: the table of contents, post stats, the view tracker and the theme context.
- The GitHub webhook route is not modelled.
- The view and like counter endpoint (`app/api/posts/[slug]/stats/route.ts`) is not modelled. It keeps per-article counters in an external store, outside the catalogue logic.
- Presentation-only components and pages are not modelled.

## Findings

| source | as written | input that shows it | evidently intended | confidence | as-written member | corrected member |
|---|---|---|---|---|---|---|
| lao-a-blog/src/app/categories/page.tsx:18 | `acc[category] = (acc[category] \|\| 0) + 1` on a plain object `{}` reads inherited `Object.prototype` members. The same statement counts tags at lao-a-blog/src/components/widgets/TagCloud.tsx:27. | One article in category `constructor` is counted as the text `function Object() { [native code] }1`. An article in category `__proto__` is not counted at all. | Every key counted from 0 | not executed | Tally.CountAsWritten, Tally.InheritedKeysMiscounted | Tally.CountMap, Tally.CountMapExact |
| lao-a-blog/src/components/post/MarkdownRenderer.tsx:186-188 | `html.replace(placeholder, block)` with a string replacement expands `$$`, `$&`, `` $` `` and `$'` inside the block | A fence without a language whose code is `echo $$` is shown as `echo $` | Each block is put back literally | not executed | MarkdownCode.RestoreAsWritten, MarkdownCode.DollarsCollapse | MarkdownCode.RestoreFrom, MarkdownCode.CodeBlocksRestored |
