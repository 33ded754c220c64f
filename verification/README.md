# NGA forum scrape-and-classify pipeline, modelled in Dafny

The modelled system collects posts from one board of the NGA forum. The
pipeline has five stages:

1. Walk the board's listing pages.
2. Read each table row into a post stub: title, absolute URL, topic id and author.
3. Fetch each post's opening text, clean it and cap its length.
4. Ask a local language model to classify it. The model's reply is read as a
   JSON object, or through a keyword fallback when it is not one.
5. Summarise the classified posts: counters, rankings, a confidence
   distribution and a category-by-keyword matrix.

The model covers this core, one Dafny module per concern:

| file | module | what it holds |
|---|---|---|
| common.dfy | `Common` | `Option`; Python's `strip`, `in`, `find`, `rfind`, `split`, `lower` over `seq<char>` |
| identifiers.dfy | `Identifiers` | the three id extractors as first-match searches over explicit regex semantics |
| listing.dfy | `Listing` | the row filter, URL prefixing, author fallback and per-page de-duplication |
| content.dfy | `Content` | whitespace collapsing, lazy-span deletion, the content locator chain, truncation |
| orchestrator.dfy | `Orchestrator` | the paging loop `fetch_forum_posts` and `classify_posts` |
| classifier.dfy | `Classifier` | reply parsing, the keyword fallback, `classify_content`, `batch_classify` |
| tally.dfy | `Tallies` | insertion-ordered counters, the stable count-descending ranking, first maximum |
| statistics.dfy | `Statistics` | `generate_statistics` |
| export.dfy | `StatisticsExport` | the counting and ranking halves of the five export tables |
| filenames.dfy | `FileNames` | `sanitize_filename`, `is_image_url` |
| cookies.dfy | `Cookies` | `parse_cookie_string` |

Code that updates state step by step is modelled as methods with loops:

- the paging loop;
- the row loop and the de-duplication loop;
- the locator loops;
- the batch loop;
- the counter loops;
- the cookie loop.

Each method is proved against a specification function. The properties the
code promises are then proved about that function as lemmas. Straight-line
string rewrites and first-match searches are functions.

The network, the HTML parser, the language model and the clock are
parameters:

- a listing page arrives as a `PageOutcome`: an error, or its text together
  with its table rows;
- a post page arrives as the texts of the elements the CSS selectors would find;
- the model's reply and `json.loads` are a reply value and a `decode`
  function;
- each timestamp is a string handed in.

Constants of config.py appear as Dafny constants:

| constant | value | source |
|---|---|---|
| `MaxPagesLimit` | 100 | config.py:42 |
| `MaxContentLength` | 5000 | config.py:95 |
| `BaseUrl` | `https://ngabbs.com` | config.py:9 |
| `Taxonomy` | the category list | config.py:50-59 |

## Model

| member | source | states |
|---|---|---|
| Common.Strip | ollama_client.py:108 | `strip()` removes whitespace from the two ends and nothing else: the result is a slice of the input with only whitespace before and after it, and neither of its ends is whitespace |
| Common.Find | ollama_client.py:111 | `find` gives the leftmost occurrence at or after the start position, and nothing exactly when there is none |
| Common.FindContains | nga_classifier.py:186 | `find` succeeds exactly when the substring occurs (`in`) |
| Common.RFind | ollama_client.py:112 | `rfind` gives an index holding the character with no later one, and nothing exactly when the character is absent |
| Common.Lower | ollama_client.py:152 | lower-casing keeps the length and lowers every character in place |
| Common.Split | setup_cookies.py:37 | `split` gives at least one piece, no piece contains the separator, and the pieces joined with the separator give back the input |
| Common.IndexOfChar | setup_cookies.py:42 | the first occurrence of a character: it holds the character and no earlier index does |
| Common.DigitRunEnd | nga_classifier.py:297 | the end of the greedy `\d+` run: all digits up to it and a non-digit (or the end) at it |
| Identifiers.FirstTagDigit | nga_classifier.py:297 | `re.search` of `tag\d`: the leftmost position where the tag is followed by a digit, none when no position qualifies |
| Identifiers.FirstMatch | nga_classifier.py:304-309 | the first-match loop returns `""` or a non-empty all-digit substring of the URL |
| Identifiers.ExtractTopicId | nga_classifier.py:294-309 | `_extract_topic_id` returns `""` or a non-empty all-digit substring of the URL |
| Identifiers.ParseTopicId | utils.py:141-162 | `parse_nga_topic_id` returns `""` or a non-empty all-digit substring of the URL |
| Identifiers.ParseUserId | utils.py:165-186 | `parse_nga_user_id` returns `""` or a non-empty all-digit substring of the URL |
| Identifiers.TaggedSubsumed | nga_classifier.py:297-298 | any URL that `read\.php\?tid=(\d+)` matches is already matched by `tid=(\d+)` |
| Identifiers.GappedSubsumed | nga_classifier.py:301 | any URL that `read\.php.*?tid=(\d+)` matches is already matched by `tid=(\d+)` |
| Identifiers.DropUnmatched | nga_classifier.py:304-307 | removing a pattern that does not match leaves the first-match result unchanged |
| Identifiers.DropSubsumed | nga_classifier.py:304-307 | removing a pattern that matches only when an earlier one does leaves the result unchanged |
| Identifiers.ExtractTopicIdReduced | nga_classifier.py:296-302 | the five-pattern list gives the same id as `tid=`, `/thread/`, `/read/` alone; patterns 2 and 5 never decide |
| Identifiers.ExtractTopicIdLeftmostTid | nga_classifier.py:297 | with some `tid=` followed by a digit, the id is the maximal digit run after the leftmost such `tid=` |
| Identifiers.ExtractTopicIdWithoutTid | nga_classifier.py:299-300 | `/thread/` and `/read/` are consulted only when no `tid=` is followed by a digit |
| Identifiers.ExtractTopicIdTrailingDigits | nga_classifier.py:297 | when only digits follow the leftmost `tid=`, the id is the whole rest of the URL |
| Identifiers.ExtractTopicIdExample | nga_classifier.py:298 | `/read.php?tid=12345` gives `12345` |
| Identifiers.ParseTopicIdReduced | utils.py:151-155 | the third topic pattern never changes the result: `tid=` first, then `/thread/` |
| Identifiers.ParseUserIdReduced | utils.py:175-179 | the third user pattern never changes the result: `uid=` first, then `/user/` |
| Listing.RemoveDigits | nga_classifier.py:266 | `re.sub(r'\d+', '', t)` leaves no digit, never lengthens the text, and leaves a digit-free text unchanged |
| Listing.RemoveDigitsAppend | nga_classifier.py:266 | removing digits works piecewise: the digits of a concatenation are removed from each part, so only the digits go and the other characters stay in order |
| Listing.RemoveDigitsRun | nga_classifier.py:266 | a digit run leaves nothing behind; with RemoveDigitsAppend and the identity on digit-free text this fixes the value: the non-digits in order |
| Listing.CellTextAuthor | nga_classifier.py:263-268 | the author read from the cell text: the first min(20, n) characters of the cleaned text when its length n exceeds 1, `""` otherwise; always empty or 2 to 20 digit-free characters |
| Listing.CleanCell | nga_classifier.py:264-266 | the cell text stripped, its digit runs removed, stripped again: digit-free and without whitespace at either end |
| Listing.NameOf | nga_classifier.py:267-268 | a cleaned text is kept as the name only when longer than one character, and cut to its first 20 characters |
| Listing.RowAuthor | nga_classifier.py:254-274 | the stub's author is never empty: the found author, or `未知用户` |
| Listing.StubOfSpec | nga_classifier.py:220-251 | a row yields a stub exactly when it has at least 3 cells, a title link whose href holds `read.php` or `tid=`, and a stripped title of at least 3 characters; the stub's URL prefixes `/` hrefs with the base URL and keeps the others |
| Listing.StubOf | nga_classifier.py:220-274 | a row yields a stub only when it has at least 3 cells and a title link; the stub's title has at least 3 characters and its author is never empty |
| Listing.Accepted | nga_classifier.py:218-281 | the first loop keeps at most one stub per row |
| Listing.Dedup | nga_classifier.py:284-289 | de-duplication never lengthens the list and keeps only stubs with a non-empty topic id |
| Listing.AuthorShape | nga_classifier.py:254-274 | a uid link whose text strips to something non-empty decides the author; a uid link whose text strips to `""` gives `未知用户`; without a uid link the author is the cell-text author, or `未知用户` when that is empty |
| Listing.CollectStubs | nga_classifier.py:218-281 | the row loop appends the stub of every accepted row, in row order |
| Listing.DedupByTopic | nga_classifier.py:284-289 | the de-duplication loop returns the first-seen stubs: non-empty topic ids, pairwise distinct |
| Listing.ParseForumPage | nga_classifier.py:210-292 | the page's stubs are the de-duplicated accepted rows, with non-empty, pairwise distinct topic ids |
| Listing.DedupIdsWithin | nga_classifier.py:284-289 | de-duplication introduces no topic id that the input lacks |
| Listing.DedupDistinct | nga_classifier.py:284-289 | every kept topic id is non-empty and no two kept stubs share one |
| Listing.DedupCovers | nga_classifier.py:284-289 | every non-empty topic id of the input is kept |
| Listing.DedupSubsequence | nga_classifier.py:284-289 | the output is a subsequence of the input, in first-seen order |
| Listing.DedupOnlyFirstOccurrences | nga_classifier.py:284-289 | every kept stub is the first stub of the input with its topic id |
| Listing.DedupKeepsFirstOccurrences | nga_classifier.py:284-289 | the first stub of each non-empty topic id is kept |
| Content.Collapse | nga_classifier.py:387 | `re.sub(r'\s+', ' ', ...)`: no longer, empty only for empty input, whitespace only as single spaces, a space at an end exactly where the input has whitespace; its value is pinned by the lemmas below |
| Content.CollapseSpaces | nga_classifier.py:387 | a non-empty run of whitespace alone becomes a single space |
| Content.CollapseAround | nga_classifier.py:387 | a visible character splits the work: the text before it and the text after it are collapsed independently |
| Content.CollapseBetween | nga_classifier.py:387 | a whitespace run between two visible characters becomes exactly one space, and nothing when there is no whitespace between them |
| Content.CollapseIdempotent | nga_classifier.py:387 | collapsing twice is collapsing once |
| Content.CollapseKeepsVisible | nga_classifier.py:387 | the non-whitespace characters survive, in order |
| Content.CollapseHasNoNewline | nga_classifier.py:387 | the collapsed text holds no line feed, so the lazy `.*?` gaps below can span any of it |
| Content.MatchEnd | nga_classifier.py:391-394 | a match of a lazy `p0.*?p1...` pattern at a position ends after that position and inside the text |
| Content.DeleteFrom | nga_classifier.py:398 | `re.sub(pattern, '')` never lengthens the text and only keeps its characters |
| Content.DeleteWithoutMatch | nga_classifier.py:398 | a pattern that matches nowhere leaves the text unchanged |
| Content.RemoveAll | nga_classifier.py:397-398 | removing the patterns in turn never lengthens the text and only keeps its characters |
| Content.RemovePatternsInOrder | nga_classifier.py:390-398 | the four patterns are removed in the listed order: brackets, edit note, toolbar, reply bar |
| Content.BracketsRemoved | nga_classifier.py:391 | after `\[.*?\]` is removed on a line, no `[` is followed later by `]` |
| Content.UnmatchedBracket | nga_classifier.py:391 | a `[` where the bracket pattern fails has no `]` after it |
| Content.DeleteKeepsNoBracketPair | nga_classifier.py:392-398 | a later pattern removal cannot create a `[` followed by `]` |
| Content.PassesLeaveNoBracketPair | nga_classifier.py:390-398 | after the four removals of a single-line text no `[` is followed by `]` |
| Content.CleanContentText | nga_classifier.py:381-400 | `_clean_content_text` computes the cleaned text: strip, collapse, the four removals, strip |
| Content.Cleaned | nga_classifier.py:381-400 | the cleaned text has no whitespace at either end |
| Content.RemovePatternsFrom | nga_classifier.py:397-398 | the removal loop applies the four patterns in order |
| Content.CleanedShape | nga_classifier.py:381-400 | the cleaned text is no longer than the input, has no whitespace at either end, and holds no `[` followed by `]` |
| Content.CleanedNoBracketPair | nga_classifier.py:381-400 | no `[` of a cleaned non-empty text is followed by `]` |
| Content.CleanedUnchanged | nga_classifier.py:381-400 | a stripped, collapsed text in which no pattern matches comes back unchanged |
| Content.ParsePostContent | nga_classifier.py:340-375 | `_parse_post_content` gives the selector result, else the div fallback, and `None` when that is empty |
| Content.PostContent | nga_classifier.py:356-375 | a content found is never empty |
| Content.SelectorText | nga_classifier.py:356-363 | the selector loop gives the cleaned first element of the first selector that yields non-empty text |
| Content.DivText | nga_classifier.py:366-373 | the div loop gives the cleaned text of the first eligible div |
| Content.SelectorWins | nga_classifier.py:356-363 | the first selector whose first element cleans to non-empty text decides the content; earlier selectors are skipped |
| Content.DivFallback | nga_classifier.py:366-375 | with no selector text, the first div longer than 50 characters without `回复`, `引用`, `举报` decides; `None` if it cleans to nothing |
| Content.ContentShape | nga_classifier.py:375 | a returned content is non-empty, has no whitespace at either end and no `[` followed by `]` |
| Content.ContentSource | nga_classifier.py:356-373 | a returned content is the cleaning of some element text |
| Content.Truncate | nga_classifier.py:331-332 | content within the cap is unchanged; longer content becomes its first 5000 characters plus `...`, 5003 in all |
| Content.FetchPostContent | nga_classifier.py:311-338 | `fetch_post_content` gives `None` for a failed fetch, otherwise the parsed content truncated |
| Orchestrator.ParsedPage | nga_classifier.py:186-191 | a fetched page lists the parser's stubs, whose topic ids are pairwise distinct |
| Orchestrator.PageLimit | nga_classifier.py:166-167 | the last page requested is never above 100: it is `max_pages` when that is within the cap, and exactly 100 when `max_pages` exceeds it |
| Orchestrator.LoginPageContains | nga_classifier.py:186 | a page asks for a login exactly when its text contains `你必须登录` |
| Orchestrator.FetchForumPosts | nga_classifier.py:166-208 | the paging loop requests exactly the `Requested` pages and returns their stubs concatenated in page order |
| Orchestrator.VisitPage | nga_classifier.py:175-205 | one pass of the paging loop extends the requested pages and the gathered stubs consistently, stopping where the walk stops |
| Orchestrator.ReadPage | nga_classifier.py:186-197 | one fetched page: whether the walk stops there (login marker or no stubs) and the stubs it contributes |
| Orchestrator.RequestedStep | nga_classifier.py:172-197 | requesting a page either ends the walk or leaves the pages after it to request |
| Orchestrator.RequestedPages | nga_classifier.py:172 | pages are requested in increasing order from the first one, at most up to the limit, none when the limit is below the start |
| Orchestrator.Requested | nga_classifier.py:172-195 | every page requested lies between the first page and the limit |
| Orchestrator.RequestedStops | nga_classifier.py:186-195 | no requested page but the last stops the walk, and a walk that ends early ends at a stopping page |
| Orchestrator.ErrorPageSkipped | nga_classifier.py:203-205 | a page whose request fails is skipped and the next page is still requested |
| Orchestrator.GatheredAppend | nga_classifier.py:197 | the stubs of two page runs are the concatenation of their stubs |
| Orchestrator.GatheredFrom | nga_classifier.py:197 | every gathered stub comes from one of the requested pages |
| Orchestrator.Gathered | nga_classifier.py:197 | the stubs of a list of pages, page after page; GatheredAppend and GatheredFrom state its properties |
| Orchestrator.NothingGathered | nga_classifier.py:166-195 | with `max_pages` below 1, or a login page first, no stub is returned |
| Orchestrator.WithContent | nga_classifier.py:424-425 | the post copies every field of the stub and adds the content |
| Orchestrator.AddContent | nga_classifier.py:423-426 | one post with its fetched content, or `""` when there is none |
| Orchestrator.AddContents | nga_classifier.py:419-426 | the content loop gives one post per stub, in order, each with its own content |
| Orchestrator.ClassifyPosts | nga_classifier.py:402-434 | one classified record per stub, in order, for the stub with its content and the classification of its reply |
| Orchestrator.ContentTextBound | nga_classifier.py:423-425 | a post's content is at most 5003 characters, `""` when the fetch or the parse gave nothing, and unchanged when within the cap |
| Classifier.FirstGroupIsListed | ollama_client.py:155-171 | the fallback category is `其他` or the category of one of the keyword groups |
| Classifier.FallbackShape | ollama_client.py:143-174 | the fallback gives exactly one category from the 8-entry taxonomy, no keywords and confidence 0.3 |
| Classifier.FirstGroupWins | ollama_client.py:154-168 | the first keyword group mentioned in the lower-cased text decides the category |
| Classifier.NoGroupMentioned | ollama_client.py:169-171 | a text that mentions no listed term gives `其他` |
| Classifier.AnimeFirst | ollama_client.py:155-157 | any text containing `动画`, even with `游戏` as well, is filed under `动画/番剧` |
| Classifier.UpperCaseAnime | ollama_client.py:152-156 | `ANIME` matches the anime group through lower-casing |
| Classifier.JsonSpan | ollama_client.py:111-114 | a JSON span found is a non-empty range inside the text |
| Classifier.JsonSpanSpec | ollama_client.py:108-115 | the span runs from the first `{` to the last `}` inclusive, and exists exactly when some `{` has a `}` after it |
| Classifier.ParseClassificationResult | ollama_client.py:104-141 | `_parse_classification_result` computes the reply's classification as specified by the span, the decoder and the fallback |
| Classifier.ParseSpan | ollama_client.py:114-141 | the branch on the span: the completed object, the fallback on a decode error or no span, the zero result on any other error |
| Classifier.SpanResult | ollama_client.py:114-141 | the classification read from a stripped reply given its span; SpanHasFields states that it holds the three fields and ParseSpan computes it |
| Classifier.CompleteFields | ollama_client.py:118-129 | the in-place backfill and category collapse of a decoded object |
| Classifier.Backfill | ollama_client.py:118-124 | the three required fields are present afterwards, and every field already present keeps its value |
| Classifier.KeepFirstCategory | ollama_client.py:126-129 | the collapse keeps the field names and every field other than `categories`, and leaves no category list of more than one entry |
| Classifier.FallbackParse | ollama_client.py:143-174 | the fallback result is made of one fallback category, no keywords and confidence 0.3; its shape is stated by FallbackShape |
| Classifier.NoSpanFallsBack | ollama_client.py:132-134 | without a `{` followed by a `}` the result is the fallback on the stripped reply |
| Classifier.DecodedResult | ollama_client.py:118-131 | a decoded object keeps its fields, gains `categories` `[]`, `keywords` `[]`, `confidence` 0.5 where absent, and has a list of more than one category cut to its first entry; a shorter list or a non-list value stays |
| Classifier.AtMostOneCategory | ollama_client.py:126-129 | after the collapse a category list has at most one entry |
| Classifier.ParsedHasFields | ollama_client.py:118-124 | every parsed classification holds `categories`, `keywords` and `confidence`, so it is never an empty dictionary |
| Classifier.SpanHasFields | ollama_client.py:118-141 | whichever branch the span takes, the result holds `categories`, `keywords` and `confidence` |
| Classifier.ClassifyContent | ollama_client.py:47-74 | `classify_content` gives `None` exactly when the service gave no reply or an empty one, otherwise the parsed reply |
| Classifier.ClassifyResult | ollama_client.py:63-70 | no classification exactly when the service gave no reply or an empty one |
| Classifier.BatchClassify | ollama_client.py:176-218 | one output per input post, same length and order, each the post with its classification attached |
| Classifier.ClassifyPost | ollama_client.py:191-216 | one pass of the batch loop: the post with its classification, or with the default and the error note |
| Classifier.AttachSpec | ollama_client.py:196-216 | each output keeps its post and timestamp; the error note `分类失败` marks exactly the posts without a reply, which carry `{['其他'], [], 0.0}`; the others carry the parsed reply |
| Classifier.Attach | ollama_client.py:196-216 | the record keeps the post and the clock reading; it carries the error note exactly when no classification was given, and otherwise the classification given |
| Tallies.Add | nga_classifier.py:455 | incrementing a counter adds to that key only, and appends the key when new |
| Tallies.AddValid | nga_classifier.py:455 | an increment keeps the counter's keys distinct and in step with its counts |
| Tallies.TallyValid | nga_classifier.py:454-455 | a counter filled from a list is well formed |
| Tallies.TallyOfSnoc | nga_classifier.py:454-455 | counting one more item is one increment |
| Tallies.FirstIndex | nga_classifier.py:454-455 | the position of a key's first occurrence in the items counted, which fixes the order of the dictionary's keys |
| Tallies.TallyCounts | nga_classifier.py:454-455 | every key's count is its number of occurrences |
| Tallies.TallyKeys | nga_classifier.py:454-455 | the counter's keys are exactly the items counted |
| Tallies.TallyOrder | nga_classifier.py:454-455 | the keys are in first-seen order, as a dict keeps them |
| Tallies.AddAllCount | statistics_export.py:207-208 | adding a keyword list adds each keyword's occurrences to its count |
| Tallies.AddAllValid | statistics_export.py:207-208 | adding a list keeps the counter well formed |
| Tallies.MergeKeysCount | statistics_export.py:212-213 | merging along distinct keys adds those keys' counts |
| Tallies.MergeCount | statistics_export.py:212-213 | `Counter.update` with a counter adds the counts of every key |
| Tallies.TotalOfTally | nga_classifier.py:462 | the counts of a list's counter sum to the list's length |
| Tallies.SumOverPermutation | statistics_export.py:31 | the sum of the counts does not depend on the order of the keys |
| Tallies.RankKeysSpec | statistics_export.py:33 | the stable descending sort is a permutation of the keys, sorted by count, with equal counts kept in their original order |
| Tallies.Rows | statistics_export.py:33-40 | one row per key, holding the key and its count |
| Tallies.RankedTableRows | statistics_export.py:68 | the ranked table lists every counted item once, with its number of occurrences |
| Tallies.RankedTableOrder | statistics_export.py:33 | the ranked table is count-descending, ties in first-seen order |
| Tallies.RankedTableTotal | statistics_export.py:31 | the counts of the ranked table sum to the number of items counted |
| Tallies.RowsTotalOf | statistics_export.py:31 | a table's counts sum to the counter's counts over its keys |
| Tallies.RankedRowsTotal | statistics_export.py:31 | ranking keeps the sum of the counts |
| Tallies.TopKeys | statistics_export.py:215 | `most_common(n)` gives the first n ranked keys, or all of them when fewer |
| Tallies.AtLeast | statistics_export.py:68-69 | the filter keeps exactly the rows whose count reaches the minimum, as a subsequence of the table, so in the table's order |
| Tallies.FirstMax | nga_classifier.py:471-473 | `max(items, key=count)`: a maximal entry with its count, the first one on a tie; none for an empty counter |
| Tallies.MaxIndex | nga_classifier.py:471 | the first position of a maximal count |
| Statistics.Authors | nga_classifier.py:451 | one author per post, `未知` for a post without one |
| Statistics.Confident | nga_classifier.py:474 | the number of posts with confidence above 0.5: at most all of them, all of them exactly when every post is confident, none exactly when no post is |
| Statistics.ConfidentAppend | nga_classifier.py:474 | the confident posts of two lists add up: the count is a sum over the posts |
| Statistics.AllCategoriesLength | nga_classifier.py:454-455 | the category entries counted are all entries of all posts |
| Statistics.Rate | nga_classifier.py:474 | the classification rate lies in [0, 1], is 0 for no posts, and is 1 exactly when every post of a non-empty list is confident |
| Statistics.GenerateStatistics | nga_classifier.py:436-477 | `generate_statistics` gives the totals, the three first-seen counters, their first maximal entries and the rate; author counts sum to the number of posts, category counts to the number of category entries |
| Statistics.StatisticsTotals | nga_classifier.py:454-462 | author counts sum to the number of posts and category counts to the number of category entries |
| StatisticsExport.FirstCategories | statistics_export.py:26-27 | one category per post: its first, or `未分类` when it has none |
| StatisticsExport.RankedRows | statistics_export.py:33 | the rows of a counter in stable count-descending order |
| StatisticsExport.RankedRowsAtLeast | statistics_export.py:68-69 | the ranked rows whose count reaches the minimum |
| StatisticsExport.CountFirstCategories | statistics_export.py:25-28 | the category loop counts each post once, under its first category |
| StatisticsExport.CategoryStatistics | statistics_export.py:20-40 | the category table of the posts |
| StatisticsExport.CategoryTableCounts | statistics_export.py:26-33 | category counts sum to the number of posts; each category appears once, with its count |
| StatisticsExport.CategoryTableOrder | statistics_export.py:33 | category rows are count-descending, ties in first-seen order |
| StatisticsExport.CategoryTable | statistics_export.py:25-33 | the category table; its counts are stated by CategoryTableCounts and its order by CategoryTableOrder |
| StatisticsExport.CollectKeywords | statistics_export.py:57-60 | the keyword loop concatenates every post's keywords in order |
| StatisticsExport.TopTablesOf | statistics_export.py:85-87 | the top-N tables for N in 10, 20, 50, 100 |
| StatisticsExport.KeywordStatistics | statistics_export.py:52-87 | the keyword table and its top-N tables |
| StatisticsExport.KeywordTableCounts | statistics_export.py:57-69 | keyword counts sum to the number of keyword entries; the table holds exactly the keywords counted at least `min_count` times, each once, with its count |
| StatisticsExport.KeywordTableOrder | statistics_export.py:66-69 | keyword rows are count-descending; the keywords of one count appear in first-seen order, and none of a count below `min_count` |
| StatisticsExport.FilteredTableCounts | statistics_export.py:66-69 | a filtered ranked counter lists exactly the items reaching the minimum, each once, with its number of occurrences |
| StatisticsExport.AtLeastDistinct | statistics_export.py:68-69 | filtering a table with distinct labels keeps them distinct |
| StatisticsExport.AtLeastWithCount | statistics_export.py:68-69 | filtering keeps the keys of a given count in their order when the count reaches the minimum, and drops them all otherwise |
| StatisticsExport.FilteredRanking | statistics_export.py:66-69 | a filtered ranked table is count-descending, with the keys of each kept count in the counter's order |
| StatisticsExport.KeywordTable | statistics_export.py:57-69 | the keyword table; its counts are stated by KeywordTableCounts and its order by KeywordTableOrder |
| StatisticsExport.TopTables | statistics_export.py:85-87 | at most one top-N table per requested size |
| StatisticsExport.AtLeastKeepsOrder | statistics_export.py:68-69 | filtering by the minimum keeps the count-descending order |
| StatisticsExport.TopTablesSpec | statistics_export.py:85-87 | a top-N table exists exactly when the full table has at least N rows, and is its first N rows |
| StatisticsExport.CountAuthors | statistics_export.py:101-104 | the author loop counts each post once, `未知用户` when it has no author |
| StatisticsExport.AuthorStatistics | statistics_export.py:96-118 | the author table with at least `min_posts` posts each |
| StatisticsExport.AuthorTableCounts | statistics_export.py:101-111 | author counts sum to the number of posts; the table holds exactly the authors with at least `min_posts` posts, each once, with their number of posts; a missing author counts as `未知用户` |
| StatisticsExport.AuthorTableOrder | statistics_export.py:106-111 | author rows are post-count-descending; authors with the same count appear in first-seen order, and none below `min_posts` |
| StatisticsExport.AuthorTable | statistics_export.py:101-111 | the author table; its counts are stated by AuthorTableCounts and its order by AuthorTableOrder |
| StatisticsExport.ConfidenceDistribution | statistics_export.py:161-175 | one row per bucket, counting the posts in that bucket |
| StatisticsExport.RangesPartition | statistics_export.py:161-175 | every non-negative confidence lies in exactly one bucket (the top one takes all values from 0.9 up, above 1.0 too); a negative one in none |
| StatisticsExport.DistributionTotal | statistics_export.py:161-175 | the bucket counts sum to the number of posts with non-negative confidence |
| StatisticsExport.CountInRange | statistics_export.py:172-175 | a bucket never counts more posts than there are |
| StatisticsExport.MatrixRow | statistics_export.py:222-224 | a matrix row holds the category's count of each column keyword, 0 when absent |
| StatisticsExport.AddKeywords | statistics_export.py:207-208 | the keyword loop adds each keyword of a post to its category's counter |
| StatisticsExport.GroupByCategory | statistics_export.py:199-208 | the grouping loop gives the categories in first-seen order, each with its keyword counter |
| StatisticsExport.MergeInOrder | statistics_export.py:211-213 | the overall counter merges the category counters in category order |
| StatisticsExport.GroupAll | statistics_export.py:199-208 | the grouping of the posts by first category; its properties are stated by GroupedCovers and MatrixCell |
| StatisticsExport.MergeAll | statistics_export.py:211-213 | the merge of the category counters in category order; its counts are stated by MergeAllCount |
| StatisticsExport.RowOf | statistics_export.py:221-224 | the row loop computes one matrix row |
| StatisticsExport.MatrixRows | statistics_export.py:218-224 | the matrix loop gives one row per category, in order, each the category's row |
| StatisticsExport.CategoryKeywordMatrix | statistics_export.py:194-225 | one row per category in first-seen order; columns are the most frequent keywords overall; each cell is the keyword's count within the category |
| StatisticsExport.GroupedCovers | statistics_export.py:199-205 | the category order lists each grouped category once |
| StatisticsExport.MatrixCell | statistics_export.py:204-208 | a category's count of a keyword is the keyword's occurrences among that category's posts |
| StatisticsExport.ColumnTotal | statistics_export.py:199-208 | a keyword's counts over the categories sum to its overall number of occurrences |
| StatisticsExport.MergeAllCount | statistics_export.py:211-213 | the merged counter holds the sum of the category counts |
| StatisticsExport.ColumnsSumToOverall | statistics_export.py:211-224 | each matrix column sums to the keyword's overall count |
| FileNames.ReplaceIllegal | utils.py:24 | every illegal character becomes `_`, every other character stays where it was, the length is kept, no illegal character remains |
| FileNames.LTrim | utils.py:27 | `lstrip('. ')` removes a prefix made only of dots and spaces and leaves no dot or space first |
| FileNames.RTrim | utils.py:27 | `rstrip('. ')` removes a suffix made only of dots and spaces and leaves no dot or space last |
| FileNames.Trim | utils.py:27 | `strip('. ')` removes dots and spaces from the two ends and nothing else, and leaves neither end a dot or a space |
| FileNames.Cleaned | utils.py:24-27 | the cleaned name is the input with illegal characters replaced by `_` and only dots and spaces removed at the ends; it has no illegal character and no dot or space at either end |
| FileNames.SplitExt | utils.py:31 | `splitext` splits the name into stem and extension; the extension starts at the last dot and holds no other; there is none exactly when there is no dot or every dot is preceded only by dots |
| FileNames.SliceTo | utils.py:32 | `s[:stop]` with Python's reading of a negative stop |
| FileNames.ShortenedKeepsCharacters | utils.py:30-33 | truncation only drops characters |
| FileNames.SanitizedLegal | utils.py:12-35 | the result is never empty and holds no character of `<>:"/\\?*`, no vertical bar and no control character below 0x20 |
| FileNames.SanitizeFilename | utils.py:12-35 | the sanitized name is never empty |
| FileNames.SanitizedUntruncated | utils.py:27-35 | without truncation the result is the cleaned name (or `unnamed`), neither end a dot or a space |
| FileNames.SanitizedTruncated | utils.py:30-33 | a name over the limit with an extension shorter than it keeps the extension and has length `max_length - 1` |
| FileNames.DottedNameHasExtension | utils.py:27-31 | a cleaned name with a dot past its first character has an extension |
| FileNames.LongExtensionOverflows | utils.py:30-33 | as written, `sanitize_filename` does not keep its result within `max_length`: when the extension alone reaches the limit, the result is at least as long as the limit (SanitizedTruncated gives the case that stays within it) |
| FileNames.AnyEndsWith | utils.py:205 | `any(s.endswith(x) ...)` holds exactly when some suffix matches |
| FileNames.AnyContained | utils.py:210 | `any(x in s ...)` holds exactly when some part occurs |
| FileNames.IsImageUrlSpec | utils.py:199-213 | an image URL is one whose lower-cased path ends with one of 7 extensions or whose host contains one of 3 domains |
| FileNames.IsImageUrl | utils.py:199-213 | the image test; its meaning is stated by IsImageUrlSpec |
| FileNames.PathCaseIgnored | utils.py:201 | the extension test ignores the case of the path |
| FileNames.HostCaseMatters | utils.py:210 | the host test is case-sensitive: `IMGUR.COM` with path `/a` is not an image URL |
| FileNames.HostOfServiceCounts | utils.py:209-211 | a host containing a listed domain counts, whatever the path |
| Cookies.KeyOf | setup_cookies.py:42-43 | the key is the stripped text before the first `=` and holds no `=` |
| Cookies.ValueOf | setup_cookies.py:42-43 | the value is the stripped text after the first `=` |
| Cookies.Entries | setup_cookies.py:37-43 | one entry per `;` segment, in order |
| Cookies.ParseCookieString | setup_cookies.py:29-45 | the loop stores every segment's pair in order |
| Cookies.StoreAll | setup_cookies.py:39-43 | the segment loop gives the dictionary of storing every segment's pair in order |
| Cookies.CookieMap | setup_cookies.py:29-45 | the dictionary of a header; its keys and values are stated by StoreKeys, StoreLastWins and CookieMapStripped |
| Cookies.StoreSegment | setup_cookies.py:40-43 | one pass: a segment with `=` sets its key, others change nothing |
| Cookies.StoreKeys | setup_cookies.py:39-43 | a key is present exactly when some segment sets it |
| Cookies.StoreLastWins | setup_cookies.py:43 | a key's value comes from the last segment that sets it |
| Cookies.StoreStripped | setup_cookies.py:40-43 | stored keys and values carry no whitespace at either end, and keys hold no `=` |
| Cookies.EntryShape | setup_cookies.py:40-41 | a segment without `=` contributes nothing; one with `=` a stripped key without `=` and a stripped value |
| Cookies.CookieMapStripped | setup_cookies.py:29-45 | the whole dictionary holds only stripped keys without `=` and stripped values |
| Cookies.SplitAtFirstEquals | setup_cookies.py:42 | a pair is split at its first `=`, so `a=b=c` reads as key `a`, value `b=c` |
| Cookies.EmptyHeader | setup_cookies.py:33-34 | the empty header gives the empty dictionary |

## Left out

- StatisticsExport.ConfidenceDistribution: for an empty post list the source fails (the sort at statistics_export.py:154 needs a confidence column that an empty frame lacks, and the percentage at statistics_export.py:177 divides by zero); the model returns five zero rows there instead of modelling the failure.
- Content.Collapse: its own contract states the shape of the result; the value is pinned down by CollapseSpaces, CollapseAround and CollapseBetween.
- HTTP, sessions, cookies on disk, login and `time.sleep` are not modelled. This covers nga_classifier.py:25-146 and ollama_client.py:16-45,76-102.
  - Pages come in as values.
  - The health check's result is ignored by the code, and so by the model.
- BeautifulSoup and the CSS selectors are not modelled. A listing row is a `Row` record: cell count, title link, uid-link text and cell text. A post page is the element texts each selector and `find_all('div')` would give.
- `json.loads` is the `decode` parameter.
  - A text that starts with `{` and ends with `}` decodes to an object or fails, so `DecodeOutcome` has no non-object case.
  - JSON numbers are `real`.
- The language-model call, the prompt formatting (ollama_client.py:60) and logging are not modelled. The reply to each post is a parameter.
  - Orchestrator.ClassifyPosts: the replies and the timestamps (`_get_current_time`) are per-post sequences handed in.
  - Classifier.ClassifyContent: the exception path at ollama_client.py:72-74 is not modelled, because nothing left in the modelled code raises.
- Orchestrator.FetchForumPosts: each listing page arrives already parsed. `Orchestrator.ParsedPage` connects a page's rows to the stubs it lists.
- `urljoin` is modelled as prefixing the base URL to an href that starts with `/`. Dot segments and `//host` hrefs are not normalised. `urlparse` is not modelled: `is_image_url` takes the path and the host.
- FileNames.IsImageUrl: the `try/except` that returns `False` when `urlparse` raises is not modelled, since the URL arrives already split.
- Python's Unicode-aware string functions are simplified:
  - `lower()` is ASCII-only;
  - `\d` matches ASCII digits only;
  - `strip()` and `\s` use the Unicode whitespace set of `str.isspace`, written out as a list.
- FileNames.SplitExt: `os.path.splitext` is modelled for names without path separators. That is all it sees, since `/` and `\` have already been replaced.
- `classify_posts` returning its input when no client exists (nga_classifier.py:412-414) is not modelled. Constructing the client cannot fail, because its service check catches every error (ollama_client.py:24-45).
- `if classification:` (ollama_client.py:196) is modelled as "a reply was parsed". `Classifier.ParsedHasFields` shows every parsed classification is a non-empty dictionary.
- `time_distribution` (nga_classifier.py:464-467) is not modelled: no code sets `parsed_time`.
- Output formatting and files are not modelled:
  - `save_results`;
  - every percentage;
  - the pandas CSV and Excel writers;
  - the per-post confidence listing and its sort (statistics_export.py:136-158);
  - `create_summary_report`, `main` and `load_classification_data` of statistics_export.py.
- Statistics and exports read typed records: lists of strings and a `real` confidence. Ill-typed JSON fields are not modelled.
- From utils.py, `format_file_size` and `create_progress_bar` depend on floating point. `extract_filename_from_url` depends on Python's salted `hash()`. The JSON file helpers are file I/O.
- The interactive parts of setup_cookies.py are not modelled.
- visualization.py, visualization_fixed.py, font_test.py, main.py and config.py are not part of this model. The constants the core uses are restated.
- Topic-id uniqueness across pages is not claimed: de-duplication is per page only (nga_classifier.py:197, 284-289).
