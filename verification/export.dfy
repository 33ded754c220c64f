/**
  The counting and ranking halves of the export tables
  (statistics_export.py): the per-category, keyword and author tables, the
  top-N keyword tables, the confidence distribution and the
  category-by-keyword matrix. File output and percentages are not part of
  this model.
 */
module StatisticsExport {
  import opened Common
  import opened Tallies
  import opened Statistics

  /** The category of a post with an empty category list. */
  const Uncategorised: string := "未分类"

  /** The author key used when a post has none. */
  const UnknownAuthor: string := "未知用户"

  /** The sizes of the top-N keyword tables. */
  const TopSizes: seq<nat> := [10, 20, 50, 100]

  /** A post is counted under its first category only. */
  function FirstCategory(p: Record): string
  {
    if p.categories == [] then Uncategorised else p.categories[0]
  }

  function FirstCategories(posts: seq<Record>): (r: seq<string>)
    ensures |r| == |posts|
    ensures forall i :: 0 <= i < |posts| ==> r[i] == FirstCategory(posts[i])
  {
    if posts == [] then [] else FirstCategories(posts[..|posts| - 1]) + [FirstCategory(posts[|posts| - 1])]
  }

  /** The stable count-descending table of a counter. */
  function Table(t: Tally): seq<(string, nat)>
  {
    Rows(t, Ranked(t))
  }

  /** The first components of a table's rows. */
  function Labels(rows: seq<(string, nat)>): (r: seq<string>)
    ensures |r| == |rows|
    ensures forall i :: 0 <= i < |rows| ==> r[i] == rows[i].0
  {
    seq(|rows|, i requires 0 <= i < |rows| => rows[i].0)
  }

  /** `for key, count in sorted(items, key=count, reverse=True)`: one row
      per key of the counter, count-descending. */
  method RankedRows(t: Tally) returns (rows: seq<(string, nat)>)
    ensures rows == Table(t)
  {
    var ranked := Ranked(t);
    rows := [];
    for i := 0 to |ranked|
      invariant rows == Rows(t, ranked[..i])
    {
      assert ranked[..i + 1][..i] == ranked[..i];
      rows := rows + [(ranked[i], Count(t, ranked[i]))];
    }
    assert ranked[..|ranked|] == ranked;
  }

  /** `for key, count in c.most_common(): if count >= min: ...`: the rows of
      the ranking whose count reaches `min`. */
  method RankedRowsAtLeast(t: Tally, min: int) returns (rows: seq<(string, nat)>)
    ensures rows == AtLeast(Table(t), min)
  {
    var ranked := Ranked(t);
    rows := [];
    for i := 0 to |ranked|
      invariant rows == AtLeast(Rows(t, ranked[..i]), min)
    {
      AtLeastStep(t, ranked, i, min);
      var count := Count(t, ranked[i]);
      if count >= min {
        rows := rows + [(ranked[i], count)];
      }
    }
    assert ranked[..|ranked|] == ranked;
  }

  /** One more ranked key extends the filtered rows by its row, when its
      count reaches `min`. */
  lemma AtLeastStep(t: Tally, ranked: seq<string>, i: nat, min: int)
    requires i < |ranked|
    ensures AtLeast(Rows(t, ranked[..i + 1]), min) ==
      AtLeast(Rows(t, ranked[..i]), min) +
      (if Count(t, ranked[i]) >= min then [(ranked[i], Count(t, ranked[i]))] else [])
  {
    var next := Rows(t, ranked[..i + 1]);
    assert ranked[..i + 1][..i] == ranked[..i];
    assert next[..i] == Rows(t, ranked[..i]) && next[i] == (ranked[i], Count(t, ranked[i]));
  }

  /** The category table: each first category with the number of posts
      under it, count-descending. */
  function CategoryTable(posts: seq<Record>): seq<(string, nat)>
  {
    Table(TallyOf(FirstCategories(posts)))
  }

  method CountFirstCategories(posts: seq<Record>) returns (categories: Tally)
    ensures categories == TallyOf(FirstCategories(posts))
  {
    categories := Empty;
    for i := 0 to |posts|
      invariant categories == TallyOf(FirstCategories(posts[..i]))
    {
      assert posts[..i + 1][..i] == posts[..i];
      TallyOfSnoc(FirstCategories(posts[..i]), FirstCategory(posts[i]));
      categories := Add(categories, FirstCategory(posts[i]), 1);
    }
    assert posts[..|posts|] == posts;
  }

  method CategoryStatistics(posts: seq<Record>) returns (rows: seq<(string, nat)>)
    ensures rows == CategoryTable(posts)
  {
    var categories := CountFirstCategories(posts);
    rows := RankedRows(categories);
  }

  /** Each post is counted once, under its first category or `'未分类'`:
      one row per such category, holding its number of posts, the counts
      adding up to the number of posts. */
  lemma CategoryTableCounts(posts: seq<Record>)
    ensures RowsTotal(CategoryTable(posts)) == |posts|
    ensures forall c :: c in Labels(CategoryTable(posts)) <==> c in FirstCategories(posts)
    ensures Distinct(Labels(CategoryTable(posts)))
    ensures forall i :: 0 <= i < |CategoryTable(posts)| ==>
      CategoryTable(posts)[i].1 == Occ(FirstCategories(posts), CategoryTable(posts)[i].0)
  {
    var items := FirstCategories(posts);
    RankedTableTotal(items);
    RankedTableRows(items);
    assert Labels(CategoryTable(posts)) == Ranked(TallyOf(items));
  }

  /** Category rows are in non-increasing count order, and categories with
      equal counts appear in the order their first post appears. */
  lemma CategoryTableOrder(posts: seq<Record>)
    ensures forall i, j :: 0 <= i < j < |CategoryTable(posts)| ==>
      CategoryTable(posts)[i].1 >= CategoryTable(posts)[j].1
    ensures var t := TallyOf(FirstCategories(posts));
      forall c :: WithCount(t, Ranked(t), c) == WithCount(t, t.keys, c)
    ensures FirstSeenOrder(TallyOf(FirstCategories(posts)).keys, FirstCategories(posts))
  {
    RankedTableOrder(FirstCategories(posts));
  }

  // ---------------------------------------------------------------------
  // Keywords.

  /** The keyword table: every keyword mentioned at least `minCount` times,
      count-descending. */
  function KeywordTable(posts: seq<Record>, minCount: int): seq<(string, nat)>
  {
    AtLeast(Table(TallyOf(AllKeywords(posts))), minCount)
  }

  /** The top-N tables: for each N of `sizes`, the first N rows, present
      only when the table has at least N rows. */
  function TopTables(rows: seq<(string, nat)>, sizes: seq<nat>): (r: seq<(nat, seq<(string, nat)>)>)
    ensures |r| <= |sizes|
  {
    if sizes == [] then []
    else
      var n := sizes[|sizes| - 1];
      TopTables(rows, sizes[..|sizes| - 1]) + (if |rows| >= n then [(n, rows[..n])] else [])
  }

  method CollectKeywords(posts: seq<Record>) returns (allKeywords: seq<string>)
    ensures allKeywords == AllKeywords(posts)
  {
    allKeywords := [];
    for i := 0 to |posts|
      invariant allKeywords == AllKeywords(posts[..i])
    {
      assert posts[..i + 1][..i] == posts[..i];
      allKeywords := allKeywords + posts[i].keywords;
    }
    assert posts[..|posts|] == posts;
  }

  method TopTablesOf(rows: seq<(string, nat)>) returns (tops: seq<(nat, seq<(string, nat)>)>)
    ensures tops == TopTables(rows, TopSizes)
  {
    tops := [];
    for i := 0 to |TopSizes|
      invariant tops == TopTables(rows, TopSizes[..i])
    {
      assert TopSizes[..i + 1][..i] == TopSizes[..i];
      var n := TopSizes[i];
      if |rows| >= n {
        tops := tops + [(n, rows[..n])];
      }
    }
    assert TopSizes[..|TopSizes|] == TopSizes;
  }

  method KeywordStatistics(posts: seq<Record>, minCount: int)
    returns (rows: seq<(string, nat)>, tops: seq<(nat, seq<(string, nat)>)>)
    ensures rows == KeywordTable(posts, minCount)
    ensures tops == TopTables(rows, TopSizes)
  {
    var allKeywords := CollectKeywords(posts);
    rows := RankedRowsAtLeast(TallyOf(allKeywords), minCount);
    tops := TopTablesOf(rows);
  }

  /** Keyword counts add up to the number of keyword entries; the table
      keeps a keyword exactly when it is mentioned at least `minCount`
      times, once, with its number of mentions. */
  lemma KeywordTableCounts(posts: seq<Record>, minCount: int)
    ensures Total(TallyOf(AllKeywords(posts))) == |AllKeywords(posts)|
    ensures forall i :: 0 <= i < |KeywordTable(posts, minCount)| ==>
      KeywordTable(posts, minCount)[i].1 == Occ(AllKeywords(posts), KeywordTable(posts, minCount)[i].0) >= minCount
    ensures forall k :: k in AllKeywords(posts) && Occ(AllKeywords(posts), k) >= minCount ==>
      (k, Occ(AllKeywords(posts), k)) in KeywordTable(posts, minCount)
    ensures Distinct(Labels(KeywordTable(posts, minCount)))
  {
    var items := AllKeywords(posts);
    TotalOfTally(items);
    FilteredTableCounts(items, minCount, KeywordTable(posts, minCount));
  }

  /** The ranked table of a counted sequence, filtered at `min`, holds
      exactly the elements occurring at least `min` times, each once and
      with its number of occurrences. */
  lemma FilteredTableCounts(items: seq<string>, min: int, rows: seq<(string, nat)>)
    requires rows == AtLeast(Table(TallyOf(items)), min)
    ensures forall i :: 0 <= i < |rows| ==> rows[i].1 == Occ(items, rows[i].0) >= min
    ensures forall k :: k in items && Occ(items, k) >= min ==> (k, Occ(items, k)) in rows
    ensures Distinct(Labels(rows))
  {
    RankedTableRows(items);
    var table := Table(TallyOf(items));
    FilteredRowCounts(items, table, min, rows);
    FilteredCovers(items, table, min, rows);
    assert Labels(table) == Ranked(TallyOf(items));
    AtLeastDistinct(table, min);
  }

  lemma FilteredRowCounts(items: seq<string>, table: seq<(string, nat)>, min: int, rows: seq<(string, nat)>)
    requires table == Table(TallyOf(items)) && rows == AtLeast(table, min)
    requires forall i :: 0 <= i < |Ranked(TallyOf(items))| ==>
      table[i] == (Ranked(TallyOf(items))[i], Occ(items, Ranked(TallyOf(items))[i]))
    ensures forall i :: 0 <= i < |rows| ==> rows[i].1 == Occ(items, rows[i].0) >= min
  {
    forall i | 0 <= i < |rows| ensures rows[i].1 == Occ(items, rows[i].0)
    {
      var j :| 0 <= j < |table| && table[j] == rows[i];
    }
  }

  lemma FilteredCovers(items: seq<string>, table: seq<(string, nat)>, min: int, rows: seq<(string, nat)>)
    requires table == Table(TallyOf(items)) && rows == AtLeast(table, min)
    requires forall k :: k in Ranked(TallyOf(items)) <==> k in items
    requires forall i :: 0 <= i < |Ranked(TallyOf(items))| ==>
      table[i] == (Ranked(TallyOf(items))[i], Occ(items, Ranked(TallyOf(items))[i]))
    ensures forall k :: k in items && Occ(items, k) >= min ==> (k, Occ(items, k)) in rows
  {
    forall k | k in items && Occ(items, k) >= min ensures (k, Occ(items, k)) in rows
    {
      var i :| 0 <= i < |Ranked(TallyOf(items))| && Ranked(TallyOf(items))[i] == k;
      assert table[i] == (k, Occ(items, k));
    }
  }

  /** `AtLeast` keeps the order of the table it filters. */
  lemma {:induction false} AtLeastKeepsOrder(rows: seq<(string, nat)>, min: int)
    requires forall i, j :: 0 <= i < j < |rows| ==> rows[i].1 >= rows[j].1
    ensures forall i, j :: 0 <= i < j < |AtLeast(rows, min)| ==> AtLeast(rows, min)[i].1 >= AtLeast(rows, min)[j].1
  {
    if rows != [] {
      var prefix := rows[..|rows| - 1];
      AtLeastKeepsOrder(prefix, min);
      var r := AtLeast(rows, min);
      var r' := AtLeast(prefix, min);
      forall i, j | 0 <= i < j < |r| ensures r[i].1 >= r[j].1 {
        if j == |r'| {
          assert r[i] == r'[i] && r[i] in prefix;
        } else {
          assert r[i] == r'[i] && r[j] == r'[j];
        }
      }
    }
  }

  /** Filtering a table whose labels are distinct keeps them distinct. */
  lemma {:induction false} AtLeastDistinct(rows: seq<(string, nat)>, min: int)
    requires Distinct(Labels(rows))
    ensures Distinct(Labels(AtLeast(rows, min)))
  {
    if rows != [] {
      var prefix := rows[..|rows| - 1];
      var last := rows[|rows| - 1];
      assert Labels(prefix) == Labels(rows)[..|rows| - 1];
      AtLeastDistinct(prefix, min);
      var kept := AtLeast(prefix, min);
      if last.1 >= min {
        var r := kept + [last];
        forall i, j | 0 <= i < j < |r| ensures r[i].0 != r[j].0 {
          assert r[i] == kept[i] && r[i] in prefix;
          var m :| 0 <= m < |prefix| && prefix[m] == r[i];
          if j == |kept| {
            assert Labels(rows)[m] == r[i].0 && Labels(rows)[|rows| - 1] == last.0;
          } else {
            assert r[j] == kept[j];
            assert Labels(kept)[i] == r[i].0 && Labels(kept)[j] == r[j].0;
          }
        }
      }
    }
  }

  /** Appending a key adds it to the keys of its count. */
  lemma WithCountSnoc(t: Tally, s: seq<string>, k: string, c: nat)
    ensures WithCount(t, s + [k], c) == WithCount(t, s, c) + (if Count(t, k) == c then [k] else [])
  {
    assert (s + [k])[..|s|] == s;
  }

  /** Filtering the rows of `keys` at `min` keeps, for each count that
      reaches `min`, all keys of that count in their order in `keys`, and
      drops every key of a smaller count. */
  lemma {:induction false} AtLeastWithCount(t: Tally, keys: seq<string>, min: int, c: nat)
    ensures WithCount(t, Labels(AtLeast(Rows(t, keys), min)), c) == if c >= min then WithCount(t, keys, c) else []
  {
    if keys != [] {
      var n := |keys| - 1;
      var k := keys[n];
      AtLeastWithCount(t, keys[..n], min, c);
      AtLeastStep(t, keys, n, min);
      var kept := AtLeast(Rows(t, keys[..n]), min);
      var added := if Count(t, k) >= min then [(k, Count(t, k))] else [];
      LabelsAppend(kept, added);
      assert Labels(added) == if Count(t, k) >= min then [k] else [];
      FilterCountStep(t, Labels(kept), keys[..n], k, min, c);
      PrefixWhole(keys);
      PrefixStep(keys[..n], keys, n, k);
    }
  }

  lemma LabelsAppend(a: seq<(string, nat)>, b: seq<(string, nat)>)
    ensures Labels(a + b) == Labels(a) + Labels(b)
  {
  }

  /** The step of `AtLeastWithCount`: the key `k` joins the labels when its
      count reaches `min`. */
  lemma FilterCountStep(t: Tally, labels: seq<string>, prev: seq<string>, k: string, min: int, c: nat)
    requires WithCount(t, labels, c) == if c >= min then WithCount(t, prev, c) else []
    ensures WithCount(t, labels + (if Count(t, k) >= min then [k] else []), c) ==
      if c >= min then WithCount(t, prev + [k], c) else []
  {
    WithCountSnoc(t, prev, k, c);
    if Count(t, k) >= min {
      WithCountSnoc(t, labels, k, c);
    } else {
      assert labels + [] == labels;
    }
  }

  /** Filtering a ranked table at `min` leaves it count-descending; for
      each count that reaches `min` it keeps the keys of that count in the
      counter's order, and it drops the keys of smaller counts. */
  lemma FilteredRanking(t: Tally, min: int)
    ensures var rows := AtLeast(Table(t), min);
      forall i, j :: 0 <= i < j < |rows| ==> rows[i].1 >= rows[j].1
    ensures forall c: nat :: WithCount(t, Labels(AtLeast(Table(t), min)), c) == if c >= min then WithCount(t, t.keys, c) else []
  {
    RankKeysSpec(t, t.keys);
    var table := Table(t);
    assert forall i, j :: 0 <= i < j < |table| ==> table[i].1 >= table[j].1 by {
      forall i, j | 0 <= i < j < |table| ensures table[i].1 >= table[j].1 {
        assert table[i].1 == Count(t, Ranked(t)[i]) && table[j].1 == Count(t, Ranked(t)[j]);
      }
    }
    AtLeastKeepsOrder(table, min);
    forall c: nat ensures WithCount(t, Labels(AtLeast(table, min)), c) == if c >= min then WithCount(t, t.keys, c) else [] {
      AtLeastWithCount(t, Ranked(t), min, c);
    }
  }

  /** Keyword rows are in non-increasing count order, and keywords with
      equal counts appear in the order they are first mentioned. */
  lemma KeywordTableOrder(posts: seq<Record>, minCount: int)
    ensures forall i, j :: 0 <= i < j < |KeywordTable(posts, minCount)| ==>
      KeywordTable(posts, minCount)[i].1 >= KeywordTable(posts, minCount)[j].1
    ensures var t := TallyOf(AllKeywords(posts));
      forall c: nat :: WithCount(t, Labels(KeywordTable(posts, minCount)), c) ==
        if c >= minCount then WithCount(t, t.keys, c) else []
    ensures FirstSeenOrder(TallyOf(AllKeywords(posts)).keys, AllKeywords(posts))
  {
    var items := AllKeywords(posts);
    var t := TallyOf(items);
    FilteredRanking(t, minCount);
    TallyOrder(items);
    assert KeywordTable(posts, minCount) == AtLeast(Table(t), minCount);
  }

  /** A top-N table exists exactly when the full table has at least N rows,
      and it is the table's first N rows. */
  lemma {:induction false} TopTablesSpec(rows: seq<(string, nat)>, sizes: seq<nat>)
    ensures forall e :: e in TopTables(rows, sizes) <==> e.0 in sizes && |rows| >= e.0 && e.1 == rows[..e.0]
  {
    if sizes != [] {
      var prefix := sizes[..|sizes| - 1];
      TopTablesSpec(rows, prefix);
      assert sizes == prefix + [sizes[|sizes| - 1]];
    }
  }

  // ---------------------------------------------------------------------
  // Authors.

  /** The author table: every author with at least `minPosts` posts,
      count-descending. */
  function AuthorTable(posts: seq<Record>, minPosts: int): seq<(string, nat)>
  {
    AtLeast(Table(TallyOf(Authors(posts, UnknownAuthor))), minPosts)
  }

  method CountAuthors(posts: seq<Record>) returns (authors: Tally)
    ensures authors == TallyOf(Authors(posts, UnknownAuthor))
  {
    authors := Empty;
    for i := 0 to |posts|
      invariant authors == TallyOf(Authors(posts[..i], UnknownAuthor))
    {
      assert posts[..i + 1][..i] == posts[..i];
      var author := AuthorOf(posts[i], UnknownAuthor);
      TallyOfSnoc(Authors(posts[..i], UnknownAuthor), author);
      authors := Add(authors, author, 1);
    }
    assert posts[..|posts|] == posts;
  }

  method AuthorStatistics(posts: seq<Record>, minPosts: int) returns (rows: seq<(string, nat)>)
    ensures rows == AuthorTable(posts, minPosts)
  {
    var authors := CountAuthors(posts);
    rows := RankedRowsAtLeast(authors, minPosts);
  }

  /** A missing author counts as `'未知用户'`; author counts add up to the
      number of posts, and the table keeps only authors with at least
      `minPosts` posts, each with their number of posts. */
  lemma AuthorTableCounts(posts: seq<Record>, minPosts: int)
    ensures Total(TallyOf(Authors(posts, UnknownAuthor))) == |posts|
    ensures forall i :: 0 <= i < |AuthorTable(posts, minPosts)| ==>
      AuthorTable(posts, minPosts)[i].1 == Occ(Authors(posts, UnknownAuthor), AuthorTable(posts, minPosts)[i].0) >= minPosts
    ensures forall a :: a in Authors(posts, UnknownAuthor) && Occ(Authors(posts, UnknownAuthor), a) >= minPosts ==>
      (a, Occ(Authors(posts, UnknownAuthor), a)) in AuthorTable(posts, minPosts)
    ensures Distinct(Labels(AuthorTable(posts, minPosts)))
    ensures forall i :: 0 <= i < |posts| && posts[i].author.None? ==> Authors(posts, UnknownAuthor)[i] == UnknownAuthor
  {
    var items := Authors(posts, UnknownAuthor);
    TotalOfTally(items);
    FilteredTableCounts(items, minPosts, AuthorTable(posts, minPosts));
  }

  /** Author rows are in non-increasing count order, and authors with equal
      counts appear in the order of their first post. */
  lemma AuthorTableOrder(posts: seq<Record>, minPosts: int)
    ensures forall i, j :: 0 <= i < j < |AuthorTable(posts, minPosts)| ==>
      AuthorTable(posts, minPosts)[i].1 >= AuthorTable(posts, minPosts)[j].1
    ensures var t := TallyOf(Authors(posts, UnknownAuthor));
      forall c: nat :: WithCount(t, Labels(AuthorTable(posts, minPosts)), c) ==
        if c >= minPosts then WithCount(t, t.keys, c) else []
    ensures FirstSeenOrder(TallyOf(Authors(posts, UnknownAuthor)).keys, Authors(posts, UnknownAuthor))
  {
    var items := Authors(posts, UnknownAuthor);
    var t := TallyOf(items);
    FilteredRanking(t, minPosts);
    TallyOrder(items);
    assert AuthorTable(posts, minPosts) == AtLeast(Table(t), minPosts);
  }

  // ---------------------------------------------------------------------
  // Confidence distribution.

  /** The ranges of the distribution table: lower bound, upper bound, label. */
  const Ranges: seq<(real, real, string)> :=
    [(0.9, 1.0, "高置信度 (0.9-1.0)"), (0.7, 0.9, "中高置信度 (0.7-0.9)"), (0.5, 0.7, "中等置信度 (0.5-0.7)"),
     (0.3, 0.5, "中低置信度 (0.3-0.5)"), (0.0, 0.3, "低置信度 (0.0-0.3)")]

  /** A confidence lies in a range when it is at least the lower bound and
      below the upper one; the range starting at 0.9 has no upper bound. */
  predicate InRange(c: real, lo: real, hi: real)
  {
    if lo == 0.9 then c >= lo else lo <= c < hi
  }

  /** The number of posts whose confidence lies in the range from `lo` to `hi`. */
  function CountInRange(posts: seq<Record>, lo: real, hi: real): (n: nat)
    ensures n <= |posts|
  {
    if posts == [] then 0
    else CountInRange(posts[..|posts| - 1], lo, hi) + (if InRange(posts[|posts| - 1].confidence, lo, hi) then 1 else 0)
  }

  method ConfidenceDistribution(posts: seq<Record>) returns (rows: seq<(string, nat)>)
    ensures |rows| == |Ranges|
    ensures forall b :: 0 <= b < |Ranges| ==> rows[b] == (Ranges[b].2, CountInRange(posts, Ranges[b].0, Ranges[b].1))
  {
    rows := [];
    for b := 0 to |Ranges|
      invariant |rows| == b
      invariant forall k :: 0 <= k < b ==> rows[k] == (Ranges[k].2, CountInRange(posts, Ranges[k].0, Ranges[k].1))
    {
      var (lo, hi, name) := Ranges[b];
      rows := rows + [(name, CountInRange(posts, lo, hi))];
    }
  }

  /** A confidence lies in exactly one range when it is at least 0, and in
      none when it is negative. */
  lemma RangesPartition(c: real)
    ensures c < 0.0 ==> forall b :: 0 <= b < |Ranges| ==> !InRange(c, Ranges[b].0, Ranges[b].1)
    ensures c >= 0.0 ==> exists b :: 0 <= b < |Ranges| && InRange(c, Ranges[b].0, Ranges[b].1)
    ensures forall a, b :: 0 <= a < b < |Ranges| ==>
      !(InRange(c, Ranges[a].0, Ranges[a].1) && InRange(c, Ranges[b].0, Ranges[b].1))
  {
    if c >= 0.0 {
      var b := if c >= 0.9 then 0 else if c >= 0.7 then 1 else if c >= 0.5 then 2 else if c >= 0.3 then 3 else 4;
      assert InRange(c, Ranges[b].0, Ranges[b].1);
    }
  }

  /** The number of posts whose confidence is at least 0. */
  function NonNegative(posts: seq<Record>): nat
  {
    if posts == [] then 0
    else NonNegative(posts[..|posts| - 1]) + (if posts[|posts| - 1].confidence >= 0.0 then 1 else 0)
  }

  /** The range counts add up to the number of posts with a non-negative
      confidence: the whole table when no confidence is negative. */
  lemma {:induction false} DistributionTotal(posts: seq<Record>)
    ensures CountInRange(posts, 0.9, 1.0) + CountInRange(posts, 0.7, 0.9) + CountInRange(posts, 0.5, 0.7) +
      CountInRange(posts, 0.3, 0.5) + CountInRange(posts, 0.0, 0.3) == NonNegative(posts)
  {
    if posts != [] {
      DistributionTotal(posts[..|posts| - 1]);
    }
  }

  // ---------------------------------------------------------------------
  // The category-by-keyword matrix.

  /** The per-category keyword counters, with the categories in the order
      they were first met. */
  datatype Grouped = Grouped(order: seq<string>, byCategory: map<string, Tally>)

  /** Add one post's keywords to the counter of its first category, creating
      that counter when the category is new. */
  function GroupPost(g: Grouped, p: Record): Grouped
  {
    var c := FirstCategory(p);
    var start := if c in g.byCategory then g.byCategory[c] else Empty;
    Grouped(if c in g.byCategory then g.order else g.order + [c],
            g.byCategory[c := AddAll(start, p.keywords)])
  }

  function GroupAll(posts: seq<Record>): Grouped
  {
    if posts == [] then Grouped([], map[]) else GroupPost(GroupAll(posts[..|posts| - 1]), posts[|posts| - 1])
  }

  /** The overall keyword counter: the category counters merged in order. */
  function MergeAll(byCategory: map<string, Tally>, order: seq<string>): Tally
  {
    if order == [] then Empty
    else
      var c := order[|order| - 1];
      Merge(MergeAll(byCategory, order[..|order| - 1]), if c in byCategory then byCategory[c] else Empty)
  }

  /** One matrix row: the category's count of each column keyword, 0 when absent. */
  function MatrixRow(t: Tally, columns: seq<string>): (r: seq<nat>)
    ensures |r| == |columns|
    ensures forall j :: 0 <= j < |columns| ==> r[j] == Count(t, columns[j])
  {
    seq(|columns|, j requires 0 <= j < |columns| => Count(t, columns[j]))
  }

  /** `for keyword in keywords: counter[keyword] += 1`. */
  method AddKeywords(counter: Tally, keywords: seq<string>) returns (r: Tally)
    ensures r == AddAll(counter, keywords)
  {
    r := counter;
    for j := 0 to |keywords|
      invariant r == AddAll(counter, keywords[..j])
    {
      assert keywords[..j + 1][..j] == keywords[..j];
      r := Add(r, keywords[j], 1);
    }
    assert keywords[..|keywords|] == keywords;
  }

  method GroupByCategory(posts: seq<Record>) returns (order: seq<string>, byCategory: map<string, Tally>)
    ensures Grouped(order, byCategory) == GroupAll(posts)
  {
    order := [];
    byCategory := map[];
    for i := 0 to |posts|
      invariant Grouped(order, byCategory) == GroupAll(posts[..i])
    {
      assert posts[..i + 1][..i] == posts[..i];
      var c := FirstCategory(posts[i]);
      if c !in byCategory {
        byCategory := byCategory[c := Empty];
        order := order + [c];
      }
      var counter := AddKeywords(byCategory[c], posts[i].keywords);
      byCategory := byCategory[c := counter];
    }
    assert posts[..|posts|] == posts;
  }

  method MergeInOrder(byCategory: map<string, Tally>, order: seq<string>) returns (all: Tally)
    ensures all == MergeAll(byCategory, order)
  {
    all := Empty;
    for j := 0 to |order|
      invariant all == MergeAll(byCategory, order[..j])
    {
      assert order[..j + 1][..j] == order[..j];
      var counter := if order[j] in byCategory then byCategory[order[j]] else Empty;
      all := Merge(all, counter);
    }
    assert order[..|order|] == order;
  }

  method RowOf(counter: Tally, columns: seq<string>) returns (row: seq<nat>)
    ensures row == MatrixRow(counter, columns)
  {
    row := [];
    for j := 0 to |columns|
      invariant |row| == j
      invariant forall k :: 0 <= k < j ==> row[k] == Count(counter, columns[k])
    {
      row := row + [Count(counter, columns[j])];
    }
  }

  method CategoryKeywordMatrix(posts: seq<Record>, topKeywords: int)
    returns (categories: seq<string>, columns: seq<string>, matrix: seq<seq<nat>>)
    ensures categories == GroupAll(posts).order
    ensures columns == TopKeys(MergeAll(GroupAll(posts).byCategory, categories), topKeywords)
    ensures |matrix| == |categories|
    ensures forall i :: 0 <= i < |categories| ==>
      categories[i] in GroupAll(posts).byCategory &&
      matrix[i] == MatrixRow(GroupAll(posts).byCategory[categories[i]], columns)
  {
    var byCategory;
    categories, byCategory := GroupByCategory(posts);
    GroupedCovers(posts);
    var all := MergeInOrder(byCategory, categories);
    columns := TopKeys(all, topKeywords);
    matrix := MatrixRows(byCategory, categories, columns);
  }

  /** The loop over the categories: one row per category, in order. */
  method MatrixRows(byCategory: map<string, Tally>, categories: seq<string>, columns: seq<string>)
    returns (matrix: seq<seq<nat>>)
    requires forall c :: c in categories ==> c in byCategory
    ensures |matrix| == |categories|
    ensures forall i :: 0 <= i < |categories| ==> matrix[i] == MatrixRow(byCategory[categories[i]], columns)
  {
    matrix := [];
    for i := 0 to |categories|
      invariant |matrix| == i
      invariant forall k :: 0 <= k < i ==> matrix[k] == MatrixRow(byCategory[categories[k]], columns)
    {
      var row := RowOf(byCategory[categories[i]], columns);
      matrix := matrix + [row];
    }
  }

  /** Every category in the order has a counter, every counter's category is
      in the order once, and every counter is well-formed. */
  lemma {:induction false} GroupedCovers(posts: seq<Record>)
    ensures forall c :: c in GroupAll(posts).order <==> c in GroupAll(posts).byCategory
    ensures Distinct(GroupAll(posts).order)
    ensures forall c :: c in GroupAll(posts).byCategory ==> Valid(GroupAll(posts).byCategory[c])
  {
    if posts != [] {
      GroupedCovers(posts[..|posts| - 1]);
      var g := GroupAll(posts[..|posts| - 1]);
      var p := posts[|posts| - 1];
      var c := FirstCategory(p);
      var start := if c in g.byCategory then g.byCategory[c] else Empty;
      AddAllValid(start, p.keywords);
    }
  }

  /** The keywords of the posts whose first category is `c`, in order. */
  function KeywordsUnder(posts: seq<Record>, c: string): seq<string>
  {
    if posts == [] then []
    else
      KeywordsUnder(posts[..|posts| - 1], c) +
        (if FirstCategory(posts[|posts| - 1]) == c then posts[|posts| - 1].keywords else [])
  }

  /** A matrix cell counts the keyword's mentions among the posts filed
      under the row's category. */
  lemma {:induction false} MatrixCell(posts: seq<Record>, c: string, k: string)
    ensures c in GroupAll(posts).byCategory ==> Count(GroupAll(posts).byCategory[c], k) == Occ(KeywordsUnder(posts, c), k)
    ensures c !in GroupAll(posts).byCategory ==> Occ(KeywordsUnder(posts, c), k) == 0
  {
    if posts != [] {
      var prefix := posts[..|posts| - 1];
      var p := posts[|posts| - 1];
      MatrixCell(prefix, c, k);
      var g := GroupAll(prefix);
      OccConcat(KeywordsUnder(prefix, c), if FirstCategory(p) == c then p.keywords else [], k);
      if FirstCategory(p) == c {
        var start := if c in g.byCategory then g.byCategory[c] else Empty;
        AddAllCount(start, p.keywords);
      } else {
        assert Occ([], k) == 0;
      }
    }
  }

  /** The column of keyword `k`: each category's count of it. */
  function Column(byCategory: map<string, Tally>, k: string): map<string, nat>
  {
    map c | c in byCategory :: Count(byCategory[c], k)
  }

  /** Summed down a column, the cells give the keyword's number of mentions
      over all posts. */
  lemma {:induction false} ColumnTotal(posts: seq<Record>, k: string)
    ensures SumOver(GroupAll(posts).order, Column(GroupAll(posts).byCategory, k)) == Occ(AllKeywords(posts), k)
  {
    if posts != [] {
      var prefix := posts[..|posts| - 1];
      var p := posts[|posts| - 1];
      ColumnTotal(prefix, k);
      GroupedCovers(prefix);
      ColumnStep(GroupAll(prefix), p, k);
      OccConcat(AllKeywords(prefix), p.keywords, k);
    }
  }

  /** Filing one more post adds its mentions of `k` to the column sum. */
  lemma ColumnStep(g: Grouped, p: Record, k: string)
    requires forall c :: c in g.order <==> c in g.byCategory
    requires Distinct(g.order)
    ensures var g' := GroupPost(g, p);
      SumOver(g'.order, Column(g'.byCategory, k)) == SumOver(g.order, Column(g.byCategory, k)) + Occ(p.keywords, k)
  {
    var g' := GroupPost(g, p);
    var c := FirstCategory(p);
    var start := if c in g.byCategory then g.byCategory[c] else Empty;
    AddAllCount(start, p.keywords);
    var m := Column(g.byCategory, k);
    var m' := Column(g'.byCategory, k);
    SumOverUpdate(g.order, m, m', c);
    if c !in g.byCategory {
      assert g'.order == g.order + [c];
      assert g'.order[..|g'.order| - 1] == g.order;
      SumOverUpdate(g.order, m', m', c);
    }
  }

  /** The overall counter the columns are chosen from gives each keyword the
      sum of its column. */
  lemma {:induction false} MergeAllCount(byCategory: map<string, Tally>, order: seq<string>, k: string)
    requires forall c :: c in byCategory ==> Valid(byCategory[c])
    ensures Count(MergeAll(byCategory, order), k) == SumOver(order, Column(byCategory, k))
  {
    if order != [] {
      var c := order[|order| - 1];
      MergeAllCount(byCategory, order[..|order| - 1], k);
      MergeCount(MergeAll(byCategory, order[..|order| - 1]), if c in byCategory then byCategory[c] else Empty);
    }
  }

  /** Each column sums to the keyword's overall count. */
  lemma ColumnsSumToOverall(posts: seq<Record>, k: string)
    ensures var g := GroupAll(posts);
      SumOver(g.order, Column(g.byCategory, k)) == Count(MergeAll(g.byCategory, g.order), k) ==
        Occ(AllKeywords(posts), k)
  {
    GroupedCovers(posts);
    ColumnTotal(posts, k);
    MergeAllCount(GroupAll(posts).byCategory, GroupAll(posts).order, k);
  }
}
