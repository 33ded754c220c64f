/**
  The summary statistics over classified posts (`generate_statistics` in
  nga_classifier.py): per-category, per-keyword and per-author counters
  filled in one pass, the most common entry of each, and the share of
  posts classified with confidence above one half.
 */
module Statistics {
  import opened Common
  import opened Tallies

  /** The fields of a classified post that the statistics read: the author
      (absent when the post has no `author` key), and the classification's
      category list, keyword list and confidence. */
  datatype Record = Record(author: Option<string>, categories: seq<string>, keywords: seq<string>,
                           confidence: real)

  /** The author key used when a post has none. */
  const MissingAuthor: string := "未知"

  /** The confidence a post must exceed to count as classified. */
  const ConfidentAbove: real := 0.5

  datatype Summary = Summary(mostCommonCategory: Option<(string, nat)>,
                             mostCommonKeyword: Option<(string, nat)>,
                             mostActiveAuthor: Option<(string, nat)>,
                             confidentPosts: nat,
                             classificationRate: real)

  datatype Stats = Stats(totalPosts: nat, categories: Tally, keywords: Tally, authors: Tally,
                         summary: Summary)

  /** Every category entry of every post, in order. */
  function AllCategories(posts: seq<Record>): seq<string>
  {
    if posts == [] then [] else AllCategories(posts[..|posts| - 1]) + posts[|posts| - 1].categories
  }

  /** Every keyword entry of every post, in order. */
  function AllKeywords(posts: seq<Record>): seq<string>
  {
    if posts == [] then [] else AllKeywords(posts[..|posts| - 1]) + posts[|posts| - 1].keywords
  }

  function AuthorOf(p: Record, default: string): string
  {
    match p.author
    case Some(a) => a
    case None => default
  }

  /** The author of every post, `default` standing in for a missing one. */
  function Authors(posts: seq<Record>, default: string): (r: seq<string>)
    ensures |r| == |posts|
    ensures forall i :: 0 <= i < |posts| ==> r[i] == AuthorOf(posts[i], default)
  {
    if posts == [] then [] else Authors(posts[..|posts| - 1], default) + [AuthorOf(posts[|posts| - 1], default)]
  }

  /** The number of posts whose confidence exceeds one half: all of them
      exactly when every post does, none exactly when no post does. */
  function Confident(posts: seq<Record>): (n: nat)
    ensures n <= |posts|
    ensures n == |posts| <==> forall i :: 0 <= i < |posts| ==> posts[i].confidence > ConfidentAbove
    ensures n == 0 <==> forall i :: 0 <= i < |posts| ==> posts[i].confidence <= ConfidentAbove
  {
    if posts == [] then 0
    else
      var prefix := posts[..|posts| - 1];
      assert forall i :: 0 <= i < |prefix| ==> prefix[i] == posts[i];
      Confident(prefix) + (if posts[|posts| - 1].confidence > ConfidentAbove then 1 else 0)
  }

  /** Counting is additive: the confident posts of `a + b` are those of
      `a` and those of `b`. */
  lemma {:induction false} ConfidentAppend(a: seq<Record>, b: seq<Record>)
    ensures Confident(a + b) == Confident(a) + Confident(b)
    decreases |b|
  {
    if b == [] {
      assert a + b == a;
    } else {
      ConfidentAppend(a, b[..|b| - 1]);
      InitOfAppend(a, b);
    }
  }

  /** The total number of category entries over all posts. */
  function CategoryEntries(posts: seq<Record>): nat
  {
    if posts == [] then 0 else CategoryEntries(posts[..|posts| - 1]) + |posts[|posts| - 1].categories|
  }

  lemma {:induction false} AllCategoriesLength(posts: seq<Record>)
    ensures |AllCategories(posts)| == CategoryEntries(posts)
  {
    if posts != [] {
      AllCategoriesLength(posts[..|posts| - 1]);
    }
  }

  /** Adding the entries of `items` one by one to the counter of `prefix`
      gives the counter of `prefix + items`. */
  lemma CountOnward(prefix: seq<string>, items: seq<string>, j: nat)
    requires j < |items|
    ensures TallyOf(prefix + items[..j + 1]) == Add(TallyOf(prefix + items[..j]), items[j], 1)
  {
    assert prefix + items[..j + 1] == (prefix + items[..j]) + [items[j]];
    TallyOfSnoc(prefix + items[..j], items[j]);
  }

  lemma PostsSnoc(posts: seq<Record>, i: nat)
    requires i < |posts|
    ensures AllCategories(posts[..i + 1]) == AllCategories(posts[..i]) + posts[i].categories
    ensures AllKeywords(posts[..i + 1]) == AllKeywords(posts[..i]) + posts[i].keywords
    ensures Authors(posts[..i + 1], MissingAuthor) == Authors(posts[..i], MissingAuthor) + [AuthorOf(posts[i], MissingAuthor)]
  {
    assert posts[..i + 1][..i] == posts[..i];
  }

  /** `len(confident) / len(posts) if posts else 0`, over the reals. */
  function Rate(confident: nat, n: nat): (r: real)
    requires confident <= n
    ensures 0.0 <= r <= 1.0
    ensures n == 0 ==> r == 0.0
    ensures r == 1.0 <==> 0 < n == confident
  {
    if n == 0 then 0.0 else (confident as real) / (n as real)
  }

  method GenerateStatistics(posts: seq<Record>) returns (stats: Stats)
    ensures stats.totalPosts == |posts|
    ensures stats.categories == TallyOf(AllCategories(posts))
    ensures stats.keywords == TallyOf(AllKeywords(posts))
    ensures stats.authors == TallyOf(Authors(posts, MissingAuthor))
    ensures stats.summary.mostCommonCategory == FirstMax(stats.categories)
    ensures stats.summary.mostCommonKeyword == FirstMax(stats.keywords)
    ensures stats.summary.mostActiveAuthor == FirstMax(stats.authors)
    ensures stats.summary.confidentPosts == Confident(posts) <= |posts|
    ensures stats.summary.classificationRate == Rate(Confident(posts), |posts|)
    ensures Total(stats.authors) == |posts|
    ensures Total(stats.categories) == CategoryEntries(posts)
  {
    var categories := Empty;
    var keywords := Empty;
    var authors := Empty;
    for i := 0 to |posts|
      invariant categories == TallyOf(AllCategories(posts[..i]))
      invariant keywords == TallyOf(AllKeywords(posts[..i]))
      invariant authors == TallyOf(Authors(posts[..i], MissingAuthor))
    {
      var post := posts[i];
      PostsSnoc(posts, i);
      ghost var done := AllCategories(posts[..i]);
      assert done + post.categories[..0] == done;
      for j := 0 to |post.categories|
        invariant categories == TallyOf(done + post.categories[..j])
      {
        CountOnward(done, post.categories, j);
        categories := Add(categories, post.categories[j], 1);
      }
      assert post.categories[..|post.categories|] == post.categories;
      ghost var doneKeywords := AllKeywords(posts[..i]);
      assert doneKeywords + post.keywords[..0] == doneKeywords;
      for j := 0 to |post.keywords|
        invariant keywords == TallyOf(doneKeywords + post.keywords[..j])
      {
        CountOnward(doneKeywords, post.keywords, j);
        keywords := Add(keywords, post.keywords[j], 1);
      }
      assert post.keywords[..|post.keywords|] == post.keywords;
      var author := AuthorOf(post, MissingAuthor);
      TallyOfSnoc(Authors(posts[..i], MissingAuthor), author);
      authors := Add(authors, author, 1);
    }
    assert posts[..|posts|] == posts;
    var confident := Confident(posts);
    var rate := Rate(confident, |posts|);
    stats := Stats(|posts|, categories, keywords, authors,
                   Summary(FirstMax(categories), FirstMax(keywords), FirstMax(authors), confident, rate));
    StatisticsTotals(posts);
  }

  /** Author counts add up to the number of posts; category counts add up
      to the number of category entries (which need not be the number of
      posts, since a post may carry no category or several). */
  lemma StatisticsTotals(posts: seq<Record>)
    ensures Total(TallyOf(Authors(posts, MissingAuthor))) == |posts|
    ensures Total(TallyOf(AllCategories(posts))) == CategoryEntries(posts)
  {
    TotalOfTally(Authors(posts, MissingAuthor));
    TotalOfTally(AllCategories(posts));
    AllCategoriesLength(posts);
  }
}
