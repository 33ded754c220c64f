/**
  The two driving loops of nga_classifier.py: `fetch_forum_posts`, which
  walks the listing pages of the forum, and `classify_posts`, which fetches
  each post's content and hands the batch to the classifier.

  The network is a parameter: `fetch(p)` is what requesting listing page
  `p` gives, an error or the page text together with the stubs the listing
  parser (`Listing.ParseForumPage`) reads from it; a post's page arrives
  as an `Option<PostPage>`.
 */
module Orchestrator {
  import opened Common
  import opened Listing
  import opened Content
  import opened Classifier

  /** `NGA_BASE_URL`, the prefix of site-relative links. */
  const BaseUrl: string := "https://ngabbs.com"

  /** `MAX_PAGES_LIMIT`: no walk goes past this page. */
  const MaxPagesLimit: int := 100

  /** Text of the page the forum serves to visitors who are not logged in. */
  const LoginMarker: string := "你必须登录"

  /** What requesting one listing page gives: an error, or the text of the
      page and `listed`, the stubs `_parse_forum_page` finds in it. */
  datatype PageOutcome =
    | PageError
    | PageHtml(text: string, listed: seq<PostStub>)

  /** A page whose table rows are `rows`, as the listing parser reads it. */
  method ParsedPage(text: string, rows: seq<Row>) returns (outcome: PageOutcome)
    ensures outcome == PageHtml(text, Dedup(Accepted(rows, BaseUrl)))
    ensures forall i, j :: 0 <= i < j < |outcome.listed| ==> outcome.listed[i].topicId != outcome.listed[j].topicId
  {
    var listed := ParseForumPage(rows, BaseUrl);
    outcome := PageHtml(text, listed);
  }

  /** The last page requested for a `max_pages` argument. */
  function PageLimit(maxPages: int): (last: int)
    ensures last <= MaxPagesLimit
    ensures maxPages <= MaxPagesLimit ==> last == maxPages
    ensures maxPages > MaxPagesLimit ==> last == MaxPagesLimit
  {
    if maxPages > MaxPagesLimit then MaxPagesLimit else maxPages
  }

  /** The page asks for a login: the marker occurs in its text (see
      `LoginPageContains`). */
  predicate LoginPage(outcome: PageOutcome)
  {
    outcome.PageHtml? && Find(outcome.text, LoginMarker, 0).Some?
  }

  lemma LoginPageContains(outcome: PageOutcome)
    ensures LoginPage(outcome) <==> outcome.PageHtml? && Contains(outcome.text, LoginMarker)
  {
    if outcome.PageHtml? {
      FindContains(outcome.text, LoginMarker);
    }
  }

  /** The stubs a page contributes: none for a failed request or a login
      page, otherwise what the listing parser yields. */
  function PageStubs(outcome: PageOutcome): seq<PostStub>
  {
    if outcome.PageError? || LoginPage(outcome) then [] else outcome.listed
  }

  /** The walk ends at this page: it asks for a login or lists nothing. */
  predicate Stops(outcome: PageOutcome)
  {
    outcome.PageHtml? && (LoginPage(outcome) || PageStubs(outcome) == [])
  }

  /** The pages requested from page `p` up to page `last`. */
  function Requested(fetch: int -> PageOutcome, p: int, last: int): (r: seq<int>)
    ensures forall i :: 0 <= i < |r| ==> p <= r[i] <= last
    decreases last + 1 - p
  {
    if p > last then []
    else if Stops(fetch(p)) then [p]
    else [p] + Requested(fetch, p + 1, last)
  }

  /** The stubs of `pages`, page after page. */
  function Gathered(fetch: int -> PageOutcome, pages: seq<int>): seq<PostStub>
  {
    if pages == [] then []
    else Gathered(fetch, pages[..|pages| - 1]) + PageStubs(fetch(pages[|pages| - 1]))
  }

  /** `fetch_forum_posts`: the stubs of the pages requested, in page order,
      and the pages requested. */
  method FetchForumPosts(maxPages: int, fetch: int -> PageOutcome)
    returns (posts: seq<PostStub>, requested: seq<int>)
    ensures requested == Requested(fetch, 1, PageLimit(maxPages))
    ensures posts == Gathered(fetch, requested)
  {
    var last := maxPages;
    if last > MaxPagesLimit {
      last := MaxPagesLimit;
    }
    posts := [];
    requested := [];
    var page := 1;
    while page <= last
      invariant 1 <= page
      invariant requested + Requested(fetch, page, last) == Requested(fetch, 1, last)
      invariant posts == Gathered(fetch, requested)
      decreases last + 1 - page
    {
      var stop;
      stop, requested, posts := VisitPage(fetch, page, last, requested, posts);
      if stop {
        break;
      }
      page := page + 1;
    }
  }

  /** One turn of the walk: page `page` is requested and its stubs are
      appended; `stop` tells whether the walk ends there. */
  method VisitPage(fetch: int -> PageOutcome, page: int, last: int, requested: seq<int>, posts: seq<PostStub>)
    returns (stop: bool, requested': seq<int>, posts': seq<PostStub>)
    requires page <= last
    requires requested + Requested(fetch, page, last) == Requested(fetch, 1, last)
    requires posts == Gathered(fetch, requested)
    ensures stop ==> requested' == Requested(fetch, 1, last)
    ensures !stop ==> requested' + Requested(fetch, page + 1, last) == Requested(fetch, 1, last)
    ensures posts' == Gathered(fetch, requested')
  {
    RequestedStep(fetch, requested, page, last);
    requested' := requested + [page];
    assert requested'[..|requested'| - 1] == requested;
    var pagePosts;
    stop, pagePosts := ReadPage(fetch(page));
    posts' := posts + pagePosts;
  }

  /** The body of the walk for one page: a failed request contributes
      nothing and the walk goes on; a login page or a page listing nothing
      stops it. */
  method ReadPage(outcome: PageOutcome) returns (stop: bool, stubs: seq<PostStub>)
    ensures stop == Stops(outcome)
    ensures stubs == PageStubs(outcome)
  {
    if outcome.PageError? {
      return false, [];
    }
    if Find(outcome.text, LoginMarker, 0).Some? {
      return true, [];
    }
    stubs := outcome.listed;
    stop := stubs == [];
  }

  /** One step of the walk: page `page` is requested, and the walk goes on
      exactly when it does not stop. */
  lemma RequestedStep(fetch: int -> PageOutcome, requested: seq<int>, page: int, last: int)
    requires page <= last
    requires requested + Requested(fetch, page, last) == Requested(fetch, 1, last)
    ensures Stops(fetch(page)) ==> requested + [page] == Requested(fetch, 1, last)
    ensures !Stops(fetch(page)) ==> (requested + [page]) + Requested(fetch, page + 1, last) == Requested(fetch, 1, last)
  {
    if Stops(fetch(page)) {
      assert Requested(fetch, page, last) == [page];
    } else {
      var rest := Requested(fetch, page + 1, last);
      assert Requested(fetch, page, last) == [page] + rest;
      assert (requested + [page]) + rest == requested + ([page] + rest);
    }
  }

  /** The pages requested are `p`, `p + 1`, ... in order, never past `last`. */
  lemma {:induction false} RequestedPages(fetch: int -> PageOutcome, p: int, last: int)
    ensures var r := Requested(fetch, p, last);
      (p > last <==> r == []) &&
      (p <= last ==> |r| <= last + 1 - p) &&
      forall i :: 0 <= i < |r| ==> r[i] == p + i
    decreases last + 1 - p
  {
    if p <= last && !Stops(fetch(p)) {
      RequestedPages(fetch, p + 1, last);
    }
  }

  /** The walk goes on past every page but the last one requested, and it
      ends before `last` only at a page that stops it. */
  lemma {:induction false} RequestedStops(fetch: int -> PageOutcome, p: int, last: int)
    ensures var r := Requested(fetch, p, last);
      (forall i :: 0 <= i < |r| - 1 ==> !Stops(fetch(r[i]))) &&
      (p <= last && |r| < last + 1 - p ==> Stops(fetch(r[|r| - 1])))
    decreases last + 1 - p
  {
    if p <= last && !Stops(fetch(p)) {
      var rest := Requested(fetch, p + 1, last);
      RequestedStops(fetch, p + 1, last);
      RequestedPages(fetch, p + 1, last);
      var r := [p] + rest;
      forall i | 0 <= i < |r| - 1
        ensures !Stops(fetch(r[i]))
      {
        if i > 0 {
          assert r[i] == rest[i - 1];
        }
      }
    }
  }

  /** A page that fails to load is passed over: the walk requests the next
      one. */
  lemma ErrorPageSkipped(fetch: int -> PageOutcome, p: int, last: int)
    requires p < last && fetch(p).PageError?
    ensures Requested(fetch, p, last) == [p] + Requested(fetch, p + 1, last)
    ensures p + 1 in Requested(fetch, p, last)
  {
    RequestedPages(fetch, p + 1, last);
  }

  /** Stubs of the same page stay together and pages keep their order. */
  lemma {:induction false} GatheredAppend(fetch: int -> PageOutcome, a: seq<int>, b: seq<int>)
    ensures Gathered(fetch, a + b) == Gathered(fetch, a) + Gathered(fetch, b)
    decreases |b|
  {
    if b == [] {
      assert a + b == a;
    } else {
      var b', x := b[..|b| - 1], b[|b| - 1];
      assert (a + b)[..|a + b| - 1] == a + b';
      assert (a + b)[|a + b| - 1] == x;
      GatheredAppend(fetch, a, b');
      calc {
        Gathered(fetch, a + b);
        Gathered(fetch, a + b') + PageStubs(fetch(x));
        (Gathered(fetch, a) + Gathered(fetch, b')) + PageStubs(fetch(x));
        Gathered(fetch, a) + (Gathered(fetch, b') + PageStubs(fetch(x)));
        Gathered(fetch, a) + Gathered(fetch, b);
      }
    }
  }

  /** Every stub gathered was listed on a page that was requested. */
  lemma {:induction false} GatheredFrom(fetch: int -> PageOutcome, pages: seq<int>, s: PostStub)
    requires s in Gathered(fetch, pages)
    ensures exists i :: 0 <= i < |pages| && s in PageStubs(fetch(pages[i]))
    decreases |pages|
  {
    var init := pages[..|pages| - 1];
    if s in Gathered(fetch, init) {
      GatheredFrom(fetch, init, s);
      var i :| 0 <= i < |init| && s in PageStubs(fetch(init[i]));
      assert pages[i] == init[i];
    } else {
      assert s in PageStubs(fetch(pages[|pages| - 1]));
    }
  }

  /** A login page as the first page gives nothing, and so does a
      non-positive page count. */
  lemma NothingGathered(fetch: int -> PageOutcome, maxPages: int)
    requires maxPages < 1 || LoginPage(fetch(1))
    ensures Gathered(fetch, Requested(fetch, 1, PageLimit(maxPages))) == []
  {
    if maxPages >= 1 {
      var r := Requested(fetch, 1, PageLimit(maxPages));
      assert r == [1];
      assert r[..0] == Requested(fetch, 2, 1);
    }
  }

  // ---------------------------------------------------------------------
  // `classify_posts`

  /** The content a post page gives, `""` when there is none. */
  function ContentText(fetched: Option<PostPage>): string
  {
    match fetched
    case None => ""
    case Some(page) =>
      match PostContent(page)
      case None => ""
      case Some(c) => Truncate(c, MaxContentLength)
  }

  /** A stub with its content added. */
  function WithContent(stub: PostStub, content: string): (post: Post)
    ensures post.title == stub.title && post.url == stub.url && post.topicId == stub.topicId
    ensures post.author == stub.author && post.content == content
  {
    Post(stub.title, stub.url, stub.topicId, stub.author, content)
  }

  /** One stub with the content of its fetched page (`content or ""`). */
  method AddContent(stub: PostStub, page: Option<PostPage>) returns (post: Post)
    ensures post == WithContent(stub, ContentText(page))
  {
    var content := FetchPostContent(page, MaxContentLength);
    var text := if content.Some? then content.value else "";
    post := WithContent(stub, text);
  }

  /** `classify_posts`: `pages[i]` is the page fetched for `stubs[i]`,
      `replies[i]` the service's reply for it and `stamps[i]` its clock
      reading. */
  method ClassifyPosts(stubs: seq<PostStub>, pages: seq<Option<PostPage>>, replies: seq<Option<string>>,
                       decode: string -> DecodeOutcome, stamps: seq<string>)
    returns (results: seq<ClassifiedPost>)
    requires |pages| == |stubs| && |replies| == |stubs| && |stamps| == |stubs|
    ensures |results| == |stubs|
    ensures forall i :: 0 <= i < |stubs| ==>
      results[i] == Attach(WithContent(stubs[i], ContentText(pages[i])), ClassifyResult(replies[i], decode), stamps[i])
  {
    var posts := AddContents(stubs, pages);
    results := BatchClassify(posts, replies, decode, stamps);
  }

  /** Every stub with the content of its fetched page, in order. */
  method AddContents(stubs: seq<PostStub>, pages: seq<Option<PostPage>>) returns (posts: seq<Post>)
    requires |pages| == |stubs|
    ensures |posts| == |stubs|
    ensures forall i :: 0 <= i < |stubs| ==> posts[i] == WithContent(stubs[i], ContentText(pages[i]))
  {
    posts := [];
    for i := 0 to |stubs|
      invariant |posts| == i
      invariant forall k :: 0 <= k < i ==> posts[k] == WithContent(stubs[k], ContentText(pages[k]))
    {
      var post := AddContent(stubs[i], pages[i]);
      posts := posts + [post];
    }
  }

  /** The content handed to the classifier is at most `MAX_CONTENT_LENGTH`
      characters and the `...` marker; it is empty when the page failed to
      load or held no content. */
  lemma ContentTextBound(fetched: Option<PostPage>)
    ensures |ContentText(fetched)| <= MaxContentLength + 3
    ensures fetched.None? ==> ContentText(fetched) == ""
    ensures fetched.Some? && PostContent(fetched.value).None? ==> ContentText(fetched) == ""
    ensures fetched.Some? && PostContent(fetched.value).Some? && |PostContent(fetched.value).value| <= MaxContentLength
            ==> ContentText(fetched) == PostContent(fetched.value).value
  {
  }
}
