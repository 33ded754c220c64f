/**
  One listing page of the forum (`_parse_forum_page` in nga_classifier.py).
  The HTML layer is abstracted: each table row arrives as a `Row` record
  carrying what the parser reads from it. The row filter, URL prefixing, the
  author fallback chain and the per-page de-duplication by topic id are
  modelled, with the simplifications README lists (site-relative URL
  joining, ASCII digits).
 */
module Listing {
  import opened Common
  import opened Identifiers

  /** An anchor carrying an `href` attribute: the attribute and the visible text. */
  datatype Link = Link(href: string, text: string)

  /** A `tr` of the listing table as the HTML layer reports it: the number
      of `td` cells, the first `a[href]` of the second cell, the visible text
      of the first link of the third cell whose href contains `uid=`, and the
      visible text of the third cell. */
  datatype Row = Row(cellCount: nat, titleLink: Option<Link>, userLinkText: Option<string>,
                     authorCellText: string)

  /** A listing entry before its content is fetched. */
  datatype PostStub = PostStub(title: string, url: string, topicId: string, author: string)

  const UnknownUser: string := "未知用户"

  /** Longest author name taken from a cell's free text. */
  const AuthorTextLimit: nat := 20

  /** `re.sub(r'\d+', '', s)`: every digit run removed, every other
      character kept in place. */
  function RemoveDigits(s: string): (r: string)
    ensures |r| <= |s|
    ensures forall c :: c in r ==> !IsDigit(c)
    ensures (forall i :: 0 <= i < |s| ==> !IsDigit(s[i])) ==> r == s
  {
    if s == [] then []
    else if IsDigit(s[0]) then RemoveDigits(s[1..])
    else [s[0]] + RemoveDigits(s[1..])
  }

  /** A run of digits, which is what `\d+` matches, leaves nothing behind. */
  lemma {:induction false} RemoveDigitsRun(s: string)
    requires AllDigits(s)
    ensures RemoveDigits(s) == []
  {
    if s != [] {
      RemoveDigitsRun(s[1..]);
    }
  }

  /** Removing digits works piecewise: the characters of `a` that survive
      come before those of `b`, in order. */
  lemma {:induction false} RemoveDigitsAppend(a: string, b: string)
    ensures RemoveDigits(a + b) == RemoveDigits(a) + RemoveDigits(b)
  {
    if a != [] {
      RemoveDigitsAppend(a[1..], b);
      TailOfAppend(a, b);
    } else {
      assert a + b == b;
    }
  }

  /** The author read from the third cell's free text: digit runs removed,
      stripped, kept only when longer than one character, cut to 20. */
  function CellTextAuthor(cellText: string): (r: string)
    ensures r == "" || 1 < |r| <= AuthorTextLimit
    ensures forall i :: 0 <= i < |r| ==> !IsDigit(r[i])
    ensures var c := CleanCell(cellText);
      (|c| > 1 ==> r == c[..if |c| < AuthorTextLimit then |c| else AuthorTextLimit]) &&
      (|c| <= 1 ==> r == "")
  {
    NameOf(CleanCell(cellText))
  }

  /** The cell text stripped, its digit runs removed and stripped again:
      a digit-free text without whitespace at either end. */
  function CleanCell(cellText: string): (c: string)
    ensures forall i :: 0 <= i < |c| ==> !IsDigit(c[i])
    ensures c == [] || (!IsSpace(c[0]) && !IsSpace(c[|c| - 1]))
  {
    var t := RemoveDigits(Strip(cellText));
    StrippedDigitFree(t);
    Strip(t)
  }

  /** A cleaned cell text kept as a name when longer than one character,
      cut to 20. */
  function NameOf(clean: string): (r: string)
    requires forall i :: 0 <= i < |clean| ==> !IsDigit(clean[i])
    ensures r == "" || 1 < |r| <= AuthorTextLimit
    ensures forall i :: 0 <= i < |r| ==> !IsDigit(r[i])
    ensures |clean| > 1 ==> r == clean[..if |clean| < AuthorTextLimit then |clean| else AuthorTextLimit]
    ensures |clean| <= 1 ==> r == ""
  {
    if clean != "" && |clean| > 1 then
      if |clean| <= AuthorTextLimit then clean else clean[..AuthorTextLimit]
    else ""
  }

  /** Stripping a text without digits leaves none. */
  lemma StrippedDigitFree(t: string)
    requires forall c :: c in t ==> !IsDigit(c)
    ensures forall i :: 0 <= i < |Strip(t)| ==> !IsDigit(Strip(t)[i])
  {
    StripContained(t);
    ContainsChars(t, Strip(t));
  }

  /** The author found in the third cell before the `'未知用户'` default. */
  function FoundAuthor(row: Row): string
  {
    match row.userLinkText
    case Some(text) => Strip(text)
    case None => CellTextAuthor(row.authorCellText)
  }

  /** The author recorded for a row: the found author, or `'未知用户'` when
      nothing was found. */
  function RowAuthor(row: Row): (r: string)
    ensures r != ""
    ensures r == UnknownUser || r == FoundAuthor(row)
  {
    var found := FoundAuthor(row);
    if found == "" then UnknownUser else found
  }

  /** `urljoin(NGA_BASE_URL, href)` for a site-relative href; other hrefs are kept. */
  function ResolveUrl(baseUrl: string, href: string): string
  {
    if StartsWith(href, "/") then baseUrl + href else href
  }

  /** The stub a row yields, or `None` when the row is skipped. */
  function StubOf(row: Row, baseUrl: string): (r: Option<PostStub>)
    ensures r.Some? ==> row.cellCount >= 3 && row.titleLink.Some?
    ensures r.Some? ==> |r.value.title| >= 3 && r.value.author != ""
  {
    if row.cellCount < 3 then None
    else
      match row.titleLink
      case None => None
      case Some(link) =>
        if link.href == "" || !(Contains(link.href, "read.php") || Contains(link.href, "tid=")) then None
        else
          var title := Strip(link.text);
          if title == "" || |title| < 3 then None
          else Some(PostStub(title, ResolveUrl(baseUrl, link.href), ExtractTopicId(link.href), RowAuthor(row)))
  }

  /** The stubs of the accepted rows, in row order (the first loop). */
  function Accepted(rows: seq<Row>, baseUrl: string): (r: seq<PostStub>)
    ensures |r| <= |rows|
  {
    if rows == [] then []
    else
      var prefix := Accepted(rows[..|rows| - 1], baseUrl);
      match StubOf(rows[|rows| - 1], baseUrl)
      case Some(p) => prefix + [p]
      case None => prefix
  }

  function Ids(s: seq<PostStub>): set<string>
  {
    set i | 0 <= i < |s| :: s[i].topicId
  }

  /** Keep a stub when its topic id is non-empty and not seen before (the second loop). */
  function Dedup(s: seq<PostStub>): (r: seq<PostStub>)
    ensures |r| <= |s|
    ensures forall i :: 0 <= i < |r| ==> r[i].topicId != ""
  {
    if s == [] then []
    else
      var d := Dedup(s[..|s| - 1]);
      var p := s[|s| - 1];
      if p.topicId != "" && p.topicId !in Ids(d) then d + [p] else d
  }

  /** Index `k` holds the first stub carrying its (non-empty) topic id. */
  ghost predicate FirstOfId(s: seq<PostStub>, k: nat)
    requires k < |s|
  {
    s[k].topicId != "" && forall j :: 0 <= j < k ==> s[j].topicId != s[k].topicId
  }

  method ParseForumPage(rows: seq<Row>, baseUrl: string) returns (unique: seq<PostStub>)
    ensures unique == Dedup(Accepted(rows, baseUrl))
    ensures forall i :: 0 <= i < |unique| ==> unique[i].topicId != ""
    ensures forall i, j :: 0 <= i < j < |unique| ==> unique[i].topicId != unique[j].topicId
  {
    var posts := CollectStubs(rows, baseUrl);
    unique := DedupByTopic(posts);
  }

  method CollectStubs(rows: seq<Row>, baseUrl: string) returns (posts: seq<PostStub>)
    ensures posts == Accepted(rows, baseUrl)
  {
    posts := [];
    for i := 0 to |rows|
      invariant posts == Accepted(rows[..i], baseUrl)
    {
      assert rows[..i + 1][..i] == rows[..i];
      var stub := StubOf(rows[i], baseUrl);
      if stub.Some? {
        posts := posts + [stub.value];
      }
    }
    assert rows[..|rows|] == rows;
  }

  method DedupByTopic(posts: seq<PostStub>) returns (unique: seq<PostStub>)
    ensures unique == Dedup(posts)
    ensures forall i :: 0 <= i < |unique| ==> unique[i].topicId != ""
    ensures forall i, j :: 0 <= i < j < |unique| ==> unique[i].topicId != unique[j].topicId
  {
    var seen: set<string> := {};
    unique := [];
    for i := 0 to |posts|
      invariant unique == Dedup(posts[..i])
      invariant seen == Ids(unique)
    {
      assert posts[..i + 1][..i] == posts[..i];
      var post := posts[i];
      if post.topicId != "" && post.topicId !in seen {
        seen := seen + {post.topicId};
        IdsAppend(unique, post);
        unique := unique + [post];
      }
    }
    assert posts[..|posts|] == posts;
    DedupDistinct(posts);
  }

  // ---------------------------------------------------------------------
  // The row filter and the author chain.

  /** A row yields a stub exactly when it has three cells, a title link
      pointing at a thread (`read.php` or `tid=`) and a stripped title of at
      least three characters; the stub's URL prefixes site-relative hrefs
      with the base URL and keeps any other href. */
  lemma StubOfSpec(row: Row, baseUrl: string)
    ensures StubOf(row, baseUrl).Some? <==>
      row.cellCount >= 3 && row.titleLink.Some? &&
      (Contains(row.titleLink.value.href, "read.php") || Contains(row.titleLink.value.href, "tid=")) &&
      |Strip(row.titleLink.value.text)| >= 3
    ensures StubOf(row, baseUrl).Some? ==>
      var p := StubOf(row, baseUrl).value;
      var href := row.titleLink.value.href;
      p.title == Strip(row.titleLink.value.text) &&
      (StartsWith(href, "/") ==> p.url == baseUrl + href) &&
      (!StartsWith(href, "/") ==> p.url == href) &&
      p.topicId == ExtractTopicId(href) &&
      p.author == RowAuthor(row)
  {
    if row.cellCount >= 3 && row.titleLink.Some? {
      var href := row.titleLink.value.href;
      if Contains(href, "read.php") {
        var i: nat :| i <= |href| && StartsAt(href, i, "read.php");
        assert href != "";
      }
      if Contains(href, "tid=") {
        var i: nat :| i <= |href| && StartsAt(href, i, "tid=");
        assert href != "";
      }
    }
  }

  /** An author taken from the cell text holds no digit and at most 20
      characters; an author taken from a uid link is that link's stripped text. */
  lemma AuthorShape(row: Row)
    ensures row.userLinkText.Some? && Strip(row.userLinkText.value) != "" ==>
      RowAuthor(row) == Strip(row.userLinkText.value)
    ensures row.userLinkText.Some? && Strip(row.userLinkText.value) == "" ==> RowAuthor(row) == UnknownUser
    ensures row.userLinkText.None? ==>
      var a := RowAuthor(row);
      a == UnknownUser || (1 < |a| <= AuthorTextLimit && forall i :: 0 <= i < |a| ==> !IsDigit(a[i]))
    ensures row.userLinkText.None? ==>
      RowAuthor(row) == if CellTextAuthor(row.authorCellText) == "" then UnknownUser else CellTextAuthor(row.authorCellText)
  {
  }

  // ---------------------------------------------------------------------
  // De-duplication.

  lemma IdsAppend(s: seq<PostStub>, p: PostStub)
    ensures Ids(s + [p]) == Ids(s) + {p.topicId}
  {
    var e := s + [p];
    forall x | x in Ids(e) ensures x in Ids(s) + {p.topicId} {
      var i :| 0 <= i < |e| && e[i].topicId == x;
      if i < |s| { assert s[i] == e[i]; }
    }
    forall x | x in Ids(s) ensures x in Ids(e) {
      var i :| 0 <= i < |s| && s[i].topicId == x;
      assert e[i] == s[i];
    }
    assert e[|s|] == p;
  }

  lemma {:induction false} DedupIdsWithin(s: seq<PostStub>)
    ensures Ids(Dedup(s)) <= Ids(s)
  {
    if s != [] {
      var s' := s[..|s| - 1];
      DedupIdsWithin(s');
      assert Ids(s') <= Ids(s) by {
        forall x | x in Ids(s') ensures x in Ids(s) {
          var i :| 0 <= i < |s'| && s'[i].topicId == x;
          assert s[i].topicId == x;
        }
      }
      var d' := Dedup(s');
      var p := s[|s| - 1];
      if p.topicId != "" && p.topicId !in Ids(d') {
        IdsAppend(d', p);
      }
    }
  }

  /** The output's topic ids are non-empty and pairwise distinct. */
  lemma {:induction false} DedupDistinct(s: seq<PostStub>)
    ensures forall i :: 0 <= i < |Dedup(s)| ==> Dedup(s)[i].topicId != ""
    ensures forall i, j :: 0 <= i < j < |Dedup(s)| ==> Dedup(s)[i].topicId != Dedup(s)[j].topicId
  {
    if s != [] {
      var s' := s[..|s| - 1];
      DedupDistinct(s');
      var d' := Dedup(s');
      var p := s[|s| - 1];
      if p.topicId != "" && p.topicId !in Ids(d') {
        var d := d' + [p];
        forall i, j | 0 <= i < j < |d| ensures d[i].topicId != d[j].topicId {
          if j == |d'| {
            assert d[i] == d'[i];
            assert d'[i].topicId in Ids(d');
          } else {
            assert d[i] == d'[i] && d[j] == d'[j];
          }
        }
        forall i | 0 <= i < |d| ensures d[i].topicId != "" {
          if i < |d'| { assert d[i] == d'[i]; }
        }
      }
    }
  }

  /** Every non-empty topic id of the input survives. */
  lemma {:induction false} DedupCovers(s: seq<PostStub>)
    ensures forall k :: 0 <= k < |s| && s[k].topicId != "" ==> s[k].topicId in Ids(Dedup(s))
  {
    if s != [] {
      var s' := s[..|s| - 1];
      DedupCovers(s');
      var d' := Dedup(s');
      var p := s[|s| - 1];
      var d := Dedup(s);
      assert Ids(d') <= Ids(d) by {
        forall x | x in Ids(d') ensures x in Ids(d) {
          var i :| 0 <= i < |d'| && d'[i].topicId == x;
          assert d[i] == d'[i];
        }
      }
      forall k | 0 <= k < |s| && s[k].topicId != "" ensures s[k].topicId in Ids(d) {
        if k < |s'| {
          assert s[k] == s'[k];
        } else if p.topicId !in Ids(d') {
          assert d[|d'|] == p;
        }
      }
    }
  }

  /** The output is the input with elements deleted: first-seen order is kept. */
  lemma {:induction false} DedupSubsequence(s: seq<PostStub>)
    ensures IsSubsequence(Dedup(s), s)
  {
    if s != [] {
      var s' := s[..|s| - 1];
      DedupSubsequence(s');
      var d' := Dedup(s');
      var p := s[|s| - 1];
      if p.topicId != "" && p.topicId !in Ids(d') {
        var d := d' + [p];
        assert d[..|d| - 1] == d';
      }
    }
  }

  /** Being first in a prefix is being first in the whole. */
  lemma FirstOfIdPrefix(s: seq<PostStub>, n: nat, k: nat)
    requires k < n <= |s| && FirstOfId(s[..n], k)
    ensures FirstOfId(s, k)
  {
    forall j | 0 <= j < k ensures s[j].topicId != s[k].topicId {
      assert s[..n][j] == s[j];
    }
  }

  /** The last stub, when its id is new to what the earlier stubs kept, is
      the first carrying that id. */
  lemma NewLastIsFirst(s: seq<PostStub>)
    requires s != [] && s[|s| - 1].topicId != ""
    requires s[|s| - 1].topicId !in Ids(Dedup(s[..|s| - 1]))
    ensures FirstOfId(s, |s| - 1)
  {
    var s' := s[..|s| - 1];
    DedupCovers(s');
    forall j | 0 <= j < |s'| ensures s[j].topicId != s[|s| - 1].topicId {
      assert s[j] == s'[j];
    }
  }

  /** The last stub, when it is the first carrying its id, is new to what
      the earlier stubs kept, and so is kept. */
  lemma FirstLastIsKept(s: seq<PostStub>)
    requires s != [] && FirstOfId(s, |s| - 1)
    ensures s[|s| - 1] in Dedup(s)
  {
    var s' := s[..|s| - 1];
    var p := s[|s| - 1];
    DedupIdsWithin(s');
    forall j | 0 <= j < |s'| ensures s'[j].topicId != p.topicId {
      assert s[j] == s'[j];
    }
    assert p.topicId !in Ids(s');
    assert Dedup(s)[|Dedup(s')|] == p;
  }

  /** Each stub kept is the first stub of the input carrying its topic id. */
  lemma {:induction false} DedupOnlyFirstOccurrences(s: seq<PostStub>)
    ensures forall x :: x in Dedup(s) ==> exists k :: 0 <= k < |s| && FirstOfId(s, k) && s[k] == x
  {
    if s != [] {
      var s' := s[..|s| - 1];
      DedupOnlyFirstOccurrences(s');
      var d' := Dedup(s');
      var p := s[|s| - 1];
      forall x | x in d' ensures exists k :: 0 <= k < |s| && FirstOfId(s, k) && s[k] == x {
        var k :| 0 <= k < |s'| && FirstOfId(s', k) && s'[k] == x;
        FirstOfIdPrefix(s, |s| - 1, k);
        assert s[k] == x;
      }
      if p.topicId != "" && p.topicId !in Ids(d') {
        NewLastIsFirst(s);
        assert Dedup(s) == d' + [p];
        assert forall x :: x in Dedup(s) ==> x in d' || x == p;
      } else {
        assert Dedup(s) == d';
      }
    }
  }

  /** The first stub carrying each non-empty topic id is kept. */
  lemma {:induction false} DedupKeepsFirstOccurrences(s: seq<PostStub>)
    ensures forall k :: 0 <= k < |s| && FirstOfId(s, k) ==> s[k] in Dedup(s)
  {
    if s != [] {
      var s' := s[..|s| - 1];
      DedupKeepsFirstOccurrences(s');
      var d' := Dedup(s');
      var d := Dedup(s);
      forall k | 0 <= k < |s| && FirstOfId(s, k) ensures s[k] in d {
        if k < |s'| {
          assert s[k] == s'[k];
          assert FirstOfId(s', k);
        } else {
          FirstLastIsKept(s);
        }
      }
    }
  }
}
