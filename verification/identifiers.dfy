/**
  Thread and user identifier recovery (`_extract_topic_id` in
  nga_classifier.py, `parse_nga_topic_id` and `parse_nga_user_id` in
  utils.py). Each extractor walks an ordered list of regular expressions and
  returns the capture group of the first one that `re.search` matches, or
  the empty string. Every pattern used there has one of two shapes, which
  the `Pattern` datatype names; their search semantics are written out
  below.
 */
module Identifiers {
  import opened Common

  datatype Pattern =
    | /** `tag(\d+)` */
      Tagged(tag: string)
    | /** `head.*?tag(\d+)` */
      Gapped(head: string, tag: string)

  /** `tag` occurs at `j` and is immediately followed by a digit. */
  predicate TagDigitAt(s: string, j: nat, tag: string)
  {
    StartsAt(s, j, tag) && j + |tag| < |s| && IsDigit(s[j + |tag|])
  }

  /** No line feed among `s[from..to]` (what the regex `.*?` may skip over). */
  predicate SingleLine(s: string, from: nat, to: nat)
  {
    forall i :: from <= i < to && i < |s| ==> s[i] != '\n'
  }

  /** The leftmost `j >= from` at which `tag` is followed by a digit; when
      `singleLine`, only positions reachable without skipping a line feed. */
  function FirstTagDigit(s: string, tag: string, from: nat, singleLine: bool): (r: Option<nat>)
    ensures r.Some? ==> from <= r.value && TagDigitAt(s, r.value, tag)
    ensures r.Some? ==> forall j :: from <= j < r.value ==> !TagDigitAt(s, j, tag)
    ensures r.Some? && singleLine ==> SingleLine(s, from, r.value)
    ensures r.None? ==> forall j :: from <= j && (singleLine ==> SingleLine(s, from, j)) ==> !TagDigitAt(s, j, tag)
    decreases |s| - from
  {
    if from >= |s| then None
    else if TagDigitAt(s, from, tag) then Some(from)
    else if singleLine && s[from] == '\n' then None
    else FirstTagDigit(s, tag, from + 1, singleLine)
  }

  /** For `head.*?tag(\d+)`: the leftmost start of `head` from which the lazy
      gap reaches a `tag` followed by a digit; the result is that tag's index. */
  function SearchGapped(s: string, head: string, tag: string, from: nat): (r: Option<nat>)
    ensures r.Some? ==> TagDigitAt(s, r.value, tag)
    decreases |s| + 1 - from
  {
    if from > |s| then None
    else if StartsAt(s, from, head) && FirstTagDigit(s, tag, from + |head|, true).Some? then
      FirstTagDigit(s, tag, from + |head|, true)
    else SearchGapped(s, head, tag, from + 1)
  }

  /** Index at which the captured digit run starts, if `re.search` matches. */
  function GroupStart(p: Pattern, s: string): (r: Option<nat>)
    ensures r.Some? ==> r.value < |s| && IsDigit(s[r.value])
  {
    match p
    case Tagged(tag) =>
      (match FirstTagDigit(s, tag, 0, false)
       case Some(j) => Some(j + |tag|)
       case None => None)
    case Gapped(head, tag) =>
      (match SearchGapped(s, head, tag, 0)
       case Some(j) => Some(j + |tag|)
       case None => None)
  }

  /** `match.group(1)`: the maximal digit run (greedy `\d+`). */
  function Group(p: Pattern, s: string): (r: Option<string>)
  {
    match GroupStart(p, s)
    case Some(k) => Some(s[k..DigitRunEnd(s, k)])
    case None => None
  }

  /** A non-empty run of digits occurring in `s`. */
  predicate DigitId(r: string, s: string)
  {
    |r| > 0 && AllDigits(r) && Contains(s, r)
  }

  /** The ordered first-match search: the first pattern that matches decides. */
  function FirstMatch(ps: seq<Pattern>, s: string): (r: string)
    ensures r == "" || DigitId(r, s)
  {
    if ps == [] then ""
    else
      match GroupStart(ps[0], s)
      case Some(k) =>
        var e := DigitRunEnd(s, k);
        assert StartsAt(s, k, s[k..e]);
        s[k..e]
      case None => FirstMatch(ps[1..], s)
  }

  /** `_extract_topic_id`'s five patterns, in order. */
  const TopicPatterns: seq<Pattern> :=
    [Tagged("tid="), Tagged("read.php?tid="), Tagged("/thread/"), Tagged("/read/"),
     Gapped("read.php", "tid=")]

  /** `parse_nga_topic_id`'s three patterns, in order. */
  const UtilsTopicPatterns: seq<Pattern> :=
    [Tagged("tid="), Tagged("/thread/"), Tagged("read.php?tid=")]

  /** `parse_nga_user_id`'s three patterns, in order. */
  const UserPatterns: seq<Pattern> :=
    [Tagged("uid="), Tagged("/user/"), Tagged("nuke.php?func=ucp&uid=")]

  function ExtractTopicId(url: string): (r: string)
    ensures r == "" || DigitId(r, url)
  {
    FirstMatch(TopicPatterns, url)
  }

  function ParseTopicId(url: string): (r: string)
    ensures r == "" || DigitId(r, url)
  {
    FirstMatch(UtilsTopicPatterns, url)
  }

  function ParseUserId(url: string): (r: string)
    ensures r == "" || DigitId(r, url)
  {
    FirstMatch(UserPatterns, url)
  }

  // ---------------------------------------------------------------------
  // Subsumption: a pattern that can only match where an earlier one
  // already matches never influences the result.

  /** Any string holding `pre + tag` followed by a digit holds `tag` followed by one. */
  lemma TaggedSubsumed(s: string, pre: string, tag: string)
    requires GroupStart(Tagged(pre + tag), s).Some?
    ensures GroupStart(Tagged(tag), s).Some?
  {
    var j := FirstTagDigit(s, pre + tag, 0, false).value;
    assert s[j + |pre|..j + |pre| + |tag|] == (pre + tag)[|pre|..];
    assert TagDigitAt(s, j + |pre|, tag);
  }

  /** `head.*?tag(\d+)` can only match where `tag(\d+)` matches. */
  lemma GappedSubsumed(s: string, head: string, tag: string)
    requires GroupStart(Gapped(head, tag), s).Some?
    ensures GroupStart(Tagged(tag), s).Some?
  {
    var j := SearchGapped(s, head, tag, 0).value;
    assert TagDigitAt(s, j, tag);
  }

  /** Removing a pattern that does not match leaves the result unchanged. */
  lemma {:induction false} DropUnmatched(ps: seq<Pattern>, k: nat, s: string)
    requires k < |ps| && GroupStart(ps[k], s).None?
    ensures FirstMatch(ps[..k] + ps[k + 1..], s) == FirstMatch(ps, s)
  {
    var qs := ps[..k] + ps[k + 1..];
    if k == 0 {
      assert qs == ps[1..];
    } else {
      assert qs[0] == ps[0] && qs[1..] == ps[1..][..k - 1] + ps[1..][k..];
      if GroupStart(ps[0], s).None? {
        DropUnmatched(ps[1..], k - 1, s);
      }
    }
  }

  /** Removing pattern `k` changes nothing when it can only match where an
      earlier pattern `m` matches. */
  lemma {:induction false} DropSubsumed(ps: seq<Pattern>, m: nat, k: nat, s: string)
    requires m < k < |ps|
    requires GroupStart(ps[k], s).Some? ==> GroupStart(ps[m], s).Some?
    ensures FirstMatch(ps[..k] + ps[k + 1..], s) == FirstMatch(ps, s)
  {
    var qs := ps[..k] + ps[k + 1..];
    assert qs[0] == ps[0] && qs[1..] == ps[1..][..k - 1] + ps[1..][k..];
    if GroupStart(ps[0], s).Some? {
    } else if m == 0 {
      DropUnmatched(ps, k, s);
    } else {
      DropSubsumed(ps[1..], m - 1, k - 1, s);
    }
  }

  /** `read\.php\?tid=(\d+)` and `read\.php.*?tid=(\d+)` never change what
      `_extract_topic_id` returns: `tid=` first, then `/thread/`, then `/read/`. */
  lemma ExtractTopicIdReduced(url: string)
    ensures ExtractTopicId(url) == FirstMatch([Tagged("tid="), Tagged("/thread/"), Tagged("/read/")], url)
  {
    var ps := TopicPatterns;
    if GroupStart(Gapped("read.php", "tid="), url).Some? {
      GappedSubsumed(url, "read.php", "tid=");
    }
    DropSubsumed(ps, 0, 4, url);
    var ps1 := ps[..4] + ps[5..];
    assert ps1 == [Tagged("tid="), Tagged("read.php?tid="), Tagged("/thread/"), Tagged("/read/")];
    if GroupStart(Tagged("read.php?tid="), url).Some? {
      assert "read.php?" + "tid=" == "read.php?tid=";
      TaggedSubsumed(url, "read.php?", "tid=");
    }
    DropSubsumed(ps1, 0, 1, url);
    assert ps1[..1] + ps1[2..] == [Tagged("tid="), Tagged("/thread/"), Tagged("/read/")];
  }

  /** When some `tid=` is followed by a digit, the identifier is the maximal
      digit run after the leftmost such `tid=`. */
  lemma ExtractTopicIdLeftmostTid(url: string, i: nat)
    requires TagDigitAt(url, i, "tid=")
    requires forall j :: 0 <= j < i ==> !TagDigitAt(url, j, "tid=")
    ensures var r := ExtractTopicId(url);
      |r| > 0 && AllDigits(r) && StartsAt(url, i + 4, r) &&
      (i + 4 + |r| == |url| || !IsDigit(url[i + 4 + |r|]))
  {
    var f := FirstTagDigit(url, "tid=", 0, false);
    assert f == Some(i);
  }

  /** Without a `tid=` followed by a digit, `/thread/` and then `/read/` decide. */
  lemma ExtractTopicIdWithoutTid(url: string)
    requires forall j :: !TagDigitAt(url, j, "tid=")
    ensures ExtractTopicId(url) == FirstMatch([Tagged("/thread/"), Tagged("/read/")], url)
  {
    ExtractTopicIdReduced(url);
    var ps := [Tagged("tid="), Tagged("/thread/"), Tagged("/read/")];
    assert GroupStart(ps[0], url).None?;
    assert ps[1..] == [Tagged("/thread/"), Tagged("/read/")];
  }

  /** `parse_nga_topic_id`'s third pattern never changes the result. */
  lemma ParseTopicIdReduced(url: string)
    ensures ParseTopicId(url) == FirstMatch([Tagged("tid="), Tagged("/thread/")], url)
  {
    if GroupStart(Tagged("read.php?tid="), url).Some? {
      assert "read.php?" + "tid=" == "read.php?tid=";
      TaggedSubsumed(url, "read.php?", "tid=");
    }
    DropSubsumed(UtilsTopicPatterns, 0, 2, url);
    assert UtilsTopicPatterns[..2] + UtilsTopicPatterns[3..] == [Tagged("tid="), Tagged("/thread/")];
  }

  /** `parse_nga_user_id`'s third pattern never changes the result. */
  lemma ParseUserIdReduced(url: string)
    ensures ParseUserId(url) == FirstMatch([Tagged("uid="), Tagged("/user/")], url)
  {
    if GroupStart(Tagged("nuke.php?func=ucp&uid="), url).Some? {
      assert "nuke.php?func=ucp&" + "uid=" == "nuke.php?func=ucp&uid=";
      TaggedSubsumed(url, "nuke.php?func=ucp&", "uid=");
    }
    DropSubsumed(UserPatterns, 0, 2, url);
    assert UserPatterns[..2] + UserPatterns[3..] == [Tagged("uid="), Tagged("/user/")];
  }

  /** When the leftmost `tid=` followed by a digit ends the URL with
      digits only, those digits are the identifier. */
  lemma ExtractTopicIdTrailingDigits(url: string, i: nat)
    requires TagDigitAt(url, i, "tid=")
    requires forall j :: 0 <= j < i ==> !TagDigitAt(url, j, "tid=")
    requires forall k :: i + 4 <= k < |url| ==> IsDigit(url[k])
    ensures ExtractTopicId(url) == url[i + 4..]
  {
    ExtractTopicIdLeftmostTid(url, i);
    var r := ExtractTopicId(url);
    assert i + 4 + |r| == |url|;
    assert r == url[i + 4..i + 4 + |r|];
  }

  /** The worked example: a `read.php?tid=` link yields its number. */
  lemma ExtractTopicIdExample()
    ensures ExtractTopicId("/read.php?tid=12345") == "12345"
  {
    var url := "/read.php?tid=12345";
    forall j | 0 <= j < 10
      ensures !TagDigitAt(url, j, "tid=")
    {
      assert url[j + 3] != '=';
    }
    assert TagDigitAt(url, 10, "tid=") by {
      assert url[10..14] == "tid=";
    }
    ExtractTopicIdTrailingDigits(url, 10);
    assert url[14..] == "12345";
  }
}
