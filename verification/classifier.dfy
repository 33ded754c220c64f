/**
  The classification client (ollama_client.py): reading the language
  model's reply into a classification, the keyword fallback used when the
  reply is not JSON, and the batch wrapper that attaches one classification
  to every post. The model call itself and `json.loads` are parameters: the
  reply the service gave, and a decoder that either yields an object or
  fails.
 */
module Classifier {
  import opened Common

  /** A decoded JSON value. */
  datatype Json =
    | JNull
    | JBool(b: bool)
    | JNum(n: real)
    | JStr(s: string)
    | JArr(items: seq<Json>)
    | JObj(fields: map<string, Json>)

  /** A classification as the client produces it: the decoded object. */
  type Classification = map<string, Json>

  /** What `json.loads` does with the reply's `{...}` span: an object (a
      text starting with `{` can decode to nothing else), a
      `JSONDecodeError`, or some other exception. */
  datatype DecodeOutcome = Decoded(obj: Classification) | DecodeError | OtherError

  /** The category taxonomy (`CLASSIFICATION_CATEGORIES`). */
  const Taxonomy: seq<string> :=
    ["动画/番剧", "游戏", "漫画", "轻小说", "虚拟主播/VTuber", "手办/周边", "音乐/歌曲", "其他"]

  const Other: string := "其他"

  /** The keyword groups of the fallback, in priority order, each with the
      category it selects. */
  const FallbackGroups: seq<(seq<string>, string)> :=
    [(["动画", "番剧", "anime"], "动画/番剧"),
     (["游戏", "game", "手游"], "游戏"),
     (["漫画", "manga"], "漫画"),
     (["轻小说", "小说", "novel"], "轻小说"),
     (["vtuber", "虚拟主播", "主播"], "虚拟主播/VTuber"),
     (["手办", "周边", "figure"], "手办/周边"),
     (["音乐", "歌曲", "music"], "音乐/歌曲")]

  function Classified(category: Json, keywords: Json, confidence: real): Classification
  {
    map["categories" := category, "keywords" := keywords, "confidence" := JNum(confidence)]
  }

  /** Returned when parsing fails with anything but a decode error. */
  const ErrorResult: Classification := Classified(JArr([]), JArr([]), 0.0)

  // ---------------------------------------------------------------------
  // `_fallback_parse`

  /** Some word of `words` occurs in `text`. */
  predicate Mentions(text: string, words: seq<string>)
  {
    exists k :: 0 <= k < |words| && Contains(text, words[k])
  }

  /** The category of the first group mentioned in `text`, or `'其他'`. */
  function FirstGroup(text: string, groups: seq<(seq<string>, string)>): string
  {
    if groups == [] then Other
    else if Mentions(text, groups[0].0) then groups[0].1
    else FirstGroup(text, groups[1..])
  }

  function FallbackCategory(response: string): string
  {
    FirstGroup(Lower(response), FallbackGroups)
  }

  function FallbackParse(response: string): Classification
  {
    Classified(JArr([JStr(FallbackCategory(response))]), JArr([]), 0.3)
  }

  lemma {:induction false} FirstGroupIsListed(text: string, groups: seq<(seq<string>, string)>)
    ensures FirstGroup(text, groups) == Other ||
      exists k :: 0 <= k < |groups| && FirstGroup(text, groups) == groups[k].1
  {
    if groups != [] && !Mentions(text, groups[0].0) {
      FirstGroupIsListed(text, groups[1..]);
      if FirstGroup(text, groups) != Other {
        var k :| 0 <= k < |groups| - 1 && FirstGroup(text, groups[1..]) == groups[1..][k].1;
        assert FirstGroup(text, groups) == groups[k + 1].1;
      }
    }
  }

  /** The fallback always yields exactly one category, taken from the
      taxonomy, no keywords and confidence 0.3. */
  lemma FallbackShape(response: string)
    ensures FallbackCategory(response) in Taxonomy
    ensures FallbackParse(response).Keys == {"categories", "keywords", "confidence"}
    ensures FallbackParse(response)["categories"] == JArr([JStr(FallbackCategory(response))])
    ensures FallbackParse(response)["keywords"] == JArr([])
    ensures FallbackParse(response)["confidence"] == JNum(0.3)
  {
    FirstGroupIsListed(Lower(response), FallbackGroups);
    assert forall k :: 0 <= k < |FallbackGroups| ==> FallbackGroups[k].1 == Taxonomy[k];
  }

  /** The first group mentioned in the lower-cased reply decides. */
  lemma {:induction false} FirstGroupWins(text: string, groups: seq<(seq<string>, string)>, g: nat)
    requires g < |groups| && Mentions(text, groups[g].0)
    requires forall k :: 0 <= k < g ==> !Mentions(text, groups[k].0)
    ensures FirstGroup(text, groups) == groups[g].1
  {
    if g > 0 {
      FirstGroupWins(text, groups[1..], g - 1);
    }
  }

  /** With no group mentioned at all, the category is `'其他'`. */
  lemma {:induction false} NoGroupMentioned(text: string, groups: seq<(seq<string>, string)>)
    requires forall k :: 0 <= k < |groups| ==> !Mentions(text, groups[k].0)
    ensures FirstGroup(text, groups) == Other
  {
    if groups != [] {
      NoGroupMentioned(text, groups[1..]);
    }
  }

  /** Anime terms take priority over every other group: a reply mentioning
      both `游戏` and `动画` is filed under `'动画/番剧'`. */
  lemma AnimeFirst(response: string)
    requires Contains(Lower(response), "动画")
    ensures FallbackCategory(response) == "动画/番剧"
  {
    assert Contains(Lower(response), FallbackGroups[0].0[0]);
  }

  /** Matching is on the lower-cased reply: `ANIME` selects the anime group. */
  lemma UpperCaseAnime()
    ensures FallbackCategory("ANIME") == "动画/番剧"
  {
    var t := Lower("ANIME");
    assert t == "anime";
    assert StartsAt(t, 0, "anime");
    assert Contains(t, FallbackGroups[0].0[2]);
  }

  // ---------------------------------------------------------------------
  // `_parse_classification_result`

  /** The span from the first `{` to the last `}`, as index bounds, when
      the last `}` comes after the first `{`. */
  function JsonSpan(text: string): (r: Option<(nat, nat)>)
    ensures r.Some? ==> r.value.0 < r.value.1 <= |text|
  {
    var open := Find(text, "{", 0);
    var close := RFind(text, '}');
    if open.Some? && close.Some? && close.value + 1 > open.value then Some((open.value, close.value + 1)) else None
  }

  /** The span exists exactly when some `{` has a `}` after it; it starts at
      the first `{` and ends just after the last `}`. */
  lemma JsonSpanSpec(text: string)
    ensures var r := JsonSpan(text);
      r.Some? ==>
        text[r.value.0] == '{' && text[r.value.1 - 1] == '}' &&
        (forall i :: 0 <= i < r.value.0 ==> text[i] != '{') &&
        (forall i :: r.value.1 <= i < |text| ==> text[i] != '}')
    ensures JsonSpan(text).None? <==> !(exists i, j :: 0 <= i < j < |text| && text[i] == '{' && text[j] == '}')
  {
    var open := Find(text, "{", 0);
    var close := RFind(text, '}');
    if open.Some? && close.Some? && close.value + 1 > open.value {
      assert text[open.value..open.value + 1] == "{";
      forall i | 0 <= i < open.value ensures text[i] != '{' {
        assert !StartsAt(text, i, "{");
        assert text[i..i + 1] == [text[i]];
      }
    } else {
      forall i, j | 0 <= i < j < |text| && text[i] == '{' ensures text[j] != '}' {
        assert text[i..i + 1] == "{";
        assert StartsAt(text, i, "{");
      }
    }
  }

  /** The fields a classification must carry, filled in when absent. */
  function Backfill(m: Classification): (r: Classification)
    ensures "categories" in r && "keywords" in r && "confidence" in r
    ensures forall k :: k in m ==> k in r && r[k] == m[k]
  {
    var m1 := if "categories" in m then m else m["categories" := JArr([])];
    var m2 := if "keywords" in m1 then m1 else m1["keywords" := JArr([])];
    if "confidence" in m2 then m2 else m2["confidence" := JNum(0.5)]
  }

  /** A category list of more than one entry cut down to its first entry. */
  function KeepFirstCategory(m: Classification): (r: Classification)
    requires "categories" in m
    ensures r.Keys == m.Keys
    ensures forall k :: k in m && k != "categories" ==> r[k] == m[k]
    ensures !(r["categories"].JArr? && |r["categories"].items| > 1)
  {
    var c := m["categories"];
    if c.JArr? && |c.items| > 1 then m["categories" := JArr([c.items[0]])] else m
  }

  /** The classification read from the stripped reply `text`, given its
      `{...}` span. */
  function SpanResult(text: string, span: Option<(nat, nat)>, decode: string -> DecodeOutcome): Classification
    requires span.Some? ==> span.value.0 <= span.value.1 <= |text|
  {
    match span
    case None => FallbackParse(text)
    case Some((i, j)) =>
      match decode(text[i..j])
      case Decoded(m) => KeepFirstCategory(Backfill(m))
      case DecodeError => FallbackParse(text)
      case OtherError => ErrorResult
  }

  /** The classification read from a reply. */
  function ParsedResult(response: string, decode: string -> DecodeOutcome): Classification
  {
    var text := Strip(response);
    SpanResult(text, JsonSpan(text), decode)
  }

  method ParseClassificationResult(response: string, decode: string -> DecodeOutcome) returns (result: Classification)
    ensures result == ParsedResult(response, decode)
  {
    var text := Strip(response);
    var span := JsonSpan(text);
    result := ParseSpan(text, span, decode);
  }

  /** The branch on the span: decode it, or fall back on the keywords. */
  method ParseSpan(text: string, span: Option<(nat, nat)>, decode: string -> DecodeOutcome) returns (result: Classification)
    requires span.Some? ==> span.value.0 <= span.value.1 <= |text|
    ensures result == SpanResult(text, span, decode)
  {
    if span.None? {
      result := FallbackParse(text);
    } else {
      var (jsonStart, jsonEnd) := span.value;
      var outcome := decode(text[jsonStart..jsonEnd]);
      if outcome.Decoded? {
        result := CompleteFields(outcome.obj);
      } else if outcome.DecodeError? {
        result := FallbackParse(text);
      } else {
        result := ErrorResult;
      }
    }
  }

  /** Fill in the missing required fields of a decoded object and cut its
      category list to one entry, in place. */
  method CompleteFields(m: Classification) returns (result: Classification)
    ensures result == KeepFirstCategory(Backfill(m))
  {
    result := m;
    if "categories" !in result {
      result := result["categories" := JArr([])];
    }
    if "keywords" !in result {
      result := result["keywords" := JArr([])];
    }
    if "confidence" !in result {
      result := result["confidence" := JNum(0.5)];
    }
    if result["categories"].JArr? && |result["categories"].items| > 1 {
      result := result["categories" := JArr([result["categories"].items[0]])];
    }
  }

  /** Without a `{` followed somewhere by a `}`, the reply goes to the
      fallback, stripped. */
  lemma NoSpanFallsBack(response: string, decode: string -> DecodeOutcome)
    requires var text := Strip(response);
      !(exists i, j :: 0 <= i < j < |text| && text[i] == '{' && text[j] == '}')
    ensures ParsedResult(response, decode) == FallbackParse(Strip(response))
  {
    JsonSpanSpec(Strip(response));
  }

  /** A decoded object keeps every field it had, gains the missing required
      fields with their defaults (`[]`, `[]`, 0.5), and has its category
      list cut to the first entry when it holds more than one; a category
      value that is not a list, or a list of at most one entry, stays. */
  lemma DecodedResult(m: Classification)
    ensures KeepFirstCategory(Backfill(m)).Keys == m.Keys + {"categories", "keywords", "confidence"}
    ensures forall k :: k in m && k != "categories" ==> KeepFirstCategory(Backfill(m))[k] == m[k]
    ensures "categories" !in m ==> KeepFirstCategory(Backfill(m))["categories"] == JArr([])
    ensures "keywords" !in m ==> KeepFirstCategory(Backfill(m))["keywords"] == JArr([])
    ensures "confidence" !in m ==> KeepFirstCategory(Backfill(m))["confidence"] == JNum(0.5)
    ensures "categories" in m && m["categories"].JArr? && |m["categories"].items| > 1 ==>
      KeepFirstCategory(Backfill(m))["categories"] == JArr([m["categories"].items[0]])
    ensures "categories" in m && !(m["categories"].JArr? && |m["categories"].items| > 1) ==>
      KeepFirstCategory(Backfill(m))["categories"] == m["categories"]
  {
  }

  /** After the collapse a category list has at most one entry. */
  lemma AtMostOneCategory(m: Classification)
    ensures var c := KeepFirstCategory(Backfill(m))["categories"]; c.JArr? ==> |c.items| <= 1
  {
  }

  /** Every parsed classification holds the three required fields, so it is
      never the empty (false) dictionary. */
  lemma ParsedHasFields(response: string, decode: string -> DecodeOutcome)
    ensures {"categories", "keywords", "confidence"} <= ParsedResult(response, decode).Keys
  {
    var text := Strip(response);
    SpanHasFields(text, JsonSpan(text), decode);
  }

  /** The same, branch by branch on the span. */
  lemma SpanHasFields(text: string, span: Option<(nat, nat)>, decode: string -> DecodeOutcome)
    requires span.Some? ==> span.value.0 <= span.value.1 <= |text|
    ensures {"categories", "keywords", "confidence"} <= SpanResult(text, span, decode).Keys
  {
    match span
    case None => FallbackShape(text);
    case Some((i, j)) =>
      match decode(text[i..j])
      case Decoded(m) => DecodedResult(m);
      case DecodeError => FallbackShape(text);
      case OtherError =>
  }

  // ---------------------------------------------------------------------
  // `classify_content`

  /** The classification of a reply; `None` when the service gave no reply
      or an empty one. */
  function ClassifyResult(reply: Option<string>, decode: string -> DecodeOutcome): (r: Option<Classification>)
    ensures r.None? <==> reply.None? || reply == Some([])
  {
    match reply
    case None => None
    case Some(text) => if text == [] then None else Some(ParsedResult(text, decode))
  }

  method ClassifyContent(reply: Option<string>, decode: string -> DecodeOutcome) returns (r: Option<Classification>)
    ensures r == ClassifyResult(reply, decode)
    ensures r.None? <==> reply.None? || reply == Some([])
  {
    if reply.None? || reply.value == [] {
      return None;
    }
    var result := ParseClassificationResult(reply.value, decode);
    r := Some(result);
  }

  // ---------------------------------------------------------------------
  // `batch_classify`

  /** A post with its content, as handed to the classifier. */
  datatype Post = Post(title: string, url: string, topicId: string, author: string, content: string)

  /** A post with its classification attached; `error` is set when the
      classification failed. */
  datatype ClassifiedPost = ClassifiedPost(post: Post, classification: Classification, processedAt: string,
                                           error: Option<string>)

  /** The classification attached when the service gives none. */
  const DefaultClassification: Classification := Classified(JArr([JStr(Other)]), JArr([]), 0.0)

  const FailureNote: string := "分类失败"

  /** The record for one post, given its classification (if any) and the
      clock reading taken. */
  function Attach(post: Post, classification: Option<Classification>, stamp: string): (r: ClassifiedPost)
    ensures r.post == post && r.processedAt == stamp
    ensures r.error.Some? <==> classification.None?
    ensures classification.Some? ==> r.classification == classification.value
  {
    match classification
    case Some(c) => ClassifiedPost(post, c, stamp, None)
    case None => ClassifiedPost(post, DefaultClassification, stamp, Some(FailureNote))
  }

  /** `replies[i]` is the service's reply to the prompt for `posts[i]` and
      `stamps[i]` the time read for it. */
  method BatchClassify(posts: seq<Post>, replies: seq<Option<string>>, decode: string -> DecodeOutcome,
                       stamps: seq<string>)
    returns (results: seq<ClassifiedPost>)
    requires |replies| == |posts| && |stamps| == |posts|
    ensures |results| == |posts|
    ensures forall i :: 0 <= i < |posts| ==>
      results[i] == Attach(posts[i], ClassifyResult(replies[i], decode), stamps[i])
  {
    ghost var expected :=
      seq(|posts|, k requires 0 <= k < |posts| => Attach(posts[k], ClassifyResult(replies[k], decode), stamps[k]));
    results := [];
    for i := 0 to |posts|
      invariant results == expected[..i]
    {
      var classified := ClassifyPost(posts[i], replies[i], decode, stamps[i]);
      PrefixStep(results, expected, i, classified);
      results := results + [classified];
    }
    PrefixWhole(expected);
  }

  /** One pass of the batch loop: the post with its classification, or
      with the default and the error note. */
  method ClassifyPost(post: Post, reply: Option<string>, decode: string -> DecodeOutcome, stamp: string)
    returns (classified: ClassifiedPost)
    ensures classified == Attach(post, ClassifyResult(reply, decode), stamp)
  {
    var classification := ClassifyContent(reply, decode);
    classified := Attach(post, classification, stamp);
  }

  /** Every post comes back once, in place, unchanged, with a
      classification; the error note marks exactly the posts the service
      failed on, and those carry `{['其他'], [], 0.0}`. */
  lemma AttachSpec(post: Post, reply: Option<string>, decode: string -> DecodeOutcome, stamp: string)
    ensures var r := Attach(post, ClassifyResult(reply, decode), stamp);
      r.post == post && r.processedAt == stamp &&
      (r.error.Some? <==> reply.None? || reply == Some([])) &&
      (r.error.Some? ==> r.error == Some(FailureNote) && r.classification == DefaultClassification) &&
      (r.error.None? ==> r.classification == ParsedResult(reply.value, decode))
  {
  }
}
