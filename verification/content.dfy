/**
  Post content: the cleaning pass (`_clean_content_text`), the choice of
  the element that holds the opening post (`_parse_post_content`) and the
  length cap (`fetch_post_content`), all in nga_classifier.py. The HTML
  document is reduced to the texts of the elements the CSS selectors would
  find.
 */
module Content {
  import opened Common

  // ---------------------------------------------------------------------
  // `re.sub(r'\s+', ' ', text)`

  /** `r` is `s` with its whitespace runs collapsed, as far as its shape
      goes: no longer than `s`, empty only when `s` is, whitespace only as
      single spaces, and a space at either end exactly where `s` has
      whitespace. */
  predicate CollapsedShape(r: string, s: string)
  {
    |r| <= |s| &&
    (r == [] <==> s == []) &&
    (forall i :: 0 <= i < |r| ==> r[i] == ' ' || !IsSpace(r[i])) &&
    (forall i :: 0 <= i < |r| - 1 ==> !(r[i] == ' ' && r[i + 1] == ' ')) &&
    (r != [] ==> (r[0] == ' ' <==> IsSpace(s[0]))) &&
    (r != [] ==> (r[|r| - 1] == ' ' <==> IsSpace(s[|s| - 1])))
  }

  /** Every maximal run of whitespace replaced by one space. */
  function Collapse(s: string): (r: string)
    ensures CollapsedShape(r, s)
    decreases |s|
  {
    if s == [] then []
    else if IsSpace(s[0]) then
      var rest := LStrip(s[1..]);
      var c := Collapse(rest);
      SpaceRun(s, rest, c);
      [' '] + c
    else
      var c := Collapse(s[1..]);
      KeptChar(s, c);
      [s[0]] + c
  }

  /** A whitespace run at the front becomes one space before the rest. */
  lemma SpaceRun(s: string, rest: string, c: string)
    requires s != [] && IsSpace(s[0])
    requires |rest| <= |s| - 1 && rest == s[|s| - |rest|..] && (rest == [] || !IsSpace(rest[0]))
    requires rest == [] && |s| > 1 ==> IsSpace(s[|s| - 1])
    requires CollapsedShape(c, rest)
    ensures CollapsedShape([' '] + c, s)
  {
    SpaceAndNewline();
    var r := [' '] + c;
    assert r[1..] == c;
    assert rest != [] ==> rest[|rest| - 1] == s[|s| - 1];
  }

  /** A non-whitespace character at the front is kept. */
  lemma KeptChar(s: string, c: string)
    requires s != [] && !IsSpace(s[0])
    requires CollapsedShape(c, s[1..])
    ensures CollapsedShape([s[0]] + c, s)
  {
    var r := [s[0]] + c;
    assert r[1..] == c;
  }

  /** The space character is whitespace, and so is the line feed. */
  lemma SpaceAndNewline()
    ensures IsSpace(' ') && IsSpace('\n')
  {
  }

  /** Collapsing a collapsed text changes nothing. */
  lemma {:induction false} CollapseIdempotent(s: string)
    ensures Collapse(Collapse(s)) == Collapse(s)
    decreases |s|
  {
    SpaceAndNewline();
    if s != [] {
      var r := Collapse(s);
      if IsSpace(s[0]) {
        var rest := LStrip(s[1..]);
        var c := Collapse(rest);
        CollapseIdempotent(rest);
        assert r == [' '] + c;
        assert r[1..] == c;
        assert LStrip(c) == c;
      } else {
        CollapseIdempotent(s[1..]);
        assert r[1..] == Collapse(s[1..]);
      }
    }
  }

  /** Left-stripping stops at the first visible character. */
  lemma {:induction false} LStripBefore(a: string, c: char, b: string)
    requires !IsSpace(c)
    ensures LStrip(a + [c] + b) == LStrip(a) + [c] + b
  {
    if a == [] {
      assert a + [c] + b == [c] + b;
    } else {
      assert (a + [c] + b)[1..] == a[1..] + [c] + b;
      if IsSpace(a[0]) {
        LStripBefore(a[1..], c, b);
      }
    }
  }

  /** A whole run of whitespace collapses to one space. */
  lemma CollapseSpaces(s: string)
    requires s != [] && forall i :: 0 <= i < |s| ==> IsSpace(s[i])
    ensures Collapse(s) == " "
  {
    assert LStrip(s[1..]) == [];
  }

  /** A visible character splits the text in two that collapse
      independently: the whitespace runs on either side of it are collapsed
      on their own, and nothing is removed across it. Together with
      `CollapseSpaces` this fixes `Collapse` on every text. */
  lemma {:induction false} CollapseAround(a: string, c: char, b: string)
    requires !IsSpace(c)
    ensures Collapse(a + [c] + b) == Collapse(a) + [c] + Collapse(b)
    decreases |a|
  {
    if a == [] {
      assert a + [c] + b == [c] + b;
      assert ([c] + b)[1..] == b;
    } else if IsSpace(a[0]) {
      CollapseAround(LStrip(a[1..]), c, b);
      SpaceHeadAround(a, c, b);
    } else {
      CollapseAround(a[1..], c, b);
      VisibleHeadAround(a, c, b);
    }
  }

  /** The step of `CollapseAround` for a text starting with whitespace. */
  lemma SpaceHeadAround(a: string, c: char, b: string)
    requires !IsSpace(c) && a != [] && IsSpace(a[0])
    requires Collapse(LStrip(a[1..]) + [c] + b) == Collapse(LStrip(a[1..])) + [c] + Collapse(b)
    ensures Collapse(a + [c] + b) == Collapse(a) + [c] + Collapse(b)
  {
    TailAround(a, c, b);
    LStripBefore(a[1..], c, b);
    ConsAround([' '], Collapse(LStrip(a[1..])), c, Collapse(b));
  }

  /** The step of `CollapseAround` for a text starting with a visible character. */
  lemma VisibleHeadAround(a: string, c: char, b: string)
    requires !IsSpace(c) && a != [] && !IsSpace(a[0])
    requires Collapse(a[1..] + [c] + b) == Collapse(a[1..]) + [c] + Collapse(b)
    ensures Collapse(a + [c] + b) == Collapse(a) + [c] + Collapse(b)
  {
    TailAround(a, c, b);
    ConsAround([a[0]], Collapse(a[1..]), c, Collapse(b));
  }

  lemma ConsAround<T>(h: seq<T>, x: seq<T>, c: T, y: seq<T>)
    ensures h + (x + [c] + y) == (h + x) + [c] + y
  {
  }

  lemma TailAround<T>(a: seq<T>, c: T, b: seq<T>)
    requires a != []
    ensures (a + [c] + b)[0] == a[0] && (a + [c] + b)[1..] == a[1..] + [c] + b
  {
  }

  /** Two visible characters separated by whitespace stay separated by
      exactly one space; with nothing between them they stay adjacent. */
  lemma CollapseBetween(a: string, x: char, w: string, y: char, b: string)
    requires !IsSpace(x) && !IsSpace(y)
    requires forall i :: 0 <= i < |w| ==> IsSpace(w[i])
    ensures Collapse(a + [x] + w + [y] + b) ==
      Collapse(a) + [x] + (if w == [] then [] else [' ']) + [y] + Collapse(b)
  {
    var tail := w + [y] + b;
    Regroup(a, x, w, y, b);
    CollapseAround(a, x, tail);
    CollapseAround(w, y, b);
    if w != [] {
      CollapseSpaces(w);
    } else {
      assert Collapse(w) == [];
    }
    Regroup(Collapse(a), x, Collapse(w), y, Collapse(b));
  }

  lemma Regroup<T>(a: seq<T>, x: T, w: seq<T>, y: T, b: seq<T>)
    ensures a + [x] + w + [y] + b == a + [x] + (w + [y] + b)
  {
  }

  /** The non-whitespace characters of a text, in order. */
  function Visible(s: string): string
  {
    if s == [] then [] else (if IsSpace(s[0]) then [] else [s[0]]) + Visible(s[1..])
  }

  lemma {:induction false} VisibleOfSpaces(s: string)
    requires forall i :: 0 <= i < |s| ==> IsSpace(s[i])
    ensures Visible(s) == []
  {
    if s != [] {
      VisibleOfSpaces(s[1..]);
    }
  }

  lemma {:induction false} VisibleLStrip(s: string)
    ensures Visible(LStrip(s)) == Visible(s)
  {
    if s != [] && IsSpace(s[0]) {
      VisibleLStrip(s[1..]);
    }
  }

  /** Collapsing only touches whitespace: the other characters are kept, in
      order. */
  lemma {:induction false} CollapseKeepsVisible(s: string)
    ensures Visible(Collapse(s)) == Visible(s)
    decreases |s|
  {
    SpaceAndNewline();
    if s != [] {
      var r := Collapse(s);
      if IsSpace(s[0]) {
        var rest := LStrip(s[1..]);
        CollapseKeepsVisible(rest);
        VisibleLStrip(s[1..]);
        assert r[1..] == Collapse(rest);
      } else {
        CollapseKeepsVisible(s[1..]);
        assert r[1..] == Collapse(s[1..]);
      }
    }
  }

  // ---------------------------------------------------------------------
  // Deleting the spans of a lazy pattern `p0.*?p1.*?...`

  /** The boilerplate patterns, in the order they are removed: each is a
      chain of literals joined by lazy `.*?` gaps. */
  const BracketSpan: seq<string> := ["[", "]"]
  const EditNote: seq<string> := ["本帖最后由", "编辑"]
  const ToolbarSpan: seq<string> := ["使用道具", "举报"]
  const ReplyBar: seq<string> := ["回复", "支持", "反对"]
  const RemovePatterns: seq<seq<string>> := [BracketSpan, EditNote, ToolbarSpan, ReplyBar]

  /** A chain that can be searched for: it starts with a non-empty literal. */
  predicate Searchable(parts: seq<string>)
  {
    parts != [] && parts[0] != []
  }

  /** Each of the four patterns can be searched for. */
  lemma PatternsSearchable()
    ensures forall k :: 0 <= k < |RemovePatterns| ==> Searchable(RemovePatterns[k])
  {
    assert |BracketSpan[0]| == 1 && |EditNote[0]| == 5 && |ToolbarSpan[0]| == 4 && |ReplyBar[0]| == 2;
  }

  /** Where the gaps-and-literals `rest` end when matched lazily from `k`:
      each literal at its first occurrence, with no line feed skipped (the
      regex `.` does not match one). */
  function ChainEnd(s: string, rest: seq<string>, k: nat): (e: Option<nat>)
    requires k <= |s|
    ensures e.Some? ==> k <= e.value <= |s|
    decreases |rest|
  {
    if rest == [] then Some(k)
    else
      match Find(s, rest[0], k)
      case None => None
      case Some(j) => if '\n' in s[k..j] then None else ChainEnd(s, rest[1..], j + |rest[0]|)
  }

  /** The end of the match of `parts` starting at `i`, if there is one. */
  function MatchEnd(s: string, parts: seq<string>, i: nat): (e: Option<nat>)
    requires i <= |s| && Searchable(parts)
    ensures e.Some? ==> i < e.value <= |s|
  {
    if StartsAt(s, i, parts[0]) then ChainEnd(s, parts[1..], i + |parts[0]|) else None
  }

  /** `re.sub(pattern, '', s[i..])`: scanning left to right, each leftmost
      match is deleted and the scan resumes after it. */
  function DeleteFrom(s: string, parts: seq<string>, i: nat): (r: string)
    requires i <= |s| && Searchable(parts)
    ensures |r| <= |s| - i
    ensures forall c :: c in r ==> c in s[i..]
    decreases |s| - i
  {
    if i == |s| then []
    else
      match MatchEnd(s, parts, i)
      case Some(e) =>
        var r := DeleteFrom(s, parts, e);
        assert s[e..] == s[i..][e - i..];
        r
      case None =>
        var r := DeleteFrom(s, parts, i + 1);
        assert s[i..] == [s[i]] + s[i + 1..];
        [s[i]] + r
  }

  function Delete(s: string, parts: seq<string>): (r: string)
    requires Searchable(parts)
  {
    DeleteFrom(s, parts, 0)
  }

  /** A text in which the pattern matches nowhere is left as it is. */
  lemma {:induction false} DeleteWithoutMatch(s: string, parts: seq<string>, i: nat)
    requires i <= |s| && Searchable(parts)
    requires forall j :: i <= j <= |s| ==> MatchEnd(s, parts, j).None?
    ensures DeleteFrom(s, parts, i) == s[i..]
    decreases |s| - i
  {
    if i < |s| {
      DeleteWithoutMatch(s, parts, i + 1);
      assert s[i..] == [s[i]] + s[i + 1..];
    }
  }

  /** The patterns removed one after the other, in order. */
  function RemoveAll(s: string, patterns: seq<seq<string>>): (r: string)
    requires forall k :: 0 <= k < |patterns| ==> Searchable(patterns[k])
    ensures |r| <= |s|
    ensures forall c :: c in r ==> c in s
  {
    if patterns == [] then s
    else Delete(RemoveAll(s, patterns[..|patterns| - 1]), patterns[|patterns| - 1])
  }

  // ---------------------------------------------------------------------
  // No bracket pair survives.

  /** No `[` is followed, anywhere later, by `]`. */
  predicate NoBracketPair(r: string)
  {
    forall a, b :: 0 <= a < b < |r| && r[a] == '[' ==> r[b] != ']'
  }

  /** A character of a suffix sits at some index of the whole text. */
  lemma InSuffix(s: string, k: nat, c: char)
    requires k <= |s| && c in s[k..]
    ensures exists j :: k <= j < |s| && s[j] == c
  {
    var m :| 0 <= m < |s| - k && s[k..][m] == c;
    assert s[k + m] == c;
  }

  /** A character absent from a text is absent from each of its slices. */
  lemma NotInSlice(s: string, a: nat, b: nat, c: char)
    requires a <= b <= |s| && c !in s
    ensures c !in s[a..b]
  {
    forall m | 0 <= m < b - a ensures s[a..b][m] != c {
      assert s[a..b][m] == s[a + m];
    }
  }

  lemma ConsNoBracketPair(x: char, rest: string)
    requires NoBracketPair(rest)
    requires x == '[' ==> ']' !in rest
    ensures NoBracketPair([x] + rest)
  {
    var r := [x] + rest;
    forall a, b | 0 <= a < b < |r| && r[a] == '[' ensures r[b] != ']' {
      assert r[b] == rest[b - 1];
      if a > 0 {
        assert r[a] == rest[a - 1];
      }
    }
  }

  /** Once `\[.*?\]` is removed from a text without line feeds, no `[` has a
      `]` after it: an unmatched `[` has no `]` anywhere to its right. */
  lemma {:induction false} BracketsRemoved(s: string, i: nat)
    requires i <= |s| && '\n' !in s
    ensures NoBracketPair(DeleteFrom(s, BracketSpan, i))
    decreases |s| - i
  {
    if i < |s| {
      match MatchEnd(s, BracketSpan, i)
      case Some(e) =>
        BracketsRemoved(s, e);
      case None =>
        BracketsRemoved(s, i + 1);
        var rest := DeleteFrom(s, BracketSpan, i + 1);
        if s[i] == '[' {
          UnmatchedBracket(s, i);
          forall c | c in rest ensures c != ']' {
            InSuffix(s, i + 1, c);
          }
        }
        ConsNoBracketPair(s[i], rest);
    }
  }

  /** A `[` where `\[.*?\]` does not match has no `]` to its right, in a
      text without line feeds. */
  lemma UnmatchedBracket(s: string, i: nat)
    requires i < |s| && '\n' !in s && s[i] == '['
    requires MatchEnd(s, BracketSpan, i).None?
    ensures forall j :: i < j < |s| ==> s[j] != ']'
  {
    assert StartsAt(s, i, BracketSpan[0]) by {
      assert s[i..i + 1] == [s[i]];
    }
    var rest := BracketSpan[1..];
    assert rest == ["]"];
    LastLiteral(s, rest, i + 1);
    assert Find(s, "]", i + 1).None?;
    forall j | i < j < |s| ensures s[j] != ']' {
      assert !StartsAt(s, j, "]");
      assert s[j..j + 1] == [s[j]];
    }
  }

  /** In a text without line feeds, a one-literal chain matches exactly
      when the literal occurs. */
  lemma LastLiteral(s: string, rest: seq<string>, k: nat)
    requires k <= |s| && |rest| == 1 && '\n' !in s
    ensures ChainEnd(s, rest, k).None? <==> Find(s, rest[0], k).None?
  {
    assert rest[1..] == [];
    match Find(s, rest[0], k)
    case None =>
    case Some(f) =>
      NotInSlice(s, k, f, '\n');
  }

  /** Deleting characters cannot create a bracket pair. */
  lemma {:induction false} DeleteKeepsNoBracketPair(s: string, parts: seq<string>, i: nat)
    requires i <= |s| && Searchable(parts) && NoBracketPair(s[i..])
    ensures NoBracketPair(DeleteFrom(s, parts, i))
    decreases |s| - i
  {
    if i < |s| {
      match MatchEnd(s, parts, i)
      case Some(e) =>
        NoBracketPairSlice(s[i..], e - i, |s| - e);
        assert s[i..][e - i..|s| - i] == s[e..];
        DeleteKeepsNoBracketPair(s, parts, e);
      case None =>
        NoBracketPairSlice(s[i..], 1, |s| - i - 1);
        assert s[i..][1..|s| - i] == s[i + 1..];
        DeleteKeepsNoBracketPair(s, parts, i + 1);
        var rest := DeleteFrom(s, parts, i + 1);
        if s[i] == '[' {
          forall c | c in rest ensures c != ']' {
            InSuffix(s, i + 1, c);
            var j :| i + 1 <= j < |s| && s[j] == c;
            assert s[i..][0] == '[' && s[i..][j - i] == c;
          }
        }
        ConsNoBracketPair(s[i], rest);
    }
  }

  lemma NoBracketPairSlice(s: string, k: nat, n: nat)
    requires k + n <= |s| && NoBracketPair(s)
    ensures NoBracketPair(s[k..k + n])
  {
    var t := s[k..k + n];
    forall a, b | 0 <= a < b < n && t[a] == '[' ensures t[b] != ']' {
      assert t[a] == s[k + a] && t[b] == s[k + b];
    }
  }

  /** The four patterns removed in order. */
  function Passes(s: string): string
  {
    PatternsSearchable();
    RemoveAll(s, RemovePatterns)
  }

  /** The four passes, spelled out. */
  lemma RemovePatternsInOrder(s: string)
    ensures Passes(s) ==
      Delete(Delete(Delete(Delete(s, BracketSpan), EditNote), ToolbarSpan), ReplyBar)
  {
    PatternsSearchable();
    var p := RemovePatterns;
    assert p[..1][..0] == [];
    assert RemoveAll(s, p[..1]) == Delete(s, BracketSpan);
    assert p[..2][..1] == p[..1];
    assert RemoveAll(s, p[..2]) == Delete(Delete(s, BracketSpan), EditNote);
    assert p[..3][..2] == p[..2];
    assert RemoveAll(s, p[..3]) == Delete(Delete(Delete(s, BracketSpan), EditNote), ToolbarSpan);
    assert p[..4][..3] == p[..3];
    assert p[..4] == p;
  }

  // ---------------------------------------------------------------------
  // `_clean_content_text`

  /** The cleaned text: whitespace collapsed, the four patterns removed in
      order, the ends stripped; the empty text stays empty. */
  function Cleaned(text: string): (r: string)
    ensures r == [] || (!IsSpace(r[0]) && !IsSpace(r[|r| - 1]))
  {
    if text == [] then [] else Strip(Passes(Collapse(Strip(text))))
  }

  method CleanContentText(text: string) returns (r: string)
    ensures r == Cleaned(text)
  {
    if text == [] {
      return [];
    }
    var t := Collapse(Strip(text));
    t := RemovePatternsFrom(t);
    r := Strip(t);
  }

  /** The loop over the four patterns, each removed from the result of
      the previous one. */
  method RemovePatternsFrom(s: string) returns (t: string)
    ensures t == Passes(s)
  {
    PatternsSearchable();
    t := s;
    for k := 0 to |RemovePatterns|
      invariant t == RemoveAll(s, RemovePatterns[..k])
    {
      assert RemovePatterns[..k + 1][..k] == RemovePatterns[..k];
      t := Delete(t, RemovePatterns[k]);
    }
    assert RemovePatterns[..|RemovePatterns|] == RemovePatterns;
  }

  /** After the four passes over a text without line feeds, no `[` has a
      `]` after it. */
  lemma PassesLeaveNoBracketPair(c: string)
    requires '\n' !in c
    ensures NoBracketPair(Passes(c))
  {
    RemovePatternsInOrder(c);
    var t1 := Delete(c, BracketSpan);
    BracketsRemoved(c, 0);
    var t2 := Delete(t1, EditNote);
    assert t1[0..] == t1;
    DeleteKeepsNoBracketPair(t1, EditNote, 0);
    var t3 := Delete(t2, ToolbarSpan);
    assert t2[0..] == t2;
    DeleteKeepsNoBracketPair(t2, ToolbarSpan, 0);
    assert t3[0..] == t3;
    DeleteKeepsNoBracketPair(t3, ReplyBar, 0);
  }

  /** A collapsed text has no line feed left. */
  lemma CollapseHasNoNewline(s: string)
    ensures '\n' !in Collapse(s)
  {
    SpaceAndNewline();
    var c := Collapse(s);
    forall i | 0 <= i < |c| ensures c[i] != '\n' {
      assert c[i] == ' ' || !IsSpace(c[i]);
    }
  }

  lemma StripKeepsNoBracketPair(u: string)
    requires NoBracketPair(u)
    ensures NoBracketPair(Strip(u))
  {
    var r := Strip(u);
    StripContained(u);
    var k: nat :| k <= |u| && StartsAt(u, k, r);
    NoBracketPairSlice(u, k, |r|);
  }

  /** The cleaned text is no longer than the input, has no whitespace at
      either end, and has no `[` followed anywhere later by `]`. */
  lemma CleanedShape(text: string)
    ensures |Cleaned(text)| <= |text|
    ensures Cleaned(text) == [] || (!IsSpace(Cleaned(text)[0]) && !IsSpace(Cleaned(text)[|Cleaned(text)| - 1]))
    ensures NoBracketPair(Cleaned(text))
  {
    if text != [] {
      var r := Strip(Passes(Collapse(Strip(text))));
      assert r == [] || (!IsSpace(r[0]) && !IsSpace(r[|r| - 1]));
      assert Cleaned(text) == r;
      CleanedNoBracketPair(text);
    }
  }

  lemma CleanedNoBracketPair(text: string)
    requires text != []
    ensures NoBracketPair(Cleaned(text))
  {
    var c := Collapse(Strip(text));
    var u := Passes(c);
    CollapseHasNoNewline(Strip(text));
    PassesLeaveNoBracketPair(c);
    StripKeepsNoBracketPair(u);
  }

  /** The pattern matches nowhere in `s`. */
  predicate NoMatch(s: string, parts: seq<string>)
    requires Searchable(parts)
  {
    forall j :: 0 <= j <= |s| ==> MatchEnd(s, parts, j).None?
  }

  /** A text with no whitespace to trim or collapse and none of the four
      patterns in it comes out unchanged. */
  lemma CleanedUnchanged(text: string)
    requires text != [] && Strip(text) == text && Collapse(text) == text
    requires NoMatch(text, BracketSpan) && NoMatch(text, EditNote)
    requires NoMatch(text, ToolbarSpan) && NoMatch(text, ReplyBar)
    ensures Cleaned(text) == text
  {
    RemovePatternsInOrder(text);
    assert text[0..] == text;
    DeleteWithoutMatch(text, BracketSpan, 0);
    DeleteWithoutMatch(text, EditNote, 0);
    DeleteWithoutMatch(text, ToolbarSpan, 0);
    DeleteWithoutMatch(text, ReplyBar, 0);
  }

  // ---------------------------------------------------------------------
  // `_parse_post_content`

  /** What the parser sees of a post page: for each content selector, in
      order, the texts of the elements it selects; and the text of every
      `div`, in document order. */
  datatype PostPage = PostPage(selected: seq<seq<string>>, divs: seq<string>)

  /** Substrings that mark a `div` as reply or toolbar furniture. */
  const SkipMarkers: seq<string> := ["回复", "引用", "举报"]

  /** A `div` long enough (over 50 characters once stripped) and carrying
      none of the skip markers. */
  predicate Eligible(div: string)
  {
    var t := Strip(div);
    |t| > 50 && !Contains(t, SkipMarkers[0]) && !Contains(t, SkipMarkers[1]) && !Contains(t, SkipMarkers[2])
  }

  /** The cleaned first element of the first selector whose first element
      cleans to something non-empty; empty when there is none. */
  function FromSelectors(selected: seq<seq<string>>): string
  {
    if selected == [] then []
    else if selected[0] != [] && Cleaned(selected[0][0]) != [] then Cleaned(selected[0][0])
    else FromSelectors(selected[1..])
  }

  /** The cleaned text of the first eligible `div` (which may clean to
      nothing); empty when there is none. */
  function FromDivs(divs: seq<string>): string
  {
    if divs == [] then []
    else if Eligible(divs[0]) then Cleaned(Strip(divs[0]))
    else FromDivs(divs[1..])
  }

  function PostContent(page: PostPage): (r: Option<string>)
    ensures r.Some? ==> r.value != []
  {
    var fromSelectors := FromSelectors(page.selected);
    var content := if fromSelectors != [] then fromSelectors else FromDivs(page.divs);
    if content != [] then Some(content) else None
  }

  method ParsePostContent(page: PostPage) returns (r: Option<string>)
    ensures r == PostContent(page)
  {
    var content := SelectorText(page.selected);
    if content == [] {
      content := DivText(page.divs);
    }
    r := if content != [] then Some(content) else None;
  }

  /** The loop over the content selectors. */
  method SelectorText(selected: seq<seq<string>>) returns (content: string)
    ensures content == FromSelectors(selected)
  {
    var i := 0;
    while i < |selected|
      invariant 0 <= i <= |selected|
      invariant FromSelectors(selected) == FromSelectors(selected[i..])
    {
      SelectorStep(selected, i);
      var elements := selected[i];
      if elements != [] {
        content := CleanContentText(elements[0]);
        if content != [] {
          return;
        }
      }
      i := i + 1;
    }
    content := "";
  }

  /** The fallback loop over every `div`. */
  method DivText(divs: seq<string>) returns (content: string)
    ensures content == FromDivs(divs)
  {
    var j := 0;
    while j < |divs|
      invariant 0 <= j <= |divs|
      invariant FromDivs(divs) == FromDivs(divs[j..])
    {
      DivStep(divs, j);
      var divText := Strip(divs[j]);
      if |divText| > 50 && !Contains(divText, "回复") && !Contains(divText, "引用") && !Contains(divText, "举报") {
        content := CleanContentText(divText);
        return;
      }
      j := j + 1;
    }
    content := "";
  }

  /** Selector `i` decides when its first element cleans to something;
      otherwise the selectors after it do. */
  lemma SelectorStep(selected: seq<seq<string>>, i: nat)
    requires i < |selected|
    ensures FromSelectors(selected[i..]) ==
      if selected[i] != [] && Cleaned(selected[i][0]) != [] then Cleaned(selected[i][0])
      else FromSelectors(selected[i + 1..])
  {
    assert selected[i..][1..] == selected[i + 1..];
  }

  /** `div` `j` decides when it is eligible; otherwise the `div`s after it do. */
  lemma DivStep(divs: seq<string>, j: nat)
    requires j < |divs|
    ensures FromDivs(divs[j..]) == if Eligible(divs[j]) then Cleaned(Strip(divs[j])) else FromDivs(divs[j + 1..])
  {
    assert divs[j..][1..] == divs[j + 1..];
  }

  /** The first selector whose first element cleans to something non-empty
      decides the content. */
  lemma SelectorWins(selected: seq<seq<string>>, divs: seq<string>, k: nat)
    requires k < |selected| && selected[k] != [] && Cleaned(selected[k][0]) != []
    requires forall j :: 0 <= j < k ==> selected[j] == [] || Cleaned(selected[j][0]) == []
    ensures PostContent(PostPage(selected, divs)) == Some(Cleaned(selected[k][0]))
  {
    FirstSelector(selected, 0, k);
    assert selected[0..] == selected;
  }

  lemma {:induction false} FirstSelector(selected: seq<seq<string>>, i: nat, k: nat)
    requires i <= k < |selected| && selected[k] != [] && Cleaned(selected[k][0]) != []
    requires forall j :: i <= j < k ==> selected[j] == [] || Cleaned(selected[j][0]) == []
    ensures FromSelectors(selected[i..]) == Cleaned(selected[k][0])
    decreases k - i
  {
    SelectorStep(selected, i);
    if i < k {
      FirstSelector(selected, i + 1, k);
    }
  }

  /** When no selector yields text, the first eligible `div` decides: its
      cleaned text, or no content at all if that cleans to nothing. */
  lemma DivFallback(selected: seq<seq<string>>, divs: seq<string>, k: nat)
    requires forall j :: 0 <= j < |selected| ==> selected[j] == [] || Cleaned(selected[j][0]) == []
    requires k < |divs| && Eligible(divs[k])
    requires forall j :: 0 <= j < k ==> !Eligible(divs[j])
    ensures PostContent(PostPage(selected, divs)) ==
      (if Cleaned(Strip(divs[k])) != [] then Some(Cleaned(Strip(divs[k]))) else None)
  {
    NoSelector(selected, 0);
    FirstDiv(divs, 0, k);
    assert selected[0..] == selected;
    assert divs[0..] == divs;
  }

  lemma {:induction false} NoSelector(selected: seq<seq<string>>, i: nat)
    requires i <= |selected|
    requires forall j :: i <= j < |selected| ==> selected[j] == [] || Cleaned(selected[j][0]) == []
    ensures FromSelectors(selected[i..]) == []
    decreases |selected| - i
  {
    if i < |selected| {
      SelectorStep(selected, i);
      NoSelector(selected, i + 1);
    }
  }

  lemma {:induction false} FirstDiv(divs: seq<string>, i: nat, k: nat)
    requires i <= k < |divs| && Eligible(divs[k])
    requires forall j :: i <= j < k ==> !Eligible(divs[j])
    ensures FromDivs(divs[i..]) == Cleaned(Strip(divs[k]))
    decreases k - i
  {
    DivStep(divs, i);
    if i < k {
      FirstDiv(divs, i + 1, k);
    }
  }

  /** Content, when there is any, is non-empty cleaned text: stripped, with
      no bracket pair. */
  lemma ContentShape(page: PostPage)
    ensures PostContent(page).Some? ==> PostContent(page).value != []
    ensures PostContent(page).Some? ==> NoBracketPair(PostContent(page).value)
    ensures PostContent(page).Some? ==>
      !IsSpace(PostContent(page).value[0]) && !IsSpace(PostContent(page).value[|PostContent(page).value| - 1])
  {
    var x := ContentSource(page);
    CleanedShape(x);
  }

  /** The text whose cleaning gives the content. */
  lemma {:induction false} ContentSource(page: PostPage) returns (x: string)
    ensures PostContent(page).Some? ==> PostContent(page).value == Cleaned(x)
  {
    if FromSelectors(page.selected) != [] {
      x := SelectorSource(page.selected);
    } else {
      x := DivSource(page.divs);
    }
  }

  lemma {:induction false} SelectorSource(selected: seq<seq<string>>) returns (x: string)
    ensures FromSelectors(selected) != [] ==> FromSelectors(selected) == Cleaned(x)
  {
    x := [];
    if selected != [] {
      if selected[0] != [] && Cleaned(selected[0][0]) != [] {
        x := selected[0][0];
      } else {
        x := SelectorSource(selected[1..]);
      }
    }
  }

  lemma {:induction false} DivSource(divs: seq<string>) returns (x: string)
    ensures FromDivs(divs) != [] ==> FromDivs(divs) == Cleaned(x)
  {
    x := [];
    if divs != [] {
      if Eligible(divs[0]) {
        x := Strip(divs[0]);
      } else {
        x := DivSource(divs[1..]);
      }
    }
  }

  // ---------------------------------------------------------------------
  // `fetch_post_content`

  /** The content length cap (`MAX_CONTENT_LENGTH`). */
  const MaxContentLength: nat := 5000

  /** Content over the cap keeps its first `max` characters and gains `...`. */
  function Truncate(content: string, max: nat): (r: string)
    ensures |content| <= max ==> r == content
    ensures |content| > max ==> |r| == max + 3 && r[..max] == content[..max] && r[max..] == "..."
  {
    if |content| > max then content[..max] + "..." else content
  }

  /** A fetched post page (`None` when the request failed) to its capped
      content. */
  method FetchPostContent(fetched: Option<PostPage>, max: nat) returns (r: Option<string>)
    ensures fetched.None? ==> r.None?
    ensures fetched.Some? ==> r == (match PostContent(fetched.value)
                                    case None => None
                                    case Some(c) => Some(Truncate(c, max)))
  {
    match fetched
    case None =>
      r := None;
    case Some(page) =>
      var content := ParsePostContent(page);
      if content.Some? && |content.value| > max {
        r := Some(content.value[..max] + "...");
      } else {
        r := content;
      }
  }
}
