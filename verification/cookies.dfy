/**
  `parse_cookie_string` of setup_cookies.py: the value of a `Cookie`
  header (`name=value; name2=value2`) read into a dictionary, later
  entries overwriting earlier ones.
 */
module Cookies {
  import opened Common

  /** No whitespace at either end, as `str.strip()` leaves a string. */
  predicate Stripped(s: string)
  {
    s == [] || (!IsSpace(s[0]) && !IsSpace(s[|s| - 1]))
  }

  /** The key of `pair.split('=', 1)`, stripped: the text before the first `=`. */
  function KeyOf(pair: string): (key: string)
    requires '=' in pair
    ensures '=' !in key && Stripped(key)
  {
    var head := pair[..IndexOfChar(pair, '=')];
    StripContained(head);
    ContainsChars(head, Strip(head));
    Strip(head)
  }

  /** The value of `pair.split('=', 1)`, stripped: the text after the first
      `=`, which may itself hold `=`. */
  function ValueOf(pair: string): (value: string)
    requires '=' in pair
    ensures Stripped(value)
  {
    Strip(pair[IndexOfChar(pair, '=') + 1..])
  }

  /** What one `;`-separated segment contributes: the stripped key and
      value when the stripped segment holds `=`, nothing otherwise. */
  function EntryOf(segment: string): Option<(string, string)>
  {
    var pair := Strip(segment);
    if '=' in pair then Some((KeyOf(pair), ValueOf(pair))) else None
  }

  /** What each segment contributes, in order. */
  function Entries(segments: seq<string>): (entries: seq<Option<(string, string)>>)
    ensures |entries| == |segments|
    ensures forall i :: 0 <= i < |segments| ==> entries[i] == EntryOf(segments[i])
  {
    seq(|segments|, i requires 0 <= i < |segments| => EntryOf(segments[i]))
  }

  /** The dictionary after storing `entries` in order. */
  function Store(entries: seq<Option<(string, string)>>): map<string, string>
  {
    if entries == [] then map[]
    else
      var m := Store(entries[..|entries| - 1]);
      match entries[|entries| - 1]
      case Some((k, v)) => m[k := v]
      case None => m
  }

  /** The dictionary `parse_cookie_string` returns. */
  function CookieMap(cookieString: string): map<string, string>
  {
    if cookieString == [] then map[] else Store(Entries(Split(cookieString, ';')))
  }

  method ParseCookieString(cookieString: string) returns (cookies: map<string, string>)
    ensures cookies == CookieMap(cookieString)
  {
    cookies := map[];
    if cookieString == [] {
      return;
    }
    var pairs := Split(cookieString, ';');
    cookies := StoreAll(pairs);
  }

  /** The loop over the `;`-separated segments. */
  method StoreAll(pairs: seq<string>) returns (cookies: map<string, string>)
    ensures cookies == Store(Entries(pairs))
  {
    cookies := map[];
    ghost var entries := Entries(pairs);
    for i := 0 to |pairs|
      invariant cookies == Store(entries[..i])
    {
      cookies := StoreSegment(cookies, entries, pairs, i, pairs[i]);
    }
    assert entries[..|pairs|] == entries;
  }

  /** One pass of the loop: the key of segment `i`, if it has one, set to
      its value in the dictionary built from the segments before it. */
  method StoreSegment(cookies: map<string, string>, ghost entries: seq<Option<(string, string)>>,
                      ghost pairs: seq<string>, i: nat, segment: string)
    returns (next: map<string, string>)
    requires entries == Entries(pairs) && i < |pairs| && segment == pairs[i]
    requires cookies == Store(entries[..i])
    ensures next == Store(entries[..i + 1])
  {
    StoreStep(entries, i);
    var pair := Strip(segment);
    if '=' in pair {
      next := cookies[KeyOf(pair) := ValueOf(pair)];
    } else {
      next := cookies;
    }
  }

  /** Storing one more entry updates the dictionary with it, if it is one. */
  lemma StoreStep(entries: seq<Option<(string, string)>>, i: nat)
    requires i < |entries|
    ensures Store(entries[..i + 1]) ==
      if entries[i].Some? then Store(entries[..i])[entries[i].value.0 := entries[i].value.1] else Store(entries[..i])
  {
    assert entries[..i + 1][..i] == entries[..i];
  }

  /** Entry `e` sets key `k`. */
  predicate Sets(e: Option<(string, string)>, k: string)
  {
    e.Some? && e.value.0 == k
  }

  /** A key is present exactly when some entry sets it. */
  lemma {:induction false} StoreKeys(entries: seq<Option<(string, string)>>, k: string)
    ensures k in Store(entries) <==> exists i :: 0 <= i < |entries| && Sets(entries[i], k)
  {
    if entries != [] {
      var init := entries[..|entries| - 1];
      StoreKeys(init, k);
      if exists i :: 0 <= i < |init| && Sets(init[i], k) {
        var i :| 0 <= i < |init| && Sets(init[i], k);
        assert entries[i] == init[i];
      }
      if exists i :: 0 <= i < |entries| && Sets(entries[i], k) {
        var i :| 0 <= i < |entries| && Sets(entries[i], k);
        if i < |init| {
          assert init[i] == entries[i];
        }
      }
    }
  }

  /** A key's value comes from the last entry that sets it. */
  lemma {:induction false} StoreLastWins(entries: seq<Option<(string, string)>>, i: nat)
    requires i < |entries| && entries[i].Some?
    requires forall j :: i < j < |entries| ==> !Sets(entries[j], entries[i].value.0)
    ensures entries[i].value.0 in Store(entries) && Store(entries)[entries[i].value.0] == entries[i].value.1
  {
    var init := entries[..|entries| - 1];
    if i < |init| {
      forall j | i < j < |init|
        ensures !Sets(init[j], init[i].value.0)
      {
        assert init[j] == entries[j];
      }
      StoreLastWins(init, i);
    }
  }

  /** Every key and every value carries no whitespace at either end, and no
      key holds `=`. */
  lemma {:induction false} StoreStripped(entries: seq<Option<(string, string)>>)
    requires forall i :: 0 <= i < |entries| && entries[i].Some? ==>
      Stripped(entries[i].value.0) && '=' !in entries[i].value.0 && Stripped(entries[i].value.1)
    ensures forall k :: k in Store(entries) ==> Stripped(k) && '=' !in k && Stripped(Store(entries)[k])
  {
    if entries != [] {
      StoreStripped(entries[..|entries| - 1]);
    }
  }

  /** A segment without `=` contributes nothing; one with `=` contributes a
      stripped key without `=` and a stripped value. */
  lemma EntryShape(segment: string)
    ensures '=' !in Strip(segment) ==> EntryOf(segment) == None
    ensures '=' in Strip(segment) ==>
      EntryOf(segment).Some? &&
      var (k, v) := EntryOf(segment).value; Stripped(k) && '=' !in k && Stripped(v)
  {
  }

  /** The dictionary holds only stripped keys without `=` and stripped values. */
  lemma CookieMapStripped(cookieString: string)
    ensures var m := CookieMap(cookieString);
      forall k :: k in m ==> Stripped(k) && '=' !in k && Stripped(m[k])
  {
    if cookieString != [] {
      var entries := Entries(Split(cookieString, ';'));
      forall i | 0 <= i < |entries| && entries[i].Some?
        ensures Stripped(entries[i].value.0) && '=' !in entries[i].value.0 && Stripped(entries[i].value.1)
      {
        EntryShape(Split(cookieString, ';')[i]);
      }
      StoreStripped(entries);
    }
  }

  /** A pair split at its first `=`: a key without `=` and any value,
      even one holding `=`, read back stripped. */
  lemma SplitAtFirstEquals(key: string, value: string)
    requires '=' !in key
    ensures var pair := key + "=" + value;
      '=' in pair && KeyOf(pair) == Strip(key) && ValueOf(pair) == Strip(value)
  {
    var pair := key + "=" + value;
    assert pair[|key|] == '=';
    assert pair[..|key|] == key;
    assert pair[|key| + 1..] == value;
  }

  /** The empty header gives the empty dictionary. */
  lemma EmptyHeader()
    ensures CookieMap("") == map[]
  {
  }
}
