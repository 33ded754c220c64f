/**
  Insertion-ordered counters: the model of a Python `dict` used as a
  counter (`d[k] = d.get(k, 0) + 1`) and of `collections.Counter`, together
  with the two ways the pipeline reads one back: the stable
  count-descending ranking (`sorted(d.items(), key=count, reverse=True)`
  and `Counter.most_common()`, both of which keep equal counts in
  insertion order) and `max(d.items(), key=count)`, which returns the
  first maximal entry.
 */
module Tallies {
  import opened Common

  /** The keys in insertion order and the count of each. */
  datatype Tally = Tally(keys: seq<string>, counts: map<string, nat>)

  const Empty: Tally := Tally([], map[])

  /** The keys are distinct and are exactly the map's domain. */
  predicate Valid(t: Tally)
  {
    (forall i, j :: 0 <= i < j < |t.keys| ==> t.keys[i] != t.keys[j]) &&
    (forall k :: k in t.counts ==> k in t.keys) &&
    (forall k :: k in t.keys ==> k in t.counts)
  }

  /** `d.get(k, 0)`. */
  function Count(t: Tally, k: string): nat
  {
    if k in t.counts then t.counts[k] else 0
  }

  /** `d[k] = d.get(k, 0) + n`: a new key goes to the end of the order. */
  function Add(t: Tally, k: string, n: nat): (r: Tally)
    ensures Count(r, k) == Count(t, k) + n
    ensures forall j :: j != k ==> Count(r, j) == Count(t, j)
    ensures k in t.counts ==> r.keys == t.keys
    ensures k !in t.counts ==> r.keys == t.keys + [k]
  {
    if k in t.counts then Tally(t.keys, t.counts[k := t.counts[k] + n])
    else Tally(t.keys + [k], t.counts[k := n])
  }

  /** Adding to a well-formed counter keeps it well-formed. */
  lemma AddValid(t: Tally, k: string, n: nat)
    requires Valid(t)
    ensures Valid(Add(t, k, n))
  {
  }

  /** Occurrences of `k` in `items`. */
  function Occ(items: seq<string>, k: string): nat
  {
    if items == [] then 0
    else Occ(items[..|items| - 1], k) + (if items[|items| - 1] == k then 1 else 0)
  }

  /** The counter built by counting `items` one by one, in order. */
  function TallyOf(items: seq<string>): Tally
  {
    if items == [] then Empty
    else Add(TallyOf(items[..|items| - 1]), items[|items| - 1], 1)
  }

  /** A counted sequence gives a well-formed counter. */
  lemma {:induction false} TallyValid(items: seq<string>)
    ensures Valid(TallyOf(items))
  {
    if items != [] {
      TallyValid(items[..|items| - 1]);
      AddValid(TallyOf(items[..|items| - 1]), items[|items| - 1], 1);
    }
  }

  /** Counting one more element adds it to the counter. */
  lemma TallyOfSnoc(items: seq<string>, x: string)
    ensures TallyOf(items + [x]) == Add(TallyOf(items), x, 1)
  {
    assert (items + [x])[..|items|] == items;
  }

  /** Index of the first occurrence of `k`, which must be present. */
  function FirstIndex(items: seq<string>, k: string): (i: nat)
    requires k in items
    ensures i < |items| && items[i] == k
    ensures forall j :: 0 <= j < i ==> items[j] != k
  {
    var prefix := items[..|items| - 1];
    if k in prefix then FirstIndex(prefix, k) else |items| - 1
  }

  /** Counting a sequence gives each key its number of occurrences. */
  lemma {:induction false} TallyCounts(items: seq<string>)
    ensures forall k :: Count(TallyOf(items), k) == Occ(items, k)
  {
    if items != [] {
      TallyCounts(items[..|items| - 1]);
    }
  }

  /** The counted keys are exactly the elements that occur. */
  lemma {:induction false} TallyKeys(items: seq<string>)
    ensures forall k :: k in TallyOf(items).keys <==> k in items
  {
    if items != [] {
      var prefix := items[..|items| - 1];
      TallyKeys(prefix);
      TallyValid(prefix);
      assert items == prefix + [items[|items| - 1]];
    }
  }

  /** Each of `keys` occurs in `items`, and earlier keys occur first earlier. */
  predicate FirstSeenOrder(keys: seq<string>, items: seq<string>)
  {
    forall i, j :: 0 <= i < j < |keys| ==>
      keys[i] in items && keys[j] in items && FirstIndex(items, keys[i]) < FirstIndex(items, keys[j])
  }

  /** The keys are in order of first occurrence. */
  lemma {:induction false} TallyOrder(items: seq<string>)
    ensures FirstSeenOrder(TallyOf(items).keys, items)
  {
    if items != [] {
      var prefix := items[..|items| - 1];
      var x := items[|items| - 1];
      TallyOrder(prefix);
      TallyKeys(prefix);
      TallyValid(prefix);
      var t := TallyOf(prefix);
      var keys := TallyOf(items).keys;
      forall i | 0 <= i < |t.keys|
        ensures t.keys[i] in items && FirstIndex(items, t.keys[i]) == FirstIndex(prefix, t.keys[i])
      {
        assert t.keys[i] in prefix;
      }
      forall i, j | 0 <= i < j < |keys|
        ensures keys[i] in items && keys[j] in items && FirstIndex(items, keys[i]) < FirstIndex(items, keys[j])
      {
        assert keys[i] == t.keys[i];
        if j == |t.keys| {
          assert x !in prefix && keys[j] == x;
        } else {
          assert keys[j] == t.keys[j];
        }
      }
    }
  }

  /** Occurrences add up over a concatenation. */
  lemma {:induction false} OccConcat(a: seq<string>, b: seq<string>, k: string)
    ensures Occ(a + b, k) == Occ(a, k) + Occ(b, k)
  {
    if b == [] {
      assert a + b == a;
    } else {
      OccConcat(a, b[..|b| - 1], k);
      assert (a + b)[..|a + b| - 1] == a + b[..|b| - 1];
    }
  }

  /** `for x in items: c[x] += 1` on an existing counter. */
  function AddAll(t: Tally, items: seq<string>): Tally
  {
    if items == [] then t else Add(AddAll(t, items[..|items| - 1]), items[|items| - 1], 1)
  }

  /** Counting more items adds their occurrences to every count. */
  lemma {:induction false} AddAllCount(t: Tally, items: seq<string>)
    ensures forall k :: Count(AddAll(t, items), k) == Count(t, k) + Occ(items, k)
  {
    if items != [] {
      AddAllCount(t, items[..|items| - 1]);
    }
  }

  lemma {:induction false} AddAllValid(t: Tally, items: seq<string>)
    requires Valid(t)
    ensures Valid(AddAll(t, items))
  {
    if items != [] {
      AddAllValid(t, items[..|items| - 1]);
      AddValid(AddAll(t, items[..|items| - 1]), items[|items| - 1], 1);
    }
  }

  /** `t.update(u)` for a `Counter` `u`: each key of `u`, in `u`'s order,
      has its count added. */
  function Merge(t: Tally, u: Tally): Tally
  {
    MergeKeys(t, u, u.keys)
  }

  function MergeKeys(t: Tally, u: Tally, keys: seq<string>): Tally
  {
    if keys == [] then t
    else Add(MergeKeys(t, u, keys[..|keys| - 1]), keys[|keys| - 1], Count(u, keys[|keys| - 1]))
  }

  lemma {:induction false} MergeKeysCount(t: Tally, u: Tally, keys: seq<string>)
    requires forall i, j :: 0 <= i < j < |keys| ==> keys[i] != keys[j]
    ensures forall k :: Count(MergeKeys(t, u, keys), k) == Count(t, k) + (if k in keys then Count(u, k) else 0)
  {
    if keys != [] {
      var prefix := keys[..|keys| - 1];
      MergeKeysCount(t, u, prefix);
      assert keys == prefix + [keys[|keys| - 1]];
    }
  }

  /** Merging a well-formed counter adds its counts. */
  lemma MergeCount(t: Tally, u: Tally)
    requires Valid(u)
    ensures forall k :: Count(Merge(t, u), k) == Count(t, k) + Count(u, k)
  {
    MergeKeysCount(t, u, u.keys);
  }

  // ---------------------------------------------------------------------
  // Totals.

  /** The sum of the counts of `keys`. */
  function SumOver(keys: seq<string>, counts: map<string, nat>): nat
  {
    if keys == [] then 0
    else
      var k := keys[|keys| - 1];
      SumOver(keys[..|keys| - 1], counts) + (if k in counts then counts[k] else 0)
  }

  /** `sum(d.values())`. */
  function Total(t: Tally): nat
  {
    SumOver(t.keys, t.counts)
  }

  /** Changing the count of one key that occurs once changes the sum by the difference. */
  lemma {:induction false} SumOverUpdate(keys: seq<string>, m: map<string, nat>, m': map<string, nat>, k: string)
    requires forall i, j :: 0 <= i < j < |keys| ==> keys[i] != keys[j]
    requires forall j :: j != k ==> (j in m <==> j in m') && (j in m ==> m[j] == m'[j])
    ensures k in keys ==>
      SumOver(keys, m') + (if k in m then m[k] else 0) == SumOver(keys, m) + (if k in m' then m'[k] else 0)
    ensures k !in keys ==> SumOver(keys, m') == SumOver(keys, m)
  {
    if keys != [] {
      var prefix := keys[..|keys| - 1];
      SumOverUpdate(prefix, m, m', k);
      if keys[|keys| - 1] == k {
        assert k !in prefix;
      }
    }
  }

  /** The counts of a counted sequence add up to its length. */
  lemma {:induction false} TotalOfTally(items: seq<string>)
    ensures Total(TallyOf(items)) == |items|
  {
    if items != [] {
      var prefix := items[..|items| - 1];
      var x := items[|items| - 1];
      TotalOfTally(prefix);
      TallyValid(prefix);
      var t := TallyOf(prefix);
      var r := TallyOf(items);
      if x in t.keys {
        SumOverUpdate(t.keys, t.counts, r.counts, x);
      } else {
        SumOverUpdate(t.keys, t.counts, r.counts, x);
        assert r.keys[..|r.keys| - 1] == t.keys;
      }
    }
  }

  lemma {:induction false} SumOverConcat(a: seq<string>, b: seq<string>, m: map<string, nat>)
    ensures SumOver(a + b, m) == SumOver(a, m) + SumOver(b, m)
  {
    if b != [] {
      SumOverConcat(a, b[..|b| - 1], m);
      assert (a + b)[..|a + b| - 1] == a + b[..|b| - 1];
    } else {
      assert a + b == a;
    }
  }

  /** Removing the element at `i` takes it out of the multiset and its count out of the sum. */
  lemma RemoveAt(b: seq<string>, i: nat, m: map<string, nat>)
    requires i < |b|
    ensures multiset(b[..i] + b[i + 1..]) == multiset(b) - multiset{b[i]}
    ensures SumOver(b, m) == SumOver(b[..i] + b[i + 1..], m) + (if b[i] in m then m[b[i]] else 0)
  {
    var x := b[i];
    assert b == b[..i] + [x] + b[i + 1..];
    SumOverConcat(b[..i] + [x], b[i + 1..], m);
    SumOverConcat(b[..i], [x], m);
    SumOverConcat(b[..i], b[i + 1..], m);
    assert SumOver([x], m) == SumOver([], m) + (if x in m then m[x] else 0);
  }

  /** Reordering the keys does not change the sum. */
  lemma {:induction false} SumOverPermutation(a: seq<string>, b: seq<string>, m: map<string, nat>)
    requires multiset(a) == multiset(b)
    ensures SumOver(a, m) == SumOver(b, m)
    decreases |a|
  {
    if a == [] {
      assert |b| == |multiset(b)| == 0;
    } else {
      var x := a[|a| - 1];
      var a' := a[..|a| - 1];
      assert a == a' + [x];
      assert multiset(a') == multiset(a) - multiset{x};
      assert x in multiset(b);
      var i :| 0 <= i < |b| && b[i] == x;
      RemoveAt(b, i, m);
      SumOverPermutation(a', b[..i] + b[i + 1..], m);
    }
  }

  /** The sum of the count column of a table. */
  function RowsTotal(rows: seq<(string, nat)>): nat
  {
    if rows == [] then 0 else RowsTotal(rows[..|rows| - 1]) + rows[|rows| - 1].1
  }

  // ---------------------------------------------------------------------
  // Ranking.

  /** `s` is in non-increasing order of count. */
  predicate RankedBy(t: Tally, s: seq<string>)
  {
    forall i, j :: 0 <= i < j < |s| ==> Count(t, s[i]) >= Count(t, s[j])
  }

  /** The elements of `s` whose count is `c`, in order. */
  function WithCount(t: Tally, s: seq<string>, c: nat): seq<string>
  {
    if s == [] then []
    else WithCount(t, s[..|s| - 1], c) + (if Count(t, s[|s| - 1]) == c then [s[|s| - 1]] else [])
  }

  /** Place `k` after every element whose count is at least its own. */
  function Insert(t: Tally, s: seq<string>, k: string): seq<string>
  {
    if s == [] || Count(t, s[|s| - 1]) >= Count(t, k) then s + [k]
    else Insert(t, s[..|s| - 1], k) + [s[|s| - 1]]
  }

  /** The stable count-descending order of `keys`. */
  function RankKeys(t: Tally, keys: seq<string>): seq<string>
  {
    if keys == [] then []
    else Insert(t, RankKeys(t, keys[..|keys| - 1]), keys[|keys| - 1])
  }

  /** `sorted(d.items(), key=count, reverse=True)` / `Counter.most_common()`,
      as the sequence of keys. */
  function Ranked(t: Tally): seq<string>
  {
    RankKeys(t, t.keys)
  }

  lemma {:induction false} InsertPermutes(t: Tally, s: seq<string>, k: string)
    ensures multiset(Insert(t, s, k)) == multiset(s) + multiset{k}
  {
    if !(s == [] || Count(t, s[|s| - 1]) >= Count(t, k)) {
      var prefix := s[..|s| - 1];
      InsertPermutes(t, prefix, k);
      assert s == prefix + [s[|s| - 1]];
    }
  }

  lemma {:induction false} InsertRanked(t: Tally, s: seq<string>, k: string)
    requires RankedBy(t, s)
    ensures RankedBy(t, Insert(t, s, k))
  {
    var r := Insert(t, s, k);
    if !(s == [] || Count(t, s[|s| - 1]) >= Count(t, k)) {
      var prefix := s[..|s| - 1];
      var last := s[|s| - 1];
      InsertRanked(t, prefix, k);
      InsertPermutes(t, prefix, k);
      var r' := Insert(t, prefix, k);
      assert r == r' + [last];
      forall i | 0 <= i < |r'| ensures Count(t, r'[i]) >= Count(t, last) {
        assert r'[i] in multiset(r');
        if r'[i] != k {
          assert r'[i] in multiset(prefix);
          var m :| 0 <= m < |prefix| && prefix[m] == r'[i];
          assert s[m] == prefix[m];
        }
      }
    }
  }

  lemma {:induction false} InsertWithCount(t: Tally, s: seq<string>, k: string, c: nat)
    requires RankedBy(t, s)
    ensures WithCount(t, Insert(t, s, k), c) == WithCount(t, s, c) + (if Count(t, k) == c then [k] else [])
  {
    var r := Insert(t, s, k);
    if s == [] || Count(t, s[|s| - 1]) >= Count(t, k) {
      assert r[..|r| - 1] == s;
    } else {
      var prefix := s[..|s| - 1];
      var last := s[|s| - 1];
      InsertWithCount(t, prefix, k, c);
      var r' := Insert(t, prefix, k);
      assert r[..|r| - 1] == r';
    }
  }

  /** The ranking is a permutation of the keys, in non-increasing count
      order, and keys with equal counts keep their insertion order. */
  lemma {:induction false} RankKeysSpec(t: Tally, keys: seq<string>)
    ensures multiset(RankKeys(t, keys)) == multiset(keys)
    ensures RankedBy(t, RankKeys(t, keys))
    ensures forall c :: WithCount(t, RankKeys(t, keys), c) == WithCount(t, keys, c)
  {
    if keys != [] {
      var prefix := keys[..|keys| - 1];
      RankKeysSpec(t, prefix);
      var last := keys[|keys| - 1];
      InsertPermutes(t, RankKeys(t, prefix), last);
      InsertRanked(t, RankKeys(t, prefix), last);
      forall c ensures WithCount(t, RankKeys(t, keys), c) == WithCount(t, keys, c) {
        InsertWithCount(t, RankKeys(t, prefix), last, c);
      }
      assert keys == prefix + [last];
    }
  }

  /** The rows of a ranked table: each key with its count. */
  function Rows(t: Tally, keys: seq<string>): (r: seq<(string, nat)>)
    ensures |r| == |keys|
    ensures forall i :: 0 <= i < |r| ==> r[i] == (keys[i], Count(t, keys[i]))
  {
    if keys == [] then [] else Rows(t, keys[..|keys| - 1]) + [(keys[|keys| - 1], Count(t, keys[|keys| - 1]))]
  }

  predicate Distinct(s: seq<string>)
  {
    forall i, j :: 0 <= i < j < |s| ==> s[i] != s[j]
  }

  lemma {:induction false} DistinctMultiplicity(a: seq<string>, x: string)
    requires Distinct(a)
    ensures multiset(a)[x] <= 1
  {
    if a != [] {
      var a' := a[..|a| - 1];
      DistinctMultiplicity(a', x);
      assert a == a' + [a[|a| - 1]];
      if a[|a| - 1] == x {
        assert x !in a';
      }
    }
  }

  /** A reordering of a sequence without repeats has no repeats. */
  lemma PermutationDistinct(a: seq<string>, b: seq<string>)
    requires multiset(a) == multiset(b) && Distinct(a)
    ensures Distinct(b)
  {
    forall i, j | 0 <= i < j < |b| ensures b[i] != b[j] {
      if b[i] == b[j] {
        var x := b[i];
        assert b == b[..i] + [x] + b[i + 1..j] + [x] + b[j + 1..];
        assert multiset(b)[x] >= 2;
        DistinctMultiplicity(a, x);
        assert false;
      }
    }
  }

  /** The ranked table of a counted sequence has one row per distinct
      element, holding its number of occurrences. */
  lemma RankedTableRows(items: seq<string>)
    ensures forall k :: k in Ranked(TallyOf(items)) <==> k in items
    ensures Distinct(Ranked(TallyOf(items)))
    ensures forall i :: 0 <= i < |Ranked(TallyOf(items))| ==>
      Rows(TallyOf(items), Ranked(TallyOf(items)))[i] ==
        (Ranked(TallyOf(items))[i], Occ(items, Ranked(TallyOf(items))[i]))
  {
    var t := TallyOf(items);
    RankKeysSpec(t, t.keys);
    TallyKeys(items);
    TallyValid(items);
    TallyCounts(items);
    forall k ensures k in Ranked(t) <==> k in items {
      assert k in Ranked(t) <==> k in multiset(Ranked(t));
      assert k in t.keys <==> k in multiset(t.keys);
    }
    PermutationDistinct(t.keys, Ranked(t));
  }

  /** The ranked table of a counted sequence is in non-increasing count
      order, and elements of equal count keep the counter's order, which is
      the order of first occurrence. */
  lemma RankedTableOrder(items: seq<string>)
    ensures RankedBy(TallyOf(items), Ranked(TallyOf(items)))
    ensures forall c ::
      WithCount(TallyOf(items), Ranked(TallyOf(items)), c) == WithCount(TallyOf(items), TallyOf(items).keys, c)
    ensures FirstSeenOrder(TallyOf(items).keys, items)
  {
    RankKeysSpec(TallyOf(items), TallyOf(items).keys);
    TallyOrder(items);
  }

  /** The counts of the ranked table of a sequence add up to its length. */
  lemma RankedTableTotal(items: seq<string>)
    ensures RowsTotal(Rows(TallyOf(items), Ranked(TallyOf(items)))) == |items|
  {
    RankedRowsTotal(TallyOf(items));
    TotalOfTally(items);
  }

  /** The rows of a table list each key's count, so they add up to the sum over the keys. */
  lemma {:induction false} RowsTotalOf(t: Tally, keys: seq<string>)
    ensures RowsTotal(Rows(t, keys)) == SumOver(keys, t.counts)
  {
    if keys != [] {
      RowsTotalOf(t, keys[..|keys| - 1]);
      assert Rows(t, keys)[..|keys| - 1] == Rows(t, keys[..|keys| - 1]);
    }
  }

  /** The ranked table of a counter adds up to the counter's total. */
  lemma RankedRowsTotal(t: Tally)
    ensures RowsTotal(Rows(t, Ranked(t))) == Total(t)
  {
    RowsTotalOf(t, Ranked(t));
    RankKeysSpec(t, t.keys);
    SumOverPermutation(Ranked(t), t.keys, t.counts);
  }

  /** `Counter.most_common(n)`: the first `n` keys of the ranking, none
      when `n` is not positive. */
  function TopKeys(t: Tally, n: int): (r: seq<string>)
    ensures n <= 0 ==> r == []
    ensures 0 < n ==> r == Ranked(t)[..if n < |Ranked(t)| then n else |Ranked(t)|]
  {
    var ranked := Ranked(t);
    if n <= 0 then [] else ranked[..if n < |ranked| then n else |ranked|]
  }

  /** The rows whose count is at least `min`, in their order in `rows`. */
  function AtLeast(rows: seq<(string, nat)>, min: int): (r: seq<(string, nat)>)
    ensures forall i :: 0 <= i < |r| ==> r[i].1 >= min && r[i] in rows
    ensures forall i :: 0 <= i < |rows| && rows[i].1 >= min ==> rows[i] in r
    ensures IsSubsequence(r, rows)
  {
    if rows == [] then []
    else
      var prefix := rows[..|rows| - 1];
      var kept := AtLeast(prefix, min);
      if rows[|rows| - 1].1 >= min then
        assert (kept + [rows[|rows| - 1]])[..|kept|] == kept;
        kept + [rows[|rows| - 1]]
      else kept
  }

  // ---------------------------------------------------------------------
  // The first maximal entry.

  /** `max(d.items(), key=count)`: the first entry of maximal count, or
      `None` for an empty counter. */
  function FirstMax(t: Tally): (r: Option<(string, nat)>)
    ensures r.None? <==> t.keys == []
    ensures r.Some? ==> r.value.1 == Count(t, r.value.0)
    ensures r.Some? ==>
      exists i :: 0 <= i < |t.keys| && t.keys[i] == r.value.0 &&
        (forall j :: 0 <= j < i ==> Count(t, t.keys[j]) < r.value.1) &&
        (forall j :: i < j < |t.keys| ==> Count(t, t.keys[j]) <= r.value.1)
  {
    if t.keys == [] then None
    else
      var i := MaxIndex(t, t.keys);
      Some((t.keys[i], Count(t, t.keys[i])))
  }

  /** The first index of `keys` whose count is maximal. */
  function MaxIndex(t: Tally, keys: seq<string>): (i: nat)
    requires keys != []
    ensures i < |keys|
    ensures forall j :: 0 <= j < i ==> Count(t, keys[j]) < Count(t, keys[i])
    ensures forall j :: i < j < |keys| ==> Count(t, keys[j]) <= Count(t, keys[i])
  {
    if |keys| == 1 then 0
    else
      var i := MaxIndex(t, keys[..|keys| - 1]);
      var last := |keys| - 1;
      assert keys[i] == keys[..|keys| - 1][i];
      if Count(t, keys[last]) > Count(t, keys[i]) then last else i
  }
}
