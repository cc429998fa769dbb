/** The bodies of `api_top_states` and `api_top_cities`:
    `groupby(keys, dropna=False).size()`, sorted by count descending,
    truncated with `head(limit)`, then missing keys relabelled "Unknown".
    pandas' `sort_values` is not stable, so the order among groups of equal
    size is unspecified: `IsTopRanking` states what holds whatever that
    order is, and the model's own sort is only one of the orders it admits. */
module Ranking {
  import opened Wrappers
  import opened Seqs
  import opened Schema

  /** One output row: a group's key and its number of rows. */
  datatype Group<K> = Group(key: K, count: nat)

  function KeysOf<K>(gs: seq<Group<K>>): seq<K> {
    Map(gs, (g: Group<K>) => g.key)
  }

  predicate UniqueKeys<K(==)>(gs: seq<Group<K>>) {
    Distinct(KeysOf(gs))
  }

  predicate NonIncreasing<K>(gs: seq<Group<K>>) {
    forall i, j :: 0 <= i < j < |gs| ==> gs[i].count >= gs[j].count
  }

  function SumCounts<K>(gs: seq<Group<K>>): nat {
    if gs == [] then 0 else SumCounts(gs[..|gs| - 1]) + gs[|gs| - 1].count
  }

  /** The distinct keys, in order of first occurrence. */
  function DistinctKeys<K(==)>(keys: seq<K>): (d: seq<K>)
    ensures Distinct(d)
    ensures forall k :: k in keys ==> k in d
    ensures forall k :: k in d ==> k in keys
  {
    if keys == [] then []
    else
      var init, last := keys[..|keys| - 1], keys[|keys| - 1];
      assert keys == init + [last];
      var d := DistinctKeys(init);
      if last in d then d else d + [last]
  }

  /** `groupby(key, dropna=False).size()`: one group per distinct key, the
      missing marker being a key like any other, holding the number of rows
      with that key. */
  function GroupSizes<K(==)>(keys: seq<K>): (gs: seq<Group<K>>)
    ensures UniqueKeys(gs)
    ensures forall g :: g in gs ==> g.key in keys && g.count == multiset(keys)[g.key]
    ensures forall k :: k in keys ==> Group(k, multiset(keys)[k]) in gs
    ensures |gs| == |set k | k in keys|
  {
    var d := DistinctKeys(keys);
    GroupsOfDistinctKeys(keys, d);
    Map(d, GroupOf(keys))
  }

  /** The group of key `k`: `k` with its number of rows. */
  function GroupOf<K(==)>(keys: seq<K>): K -> Group<K> {
    k => Group(k, multiset(keys)[k])
  }

  /** One group per element of a repetition-free list of the keys. */
  lemma GroupsOfDistinctKeys<K>(keys: seq<K>, d: seq<K>)
    requires Distinct(d)
    requires forall k :: k in keys <==> k in d
    ensures var gs := Map(d, GroupOf(keys));
            && UniqueKeys(gs)
            && (forall g :: g in gs ==> g.key in keys && g.count == multiset(keys)[g.key])
            && (forall k :: k in keys ==> Group(k, multiset(keys)[k]) in gs)
            && |gs| == |set k | k in keys|
  {
    var gs := Map(d, GroupOf(keys));
    assert KeysOf(gs) == d;
    DistinctCardinality(d);
    assert (set k | k in keys) == (set k | k in d);
    forall k | k in keys
      ensures Group(k, multiset(keys)[k]) in gs
    {
      var i :| 0 <= i < |d| && d[i] == k;
      assert gs[i] == Group(k, multiset(keys)[k]);
    }
  }

  /** No group of `s` has more than `c` rows. */
  predicate AtMost<K>(s: seq<Group<K>>, c: nat) {
    forall j :: 0 <= j < |s| ==> s[j].count <= c
  }

  lemma AtMostWithOneMore<K>(s: seq<Group<K>>, g: Group<K>, r: seq<Group<K>>, c: nat)
    requires AtMost(s, c) && g.count <= c
    requires multiset(r) == multiset(s) + multiset{g}
    ensures AtMost(r, c)
  {
    forall j | 0 <= j < |r|
      ensures r[j].count <= c
    {
      assert r[j] in multiset(r);
      if r[j] != g {
        assert r[j] in multiset(s);
        var k :| 0 <= k < |s| && s[k] == r[j];
      }
    }
  }

  lemma ConsNonIncreasing<K>(x: Group<K>, s: seq<Group<K>>)
    requires NonIncreasing(s) && AtMost(s, x.count)
    ensures NonIncreasing([x] + s)
  {
  }

  /** Inserts `g` into a list sorted by descending count. */
  function Insert<K(==)>(g: Group<K>, s: seq<Group<K>>): (r: seq<Group<K>>)
    requires NonIncreasing(s)
    ensures NonIncreasing(r)
    ensures multiset(r) == multiset(s) + multiset{g}
  {
    if s == [] || g.count >= s[0].count then
      assert AtMost(s, g.count);
      ConsNonIncreasing(g, s);
      [g] + s
    else
      var r' := Insert(g, s[1..]);
      assert s == [s[0]] + s[1..];
      AtMostWithOneMore(s[1..], g, r', s[0].count);
      ConsNonIncreasing(s[0], r');
      [s[0]] + r'
  }

  /** `sort_values('count', ascending=False)`: a permutation of the groups
      in which counts never increase. */
  function SortByCount<K(==)>(gs: seq<Group<K>>): (r: seq<Group<K>>)
    ensures NonIncreasing(r)
    ensures multiset(r) == multiset(gs)
  {
    if gs == [] then []
    else
      assert gs == [gs[0]] + gs[1..];
      Insert(gs[0], SortByCount(gs[1..]))
  }

  /** The ranking before relabelling: group, sort, `head(limit)`. */
  function Ranked<K(==)>(keys: seq<K>, limit: nat): seq<Group<K>> {
    var sorted := SortByCount(GroupSizes(keys));
    sorted[..Min(limit, |sorted|)]
  }

  /** What any result of group, sort by count descending and `head(limit)`
      satisfies, whatever order ties are left in: as many groups as the limit
      and the distinct keys allow, each key once, counts never increasing,
      each count the true number of rows with that key, the counts adding up
      to at most the number of rows, no group left out that is larger than
      one kept, and none left out at all when fewer than `limit` are kept. */
  ghost predicate IsTopRanking<K>(keys: seq<K>, limit: nat, r: seq<Group<K>>) {
    && |r| == Min(limit, |set k | k in keys|)
    && UniqueKeys(r)
    && NonIncreasing(r)
    && (forall i :: 0 <= i < |r| ==> r[i].key in keys && r[i].count == multiset(keys)[r[i].key])
    && SumCounts(r) <= |keys|
    && (forall k :: k in keys && k !in KeysOf(r) ==>
          forall i :: 0 <= i < |r| ==> multiset(keys)[k] <= r[i].count)
    && (|r| < limit ==> forall k :: k in keys ==> k in KeysOf(r))
  }

  /** The model's ranking is a top ranking. */
  lemma RankedIsTopRanking<K>(keys: seq<K>, limit: nat)
    ensures IsTopRanking(keys, limit, Ranked(keys, limit))
  {
    var gs := GroupSizes(keys);
    HeadOfSortedIsTop(keys, limit, gs, SortByCount(gs));
  }

  /** `head(limit)` of any count-descending permutation of `groupby`'s
      groups is a top ranking. */
  lemma HeadOfSortedIsTop<K>(keys: seq<K>, limit: nat, gs: seq<Group<K>>, sorted: seq<Group<K>>)
    requires UniqueKeys(gs)
    requires forall g :: g in gs ==> g.key in keys && g.count == multiset(keys)[g.key]
    requires forall k :: k in keys ==> Group(k, multiset(keys)[k]) in gs
    requires |gs| == |set k | k in keys|
    requires multiset(sorted) == multiset(gs) && NonIncreasing(sorted)
    ensures IsTopRanking(keys, limit, sorted[..Min(limit, |sorted|)])
  {
    var m := Min(limit, |sorted|);
    var r := sorted[..m];
    assert |sorted| == |gs| by {
      assert |multiset(sorted)| == |multiset(gs)|;
    }
    SortedUniqueKeys(keys, gs, sorted);
    SortedTrueCounts(keys, gs, sorted);
    PrefixKeepsOrder(sorted, m);
    assert forall i :: 0 <= i < |r| ==> r[i].key in keys && r[i].count == multiset(keys)[r[i].key];
    NothingLargerLeftOut(keys, gs, sorted, m);
    SumBound(keys, r);
    if m < limit {
      assert r == sorted;
      SortedCoversKeys(keys, gs, sorted);
    }
  }

  /** Sorting loses no group, so every key has its group in the sorted list. */
  lemma SortedCoversKeys<K>(keys: seq<K>, gs: seq<Group<K>>, sorted: seq<Group<K>>)
    requires forall k :: k in keys ==> Group(k, multiset(keys)[k]) in gs
    requires multiset(sorted) == multiset(gs)
    ensures forall k :: k in keys ==> k in KeysOf(sorted)
  {
    forall k | k in keys
      ensures k in KeysOf(sorted)
    {
      assert Group(k, multiset(keys)[k]) in multiset(sorted);
      var p :| 0 <= p < |sorted| && sorted[p] == Group(k, multiset(keys)[k]);
      assert KeysOf(sorted)[p] == k;
    }
  }

  /** Every group of the sorted list is one of `groupby`'s groups. */
  lemma SortedTrueCounts<K>(keys: seq<K>, gs: seq<Group<K>>, sorted: seq<Group<K>>)
    requires forall g :: g in gs ==> g.key in keys && g.count == multiset(keys)[g.key]
    requires multiset(sorted) == multiset(gs)
    ensures forall i :: 0 <= i < |sorted| ==>
              sorted[i].key in keys && sorted[i].count == multiset(keys)[sorted[i].key]
  {
    forall i | 0 <= i < |sorted|
      ensures sorted[i].key in keys && sorted[i].count == multiset(keys)[sorted[i].key]
    {
      assert sorted[i] in multiset(gs);
    }
  }

  /** `head(m)` keeps the keys unique and the counts non-increasing. */
  lemma PrefixKeepsOrder<K>(sorted: seq<Group<K>>, m: int)
    requires 0 <= m <= |sorted|
    requires UniqueKeys(sorted) && NonIncreasing(sorted)
    ensures UniqueKeys(sorted[..m]) && NonIncreasing(sorted[..m])
  {
  }

  /** No group outside `head(m)` of the sorted list is larger than one in it. */
  lemma NothingLargerLeftOut<K>(keys: seq<K>, gs: seq<Group<K>>, sorted: seq<Group<K>>, m: int)
    requires 0 <= m <= |sorted|
    requires forall k :: k in keys ==> Group(k, multiset(keys)[k]) in gs
    requires multiset(sorted) == multiset(gs)
    requires NonIncreasing(sorted)
    ensures forall k :: k in keys && k !in KeysOf(sorted[..m]) ==>
              forall i :: 0 <= i < m ==> multiset(keys)[k] <= sorted[..m][i].count
  {
    var r := sorted[..m];
    forall k | k in keys && k !in KeysOf(r)
      ensures forall i :: 0 <= i < m ==> multiset(keys)[k] <= r[i].count
    {
      var g := Group(k, multiset(keys)[k]);
      assert g in multiset(sorted);
      var p :| 0 <= p < |sorted| && sorted[p] == g;
      assert p >= m;
    }
  }

  /** Sorting the group list keeps its keys unique. */
  lemma SortedUniqueKeys<K>(keys: seq<K>, gs: seq<Group<K>>, sorted: seq<Group<K>>)
    requires UniqueKeys(gs)
    requires forall g :: g in gs ==> g.count == multiset(keys)[g.key]
    requires multiset(sorted) == multiset(gs)
    ensures UniqueKeys(sorted)
  {
    assert Distinct(gs);
    DistinctPermutation(gs, sorted);
    forall i, j | 0 <= i < j < |sorted|
      ensures sorted[i].key != sorted[j].key
    {
      assert sorted[i] in multiset(gs) && sorted[j] in multiset(gs);
    }
  }

  /** Sum of the multiplicities in `keys` of each key of `ks`. */
  function SumMultiplicities<K(==)>(keys: seq<K>, ks: seq<K>): nat {
    if ks == [] then 0
    else SumMultiplicities(keys, ks[..|ks| - 1]) + multiset(keys)[ks[|ks| - 1]]
  }

  lemma {:induction false} SumCountsIsSumMultiplicities<K>(keys: seq<K>, gs: seq<Group<K>>)
    requires forall i :: 0 <= i < |gs| ==> gs[i].count == multiset(keys)[gs[i].key]
    ensures SumCounts(gs) == SumMultiplicities(keys, KeysOf(gs))
  {
    if gs != [] {
      var init := gs[..|gs| - 1];
      SumCountsIsSumMultiplicities(keys, init);
      assert KeysOf(gs)[..|gs| - 1] == KeysOf(init);
    }
  }

  /** Dropping the last row removes its key's share from the sum. */
  lemma {:induction false} SumMultiplicitiesDropLast<K>(keys: seq<K>, ks: seq<K>)
    requires keys != []
    ensures SumMultiplicities(keys, ks) ==
            SumMultiplicities(keys[..|keys| - 1], ks) + multiset(ks)[keys[|keys| - 1]]
  {
    var init, last := keys[..|keys| - 1], keys[|keys| - 1];
    assert keys == init + [last];
    if ks != [] {
      var ks' := ks[..|ks| - 1];
      SumMultiplicitiesDropLast(keys, ks');
      assert ks == ks' + [ks[|ks| - 1]];
    }
  }

  /** Over distinct keys, the multiplicities add up to the number of rows
      whose key is among them. */
  lemma {:induction false} SumMultiplicitiesDistinct<K>(keys: seq<K>, ks: seq<K>)
    requires Distinct(ks)
    ensures SumMultiplicities(keys, ks) == Count(keys, k => k in ks)
  {
    if keys == [] {
      SumMultiplicitiesEmpty(ks);
    } else {
      SumMultiplicitiesDistinct(keys[..|keys| - 1], ks);
      SumMultiplicitiesDropLast(keys, ks);
      DistinctMultiplicity(ks, keys[|keys| - 1]);
    }
  }

  lemma {:induction false} SumMultiplicitiesEmpty<K>(ks: seq<K>)
    ensures SumMultiplicities([], ks) == 0
  {
    if ks != [] {
      SumMultiplicitiesEmpty(ks[..|ks| - 1]);
    }
  }

  /** Groups with unique keys and true counts hold at most all the rows. */
  lemma SumBound<K>(keys: seq<K>, gs: seq<Group<K>>)
    requires UniqueKeys(gs)
    requires forall i :: 0 <= i < |gs| ==> gs[i].count == multiset(keys)[gs[i].key]
    ensures SumCounts(gs) <= |keys|
  {
    SumCountsIsSumMultiplicities(keys, gs);
    SumMultiplicitiesDistinct(keys, KeysOf(gs));
  }

  /** With `dropna=False` the groups partition the rows: their sizes add up
      to the number of rows. */
  lemma GroupsPartitionRows<K>(keys: seq<K>)
    ensures SumCounts(GroupSizes(keys)) == |keys|
  {
    var gs := GroupSizes(keys);
    assert forall i :: 0 <= i < |gs| ==> gs[i] in gs;
    SumCountsIsSumMultiplicities(keys, gs);
    SumMultiplicitiesDistinct(keys, KeysOf(gs));
    var q := k => k in KeysOf(gs);
    forall k | k in keys
      ensures q(k)
    {
      var g := Group(k, multiset(keys)[k]);
      var i :| 0 <= i < |gs| && gs[i] == g;
      assert KeysOf(gs)[i] == k;
    }
    CountAll(keys, q);
  }

  /** `fillna('Unknown')` on a key column. */
  const UNKNOWN: string := "Unknown"

  function Label(o: Option<string>): string {
    o.GetOr(UNKNOWN)
  }

  function CityLabel(k: (Option<string>, Option<string>)): (string, string) {
    (Label(k.0), Label(k.1))
  }

  /** Replaces every key by its label, keeping the counts. */
  function Relabel<K, L>(gs: seq<Group<K>>, f: K -> L): seq<Group<L>> {
    Map(gs, (g: Group<K>) => Group(f(g.key), g.count))
  }

  /** Relabelling keeps every count in place. */
  lemma RelabelKeepsCounts<K, L>(gs: seq<Group<K>>, f: K -> L)
    ensures |Relabel(gs, f)| == |gs|
    ensures NonIncreasing(gs) ==> NonIncreasing(Relabel(gs, f))
    ensures SumCounts(Relabel(gs, f)) == SumCounts(gs)
  {
    if gs != [] {
      var init := gs[..|gs| - 1];
      RelabelKeepsCounts(init, f);
      assert Relabel(gs, f)[..|gs| - 1] == Relabel(init, f);
    }
  }

  function CityKeys(t: seq<Record>): seq<(Option<string>, Option<string>)> {
    Map(t, (r: Record) => (r.state, r.city))
  }

  /** Each group of `r` carries the label `f(k)` of some key `k` of the rows
      and that key's row count. */
  ghost predicate LabelledFrom<K, L>(r: seq<Group<L>>, keys: seq<K>, f: K -> L) {
    forall i :: 0 <= i < |r| ==>
      exists k :: k in keys && r[i].key == f(k) && r[i].count == multiset(keys)[k]
  }

  lemma RelabelLabels<K, L>(keys: seq<K>, gs: seq<Group<K>>, f: K -> L)
    requires forall i :: 0 <= i < |gs| ==> gs[i].key in keys && gs[i].count == multiset(keys)[gs[i].key]
    ensures LabelledFrom(Relabel(gs, f), keys, f)
  {
    var r := Relabel(gs, f);
    forall i | 0 <= i < |r|
      ensures exists k :: k in keys && r[i].key == f(k) && r[i].count == multiset(keys)[k]
    {
      var k := gs[i].key;
      assert r[i].key == f(k) && r[i].count == gs[i].count;
    }
  }

  /** Every group larger than the smallest one kept, or every group at all
      when fewer than `limit` are kept, appears in `r` under its label. */
  ghost predicate KeepsLargest<K, L>(r: seq<Group<L>>, keys: seq<K>, limit: nat, f: K -> L) {
    forall k :: k in keys && (|r| < limit || (|r| > 0 && multiset(keys)[k] > r[|r| - 1].count)) ==>
      Group(f(k), multiset(keys)[k]) in r
  }

  lemma RelabelKeepsLargest<K, L>(keys: seq<K>, limit: nat, gs: seq<Group<K>>, f: K -> L)
    requires IsTopRanking(keys, limit, gs)
    ensures KeepsLargest(Relabel(gs, f), keys, limit, f)
  {
    var r := Relabel(gs, f);
    forall k | k in keys && (|r| < limit || (|r| > 0 && multiset(keys)[k] > r[|r| - 1].count))
      ensures Group(f(k), multiset(keys)[k]) in r
    {
      assert k in KeysOf(gs);
      var j :| 0 <= j < |gs| && KeysOf(gs)[j] == k;
      assert r[j] == Group(f(k), multiset(keys)[k]);
    }
  }

  /** `r` is some top ranking of `keys`, whatever its tie order, with every
      key replaced by its label. */
  ghost predicate IsRelabelledTop<K(!new), L>(keys: seq<K>, limit: nat, f: K -> L, r: seq<Group<L>>) {
    exists g :: IsTopRanking(keys, limit, g) && r == Relabel(g, f)
  }

  /** Relabelling a top ranking keeps its size, order and counts; each
      label is that of a key of the rows with the key's row count; and the
      result is the relabelling of a top ranking, so no two of its groups
      come from the same key. */
  lemma RelabelledRanking<K(!new), L>(keys: seq<K>, limit: nat, f: K -> L)
    ensures var r := Relabel(Ranked(keys, limit), f);
            && |r| == Min(limit, |set k | k in keys|)
            && NonIncreasing(r)
            && SumCounts(r) <= |keys|
            && LabelledFrom(r, keys, f)
            && KeepsLargest(r, keys, limit, f)
            && IsRelabelledTop(keys, limit, f, r)
  {
    var ranked := Ranked(keys, limit);
    RankedIsTopRanking(keys, limit);
    RelabelKeepsCounts(ranked, f);
    RelabelLabels(keys, ranked, f);
    RelabelKeepsLargest(keys, limit, ranked, f);
  }

  /** `api_top_states`: the `limit` largest State groups, missing State shown
      as "Unknown" once the ranking is done. */
  function TopStates(t: seq<Record>, limit: nat): (r: seq<Group<string>>)
    ensures |r| == Min(limit, |set k | k in States(t)|)
    ensures NonIncreasing(r)
    ensures SumCounts(r) <= |t|
    ensures LabelledFrom(r, States(t), Label)
    ensures KeepsLargest(r, States(t), limit, Label)
    ensures IsRelabelledTop(States(t), limit, Label, r)
  {
    RelabelledRanking(States(t), limit, Label);
    Relabel(Ranked(States(t), limit), Label)
  }

  /** `api_top_cities`: the `limit` largest (State, City) groups, each
      missing part shown as "Unknown" once the ranking is done. */
  function TopCities(t: seq<Record>, limit: nat): (r: seq<Group<(string, string)>>)
    ensures |r| == Min(limit, |set k | k in CityKeys(t)|)
    ensures NonIncreasing(r)
    ensures SumCounts(r) <= |t|
    ensures LabelledFrom(r, CityKeys(t), CityLabel)
    ensures KeepsLargest(r, CityKeys(t), limit, CityLabel)
    ensures IsRelabelledTop(CityKeys(t), limit, CityLabel, r)
  {
    RelabelledRanking(CityKeys(t), limit, CityLabel);
    Relabel(Ranked(CityKeys(t), limit), CityLabel)
  }

  /** Because relabelling follows the ranking, a group of rows with a
      missing State and a group of rows whose State is literally "Unknown"
      are ranked separately and both come out labelled "Unknown". */
  lemma UnknownAppearsTwice(t: seq<Record>)
    requires |t| == 2 && t[0].state == None && t[1].state == Some(UNKNOWN)
    ensures TopStates(t, 10) == [Group(UNKNOWN, 1), Group(UNKNOWN, 1)]
  {
    var keys := States(t);
    MissingAndUnknownKeys(t);
    var r := TopStates(t, 10);
    assert |r| == 2;
    forall i | 0 <= i < 2
      ensures r[i] == Group(UNKNOWN, 1)
    {
      var k :| k in keys && r[i].key == Label(k) && r[i].count == multiset(keys)[k];
    }
  }

  lemma MissingAndUnknownKeys(t: seq<Record>)
    requires |t| == 2 && t[0].state == None && t[1].state == Some(UNKNOWN)
    ensures forall k :: k in States(t) ==> Label(k) == UNKNOWN && multiset(States(t))[k] == 1
    ensures |set k | k in States(t)| == 2
  {
    var keys := States(t);
    assert keys == [None, Some(UNKNOWN)];
    assert forall k :: k in keys <==> k in {None, Some(UNKNOWN)};
    assert (set k | k in keys) == {None, Some(UNKNOWN)};
    assert |{None, Some(UNKNOWN)}| == 2;
    assert multiset(keys) == multiset{None, Some(UNKNOWN)};
  }
}
