/** The dict helpers of tiebreakers.py. A Python dict of per-team counts is
    modelled by its key order `keys` together with the counts in `value`. */
module Ranking {
  import opened Seqs

  /** Every key has a count. */
  predicate Covers<T>(keys: seq<T>, value: map<T, int>)
  {
    forall i :: 0 <= i < |keys| ==> keys[i] in value
  }

  /** Counts never increase along `keys`. */
  predicate Descending<T>(keys: seq<T>, value: map<T, int>)
  {
    Covers(keys, value) &&
    forall i, j :: 0 <= i < j < |keys| ==> value[keys[i]] >= value[keys[j]]
  }

  /** The keys whose count is `v`, in their order in `keys`. */
  function WithValue<T>(keys: seq<T>, value: map<T, int>, v: int): (r: seq<T>)
  {
    Filter(keys, (k: T) => k in value && value[k] == v)
  }

  /** The keys with count `v` of a sequence that starts with `k`. */
  lemma WithValueCons<T>(k: T, keys: seq<T>, value: map<T, int>, v: int)
    ensures WithValue([k] + keys, value, v) ==
            (if k in value && value[k] == v then [k] else []) + WithValue(keys, value, v)
  {
    FilterCons(k, keys, (x: T) => x in value && value[x] == v);
  }

  /** The keys of a dict built from `keys`: each key once, at its first position. */
  function Dedup<T(==)>(keys: seq<T>): (r: seq<T>)
    ensures forall i :: 0 <= i < |r| ==> r[i] in keys
    ensures keys != [] ==> r != []
    decreases |keys|
  {
    if keys == [] then []
    else
      var front := Dedup(keys[..|keys| - 1]);
      if keys[|keys| - 1] in front then front else front + [keys[|keys| - 1]]
  }

  /** Every key of `keys` is a key of the dict, and none of them twice. */
  lemma {:induction false} DedupKeys<T>(keys: seq<T>)
    ensures forall i :: 0 <= i < |keys| ==> keys[i] in Dedup(keys)
    ensures NoDuplicates(Dedup(keys))
    decreases |keys|
  {
    if keys != [] {
      var n := |keys|;
      var front := keys[..n - 1];
      DedupKeys(front);
      assert forall i :: 0 <= i < n - 1 ==> keys[i] == front[i];
    }
  }

  /** Keys that are already distinct are kept as they are. */
  lemma {:induction false} DedupDistinct<T>(keys: seq<T>)
    requires NoDuplicates(keys)
    ensures Dedup(keys) == keys
    decreases |keys|
  {
    if keys != [] {
      var n := |keys|;
      var front := keys[..n - 1];
      assert NoDuplicates(front) by {
        forall i, j | 0 <= i < j < |front| ensures front[i] != front[j] {
          assert front[i] == keys[i] && front[j] == keys[j];
        }
      }
      DedupDistinct(front);
      forall i | 0 <= i < n - 1 ensures front[i] != keys[n - 1] {
        assert front[i] == keys[i];
      }
      assert keys == front + [keys[n - 1]];
    }
  }

  /** Places `k` before the first key whose count is not above its own, so that
      among equal counts the earlier-inserted key comes first. */
  function Insert<T>(k: T, sorted: seq<T>, value: map<T, int>): (r: seq<T>)
    requires k in value && Covers(sorted, value)
    ensures |r| == |sorted| + 1
    ensures multiset(r) == multiset(sorted) + multiset{k}
    ensures Covers(r, value)
  {
    if sorted == [] || value[k] >= value[sorted[0]] then [k] + sorted
    else
      assert sorted == [sorted[0]] + sorted[1..];
      [sorted[0]] + Insert(k, sorted[1..], value)
  }

  /** sortDictValuesDescending: `sorted(d.items(), key=value, reverse=True)`, the
      stable descending order of the keys by count. */
  function SortDescending<T>(keys: seq<T>, value: map<T, int>): (r: seq<T>)
    requires Covers(keys, value)
    ensures |r| == |keys|
    ensures multiset(r) == multiset(keys)
    ensures Descending(r, value)
  {
    if keys == [] then []
    else
      assert keys == [keys[0]] + keys[1..];
      var rest := SortDescending(keys[1..], value);
      InsertDescending(keys[0], rest, value);
      Insert(keys[0], rest, value)
  }

  /** Inserting into a descending sequence keeps it descending. */
  lemma {:induction false} InsertDescending<T>(k: T, sorted: seq<T>, value: map<T, int>)
    requires k in value && Descending(sorted, value)
    ensures Descending(Insert(k, sorted, value), value)
  {
    var r := Insert(k, sorted, value);
    if sorted == [] || value[k] >= value[sorted[0]] {
      forall i, j | 0 <= i < j < |r|
        ensures value[r[i]] >= value[r[j]]
      {
        if i == 0 && j > 1 {
          assert value[sorted[0]] >= value[sorted[j - 1]];
        }
      }
    } else {
      var tail := sorted[1..];
      var rest := Insert(k, tail, value);
      assert Descending(tail, value);
      InsertDescending(k, tail, value);
      forall i, j | 0 <= i < j < |r|
        ensures value[r[i]] >= value[r[j]]
      {
        if i == 0 {
          var x := rest[j - 1];
          assert x in multiset(rest);
          if x != k {
            assert x in multiset(tail);
            var m :| 0 <= m < |tail| && tail[m] == x;
            assert sorted[m + 1] == x;
          }
        } else {
          assert r[i] == rest[i - 1] && r[j] == rest[j - 1];
        }
      }
    }
  }

  /** Inserting into a descending sequence puts `k` ahead of the keys with its count. */
  lemma {:induction false} InsertWithValue<T>(k: T, sorted: seq<T>, value: map<T, int>, v: int)
    requires k in value && Descending(sorted, value)
    ensures WithValue(Insert(k, sorted, value), value, v) ==
            (if value[k] == v then [k] else []) + WithValue(sorted, value, v)
  {
    if sorted == [] || value[k] >= value[sorted[0]] {
      WithValueCons(k, sorted, value, v);
    } else {
      var rest := Insert(k, sorted[1..], value);
      WithValueCons(sorted[0], rest, value, v);
      WithValueCons(sorted[0], sorted[1..], value, v);
      assert sorted == [sorted[0]] + sorted[1..];
      InsertWithValue(k, sorted[1..], value, v);
    }
  }

  /** The sort is stable: the keys of any one count keep their original order. */
  lemma {:induction false} SortStable<T>(keys: seq<T>, value: map<T, int>, v: int)
    requires Covers(keys, value)
    ensures WithValue(SortDescending(keys, value), value, v) == WithValue(keys, value, v)
  {
    if keys != [] {
      SortStable(keys[1..], value, v);
      InsertWithValue(keys[0], SortDescending(keys[1..], value), value, v);
      WithValueCons(keys[0], keys[1..], value, v);
      assert keys == [keys[0]] + keys[1..];
    }
  }

  /** The first key of the sort has the largest count, and is the first key, in
      the original order, with that count. */
  lemma SortFirst<T>(keys: seq<T>, value: map<T, int>)
    requires Covers(keys, value) && keys != []
    ensures |SortDescending(keys, value)| == |keys|
    ensures forall j :: 0 <= j < |keys| ==> value[SortDescending(keys, value)[0]] >= value[keys[j]]
    ensures WithValue(keys, value, value[SortDescending(keys, value)[0]]) != []
    ensures SortDescending(keys, value)[0] == WithValue(keys, value, value[SortDescending(keys, value)[0]])[0]
  {
    var r := SortDescending(keys, value);
    assert |r| == |multiset(r)| == |multiset(keys)| == |keys|;
    forall j | 0 <= j < |keys| ensures value[r[0]] >= value[keys[j]] {
      assert keys[j] in multiset(r);
      var m :| 0 <= m < |r| && r[m] == keys[j];
    }
    var v := value[r[0]];
    SortStable(keys, value, v);
    assert r == [r[0]] + r[1..];
    WithValueCons(r[0], r[1..], value, v);
  }

  /** The last key of the sort has the smallest count, and is the last key, in
      the original order, with that count. */
  lemma SortLast<T>(keys: seq<T>, value: map<T, int>)
    requires Covers(keys, value) && keys != []
    ensures |SortDescending(keys, value)| == |keys|
    ensures forall j :: 0 <= j < |keys| ==> value[SortDescending(keys, value)[|keys| - 1]] <= value[keys[j]]
    ensures WithValue(keys, value, value[SortDescending(keys, value)[|keys| - 1]]) != []
    ensures SortDescending(keys, value)[|keys| - 1] ==
            Last(WithValue(keys, value, value[SortDescending(keys, value)[|keys| - 1]]))
  {
    var r := SortDescending(keys, value);
    var m := |keys| - 1;
    assert |r| == |multiset(r)| == |multiset(keys)| == |keys|;
    forall j | 0 <= j < |keys| ensures value[r[m]] <= value[keys[j]] {
      assert keys[j] in multiset(r);
      var q :| 0 <= q < |r| && r[q] == keys[j];
    }
    var v := value[r[m]];
    SortStable(keys, value, v);
    LastWithValue(r, value);
  }

  /** The last key is the last of the keys with its count. */
  lemma LastWithValue<T>(keys: seq<T>, value: map<T, int>)
    requires Covers(keys, value) && keys != []
    ensures WithValue(keys, value, value[Last(keys)]) != []
    ensures Last(WithValue(keys, value, value[Last(keys)])) == Last(keys)
  {
    var m := |keys| - 1;
    var v := value[keys[m]];
    assert keys == keys[..m] + [keys[m]];
    FilterSnoc(keys[..m], keys[m], (k: T) => k in value && value[k] == v);
  }

  /** When no count exceeds `v` and some key has count `v`, the sort starts with
      the first key, in the original order, that has it. */
  lemma SortFirstWith<T>(keys: seq<T>, value: map<T, int>, v: int)
    requires Covers(keys, value) && keys != []
    requires forall i :: 0 <= i < |keys| ==> value[keys[i]] <= v
    requires WithValue(keys, value, v) != []
    ensures value[SortDescending(keys, value)[0]] == v
    ensures SortDescending(keys, value)[0] == WithValue(keys, value, v)[0]
  {
    SortFirst(keys, value);
    var r := SortDescending(keys, value);
    var w := WithValue(keys, value, v);
    FilterMembers(keys, (k: T) => k in value && value[k] == v);
    assert w[0] in keys;
    var j :| 0 <= j < |keys| && keys[j] == w[0];
    assert r[0] in multiset(keys);
    var m :| 0 <= m < |keys| && keys[m] == r[0];
    assert value[r[0]] == v;
  }

  /** When no key has count `v`, the sort does not start with one that has. */
  lemma SortFirstWithout<T>(keys: seq<T>, value: map<T, int>, v: int)
    requires Covers(keys, value) && keys != []
    requires WithValue(keys, value, v) == []
    ensures value[SortDescending(keys, value)[0]] != v
  {
    SortFirst(keys, value);
  }

  /** When no count is below `v` and some key has count `v`, the sort ends with
      the last key, in the original order, that has it. */
  lemma SortLastWith<T>(keys: seq<T>, value: map<T, int>, v: int)
    requires Covers(keys, value) && keys != []
    requires forall i :: 0 <= i < |keys| ==> value[keys[i]] >= v
    requires WithValue(keys, value, v) != []
    ensures value[SortDescending(keys, value)[|keys| - 1]] == v
    ensures SortDescending(keys, value)[|keys| - 1] == Last(WithValue(keys, value, v))
  {
    SortLast(keys, value);
    var r := SortDescending(keys, value);
    var w := WithValue(keys, value, v);
    FilterMembers(keys, (k: T) => k in value && value[k] == v);
    assert w[0] in keys;
    var j :| 0 <= j < |keys| && keys[j] == w[0];
    assert r[|keys| - 1] in multiset(keys);
    var m :| 0 <= m < |keys| && keys[m] == r[|keys| - 1];
    assert value[r[|keys| - 1]] == v;
  }

  /** When no key has count `v`, the sort does not end with one that has. */
  lemma SortLastWithout<T>(keys: seq<T>, value: map<T, int>, v: int)
    requires Covers(keys, value) && keys != []
    requires WithValue(keys, value, v) == []
    ensures value[SortDescending(keys, value)[|keys| - 1]] != v
  {
    SortLast(keys, value);
  }

  /** The last element of a nonempty sequence. */
  function Last<T>(s: seq<T>): (r: T)
    requires s != []
  {
    s[|s| - 1]
  }

  /** Sorting keys that all share one count leaves them in place. */
  lemma SortUniform<T>(keys: seq<T>, value: map<T, int>, v: int)
    requires Covers(keys, value)
    requires forall i :: 0 <= i < |keys| ==> value[keys[i]] == v
    ensures SortDescending(keys, value) == keys
  {
    var r := SortDescending(keys, value);
    var p := (k: T) => k in value && value[k] == v;
    forall i | 0 <= i < |r| ensures p(r[i]) {
      assert r[i] in multiset(keys);
      var m :| 0 <= m < |keys| && keys[m] == r[i];
    }
    FilterAll(keys, p);
    FilterAll(r, p);
    SortStable(keys, value, v);
  }

  /** Consecutive groups; each nonempty, with one count, and neighbours differ in count. */
  predicate Runs<T>(groups: seq<seq<T>>, value: map<T, int>)
  {
    (forall j :: 0 <= j < |groups| ==> groups[j] != [] && Covers(groups[j], value)) &&
    (forall j, i :: 0 <= j < |groups| && 0 <= i < |groups[j]| ==> value[groups[j][i]] == value[groups[j][0]]) &&
    (forall j :: 0 <= j < |groups| - 1 ==> value[groups[j][0]] != value[groups[j + 1][0]])
  }

  /** Runs whose counts strictly decrease from one group to the next. */
  predicate RankedBy<T>(groups: seq<seq<T>>, value: map<T, int>)
  {
    Runs(groups, value) &&
    forall j :: 0 <= j < |groups| - 1 ==> value[groups[j][0]] > value[groups[j + 1][0]]
  }

  /** One step of the grouping walk: key `k` joins the last group, or opens a new one. */
  function Extend<T>(groups: seq<seq<T>>, k: T, joins: bool): (r: seq<seq<T>>)
    requires joins ==> groups != []
    ensures r != []
  {
    if joins then groups[..|groups| - 1] + [groups[|groups| - 1] + [k]] else groups + [[k]]
  }

  /** groupDictKeysByValue, as its comment intends: walking the keys in order,
      consecutive keys with equal counts form one group. */
  function GroupByValue<T>(keys: seq<T>, value: map<T, int>): (groups: seq<seq<T>>)
    requires Covers(keys, value)
    ensures (groups == []) == (keys == [])
    decreases |keys|
  {
    if keys == [] then []
    else if |keys| == 1 then [keys]
    else
      Extend(GroupByValue(keys[..|keys| - 1], value), keys[|keys| - 1],
             value[keys[|keys| - 1]] == value[keys[|keys| - 2]])
  }

  /** A step adds exactly its key at the end of the flattened groups. */
  lemma ExtendFlatten<T>(groups: seq<seq<T>>, k: T, joins: bool)
    requires joins ==> groups != []
    ensures Flatten(Extend(groups, k, joins)) == Flatten(groups) + [k]
  {
    if joins {
      var m := |groups|;
      var init, last := groups[..m - 1], groups[m - 1];
      assert groups == init + [last];
      FlattenConcat(init, [last]);
      FlattenConcat(init, [last + [k]]);
      assert Flatten([last]) == last + Flatten([]);
      assert Flatten([last + [k]]) == last + [k] + Flatten([]);
    } else {
      FlattenConcat(groups, [[k]]);
      assert Flatten([[k]]) == [k] + Flatten([]);
    }
  }

  /** Grouping loses, duplicates and reorders nothing. */
  lemma {:induction false} GroupByValueFlatten<T>(keys: seq<T>, value: map<T, int>)
    requires Covers(keys, value)
    ensures Flatten(GroupByValue(keys, value)) == keys
  {
    if |keys| == 1 {
      assert Flatten([keys]) == keys + Flatten([]);
    } else if |keys| > 1 {
      var front := keys[..|keys| - 1];
      var k := keys[|keys| - 1];
      GroupByValueFlatten(front, value);
      ExtendFlatten(GroupByValue(front, value), k, value[k] == value[keys[|keys| - 2]]);
      assert keys == front + [k];
    }
  }

  /** The walk's last group ends with the last key. */
  lemma GroupByValueLast<T>(keys: seq<T>, value: map<T, int>)
    requires Covers(keys, value) && keys != []
    ensures GroupByValue(keys, value)[|GroupByValue(keys, value)| - 1] != []
    ensures GroupByValue(keys, value)[|GroupByValue(keys, value)| - 1][|GroupByValue(keys, value)[|GroupByValue(keys, value)| - 1]| - 1]
            == keys[|keys| - 1]
  {
  }

  /** A step that joins exactly when the count repeats keeps the groups runs, and
      keeps them strictly decreasing when the new count is not above the last. */
  lemma ExtendRuns<T>(groups: seq<seq<T>>, k: T, value: map<T, int>)
    requires groups != [] && Runs(groups, value) && k in value
    ensures Runs(Extend(groups, k, value[k] == value[groups[|groups| - 1][0]]), value)
    ensures RankedBy(groups, value) && value[k] <= value[groups[|groups| - 1][0]] ==>
            RankedBy(Extend(groups, k, value[k] == value[groups[|groups| - 1][0]]), value)
  {
    var m := |groups|;
    var joins := value[k] == value[groups[m - 1][0]];
    var r := Extend(groups, k, joins);
    if joins {
      assert forall j :: 0 <= j < m - 1 ==> r[j] == groups[j];
      assert r[m - 1] == groups[m - 1] + [k];
    } else {
      assert forall j :: 0 <= j < m ==> r[j] == groups[j];
      assert r[m] == [k];
    }
  }

  /** Grouping yields runs: nonempty groups of one count, neighbours differing in
      count; on keys in descending order the counts strictly decrease. */
  lemma {:induction false} GroupByValueRuns<T>(keys: seq<T>, value: map<T, int>)
    requires Covers(keys, value)
    ensures Runs(GroupByValue(keys, value), value)
    ensures Descending(keys, value) ==> RankedBy(GroupByValue(keys, value), value)
  {
    if |keys| > 1 {
      var front := keys[..|keys| - 1];
      var init := GroupByValue(front, value);
      var k := keys[|keys| - 1];
      GroupByValueRuns(front, value);
      assert Descending(keys, value) ==> Descending(front, value);
      GroupByValueLast(front, value);
      var last := init[|init| - 1];
      assert value[last[|last| - 1]] == value[last[0]];
      ExtendRuns(init, k, value);
    }
  }

  /** Keys that all share one count form a single group. */
  lemma {:induction false} GroupByValueUniform<T>(keys: seq<T>, value: map<T, int>)
    requires Covers(keys, value) && keys != []
    requires forall i :: 0 <= i < |keys| ==> value[keys[i]] == value[keys[0]]
    ensures GroupByValue(keys, value) == [keys]
    decreases |keys|
  {
    if |keys| > 1 {
      var n := |keys|;
      var front := keys[..n - 1];
      assert forall i :: 0 <= i < |front| ==> front[i] == keys[i];
      GroupByValueUniform(front, value);
      assert keys == front + [keys[n - 1]];
    }
  }

  /** Grouping the sorted keys loses, duplicates and invents none of the keys. */
  lemma SortedGroupsPermute<T>(keys: seq<T>, value: map<T, int>)
    requires Covers(keys, value)
    ensures multiset(Flatten(GroupByValue(SortDescending(keys, value), value))) == multiset(keys)
  {
    GroupByValueFlatten(SortDescending(keys, value), value);
  }

  /** Grouping one more key of `keys` is one step of the walk. */
  lemma GroupByValueStep<T>(keys: seq<T>, value: map<T, int>, i: nat)
    requires Covers(keys, value) && 0 < i < |keys|
    ensures GroupByValue(keys[..i + 1], value) ==
            Extend(GroupByValue(keys[..i], value), keys[i], value[keys[i]] == value[keys[i - 1]])
  {
    assert keys[..i + 1][..i] == keys[..i];
  }

  /** groupDictKeysByValue: the loop over the items that closes the current group
      whenever the count changes. */
  method GroupKeysByValue<T>(keys: seq<T>, value: map<T, int>) returns (result: seq<seq<T>>)
    requires |keys| > 0 && Covers(keys, value)
    ensures result == GroupByValue(keys, value)
  {
    result := [];
    var currentGroup: seq<T> := [];
    var lastValue := value[keys[0]];
    var i := 0;
    while i < |keys|
      invariant 0 <= i <= |keys|
      invariant i == 0 ==> result == [] && currentGroup == [] && lastValue == value[keys[0]]
      invariant i > 0 ==> currentGroup != [] && lastValue == value[keys[i - 1]] &&
                          result + [currentGroup] == GroupByValue(keys[..i], value)
    {
      var key := keys[i];
      var v := value[key];
      ghost var before := result + [currentGroup];
      if i > 0 {
        GroupByValueStep(keys, value, i);
        assert before[..|before| - 1] == result && before[|before| - 1] == currentGroup;
      } else {
        assert keys[..1] == [key];
      }
      if v == lastValue {
        currentGroup := currentGroup + [key];
        assert i > 0 ==> result + [currentGroup] == Extend(before, key, true);
        assert i == 0 ==> result == [];
        assert i == 0 ==> currentGroup == [key];
      } else {
        if currentGroup != [] {
          result := result + [currentGroup];
        }
        currentGroup := [key];
        lastValue := v;
        assert result + [currentGroup] == Extend(before, key, false);
      }
      assert result + [currentGroup] == GroupByValue(keys[..i + 1], value);
      i := i + 1;
    }
    result := result + [currentGroup];
    assert keys[..|keys|] == keys;
  }
}
