/** Sequence helpers behind the source's list comprehensions and `next(...)`
    searches, written once and used by the schedule model and the tiebreakers. */
module Seqs {
  import opened Wrappers

  /** An order-preserving filter: `[x for x in s if p(x)]`. */
  function Filter<T>(s: seq<T>, p: T -> bool): (r: seq<T>)
    ensures |r| <= |s|
  {
    if s == [] then [] else (if p(s[0]) then [s[0]] else []) + Filter(s[1..], p)
  }

  /** The filter keeps exactly the elements that satisfy `p`. */
  lemma {:induction false} FilterMembers<T>(s: seq<T>, p: T -> bool)
    ensures forall i :: 0 <= i < |Filter(s, p)| ==> Filter(s, p)[i] in s && p(Filter(s, p)[i])
    ensures forall i :: 0 <= i < |s| && p(s[i]) ==> s[i] in Filter(s, p)
  {
    if s != [] {
      FilterMembers(s[1..], p);
      var r := Filter(s, p);
      var rest := Filter(s[1..], p);
      assert r == (if p(s[0]) then [s[0]] else []) + rest;
      forall i | 0 <= i < |s| && p(s[i])
        ensures s[i] in r
      {
        if i > 0 {
          assert s[i] == s[1..][i - 1];
        }
      }
    }
  }

  lemma AppendAssoc<T>(a: seq<T>, b: seq<T>, c: seq<T>)
    ensures (a + b) + c == a + (b + c)
  {
  }

  /** Filtering distributes over concatenation, which is what "order-preserving" means. */
  lemma {:induction false} FilterConcat<T>(a: seq<T>, b: seq<T>, p: T -> bool)
    ensures Filter(a + b, p) == Filter(a, p) + Filter(b, p)
  {
    if a == [] {
      assert a + b == b;
    } else {
      var head := if p(a[0]) then [a[0]] else [];
      assert (a + b)[0] == a[0];
      assert (a + b)[1..] == a[1..] + b;
      assert Filter(a + b, p) == head + Filter(a[1..] + b, p);
      FilterConcat(a[1..], b, p);
      assert Filter(a, p) == head + Filter(a[1..], p);
      assert head + (Filter(a[1..], p) + Filter(b, p)) == (head + Filter(a[1..], p)) + Filter(b, p);
    }
  }

  /** Filtering a sequence that starts with `x`. */
  lemma FilterCons<T>(x: T, s: seq<T>, p: T -> bool)
    ensures Filter([x] + s, p) == (if p(x) then [x] else []) + Filter(s, p)
  {
    assert ([x] + s)[1..] == s;
  }

  /** Appending one element to the filtered sequence. */
  lemma FilterSnoc<T>(s: seq<T>, x: T, p: T -> bool)
    ensures Filter(s + [x], p) == Filter(s, p) + (if p(x) then [x] else [])
  {
    FilterConcat(s, [x], p);
  }

  /** The position of the first element satisfying p, or |s| when there is none. */
  function FirstIndex<T>(s: seq<T>, p: T -> bool): (k: nat)
    ensures k <= |s|
    ensures k < |s| ==> p(s[k])
    ensures forall j :: 0 <= j < k ==> !p(s[j])
  {
    if s == [] then 0
    else if p(s[0]) then 0
    else 1 + FirstIndex(s[1..], p)
  }

  /** `next((x for x in s if p(x)), None)`. */
  function FirstWhere<T(==)>(s: seq<T>, p: T -> bool): (r: Option<T>)
    ensures r.None? <==> forall i :: 0 <= i < |s| ==> !p(s[i])
    ensures r.Some? ==> r.value in s && p(r.value)
    ensures r.Some? ==> r.value == s[FirstIndex(s, p)]
  {
    var k := FirstIndex(s, p);
    if k < |s| then Some(s[k]) else None
  }

  /** The concatenation of a sequence of groups. */
  function Flatten<T>(groups: seq<seq<T>>): (r: seq<T>)
  {
    if groups == [] then [] else groups[0] + Flatten(groups[1..])
  }

  lemma {:induction false} FlattenConcat<T>(a: seq<seq<T>>, b: seq<seq<T>>)
    ensures Flatten(a + b) == Flatten(a) + Flatten(b)
  {
    if a == [] {
      assert a + b == b;
    } else {
      assert (a + b)[1..] == a[1..] + b;
      FlattenConcat(a[1..], b);
    }
  }

  lemma FlattenOne<T>(a: seq<T>)
    ensures Flatten([a]) == a
  {
    assert [a][1..] == [];
  }

  lemma FlattenTwo<T>(a: seq<T>, b: seq<T>)
    ensures Flatten([a, b]) == a + b
  {
    assert [a, b][1..] == [b];
    FlattenOne(b);
  }

  /** Splitting off the first element and flattening the two parts gives the sequence back. */
  lemma FlattenSplitFirst<T>(s: seq<T>)
    requires s != []
    ensures Flatten([[s[0]], s[1..]]) == s
  {
    FlattenTwo([s[0]], s[1..]);
    assert [s[0]] + s[1..] == s;
  }

  /** Splitting off the last element and flattening the two parts gives the sequence back. */
  lemma FlattenSplitLast<T>(s: seq<T>)
    requires s != []
    ensures Flatten([s[..|s| - 1], [s[|s| - 1]]]) == s
  {
    FlattenTwo(s[..|s| - 1], [s[|s| - 1]]);
    assert s[..|s| - 1] + [s[|s| - 1]] == s;
  }

  predicate NoDuplicates<T(==)>(s: seq<T>)
  {
    forall i, j :: 0 <= i < j < |s| ==> s[i] != s[j]
  }

  /** Filtering a sequence without duplicates leaves none. */
  lemma {:induction false} FilterNoDuplicates<T>(s: seq<T>, p: T -> bool)
    requires NoDuplicates(s)
    ensures NoDuplicates(Filter(s, p))
  {
    if s != [] {
      var rest := s[1..];
      assert NoDuplicates(rest) by {
        forall i, j | 0 <= i < j < |rest| ensures rest[i] != rest[j] {
          assert rest[i] == s[i + 1] && rest[j] == s[j + 1];
        }
      }
      FilterNoDuplicates(rest, p);
      FilterMembers(rest, p);
      var tail := Filter(rest, p);
      forall i | 0 <= i < |tail| ensures tail[i] != s[0] {
        var m :| 0 <= m < |rest| && rest[m] == tail[i];
        assert rest[m] == s[m + 1];
      }
    }
  }

  /** Membership in `s`, as a predicate for Filter: `x in s`. */
  function Among<T(==)>(s: seq<T>): (member: T -> bool)
  {
    (x: T) => x in s
  }

  /** An element survives the filter exactly when it is in `s` and satisfies `p`. */
  lemma InFilter<T>(s: seq<T>, p: T -> bool, x: T)
    ensures x in Filter(s, p) <==> x in s && p(x)
  {
    FilterMembers(s, p);
    if x in Filter(s, p) {
      var i :| 0 <= i < |Filter(s, p)| && Filter(s, p)[i] == x;
    }
    if x in s && p(x) {
      var i :| 0 <= i < |s| && s[i] == x;
    }
  }

  /** A filter that keeps every element is the identity. */
  lemma {:induction false} FilterAll<T>(s: seq<T>, p: T -> bool)
    requires forall i :: 0 <= i < |s| ==> p(s[i])
    ensures Filter(s, p) == s
  {
    if s != [] {
      assert forall i :: 0 <= i < |s[1..]| ==> s[1..][i] == s[i + 1];
      FilterAll(s[1..], p);
    }
  }

  /** Filtering by a stronger predicate keeps no more elements. */
  lemma {:induction false} FilterStronger<T>(s: seq<T>, p: T -> bool, q: T -> bool)
    requires forall i :: 0 <= i < |s| && p(s[i]) ==> q(s[i])
    ensures |Filter(s, p)| <= |Filter(s, q)|
  {
    if s != [] {
      assert forall i :: 0 <= i < |s[1..]| ==> s[1..][i] == s[i + 1];
      FilterStronger(s[1..], p, q);
    }
  }

  /** The elements in reverse order. */
  function Reverse<T>(s: seq<T>): (r: seq<T>)
    ensures |r| == |s|
    ensures forall i :: 0 <= i < |s| ==> r[i] == s[|s| - 1 - i]
  {
    if s == [] then [] else Reverse(s[1..]) + [s[0]]
  }

  /** Reversal keeps the elements. */
  lemma {:induction false} ReverseMultiset<T>(s: seq<T>)
    ensures multiset(Reverse(s)) == multiset(s)
  {
    if s != [] {
      ReverseMultiset(s[1..]);
      assert s == [s[0]] + s[1..];
    }
  }

  /** Python's `list.reverse()`: reverses the array in place. */
  method ReverseInPlace<T>(a: array<T>)
    modifies a
    ensures a[..] == Reverse(old(a[..]))
  {
    var i := 0;
    while i < a.Length / 2
      invariant 0 <= i <= a.Length / 2
      invariant forall k :: 0 <= k < i ==> a[k] == old(a[a.Length - 1 - k]) && a[a.Length - 1 - k] == old(a[k])
      invariant forall k :: i <= k < a.Length - i ==> a[k] == old(a[k])
    {
      a[i], a[a.Length - 1 - i] := a[a.Length - 1 - i], a[i];
      i := i + 1;
    }
  }

  /** Each element as a group of its own, in order. */
  function Singletons<T>(s: seq<T>): (groups: seq<seq<T>>)
    ensures |groups| == |s|
    ensures forall i :: 0 <= i < |s| ==> groups[i] == [s[i]]
  {
    if s == [] then [] else [[s[0]]] + Singletons(s[1..])
  }

  /** Singleton groups flatten back to the sequence. */
  lemma {:induction false} FlattenSingletons<T>(s: seq<T>)
    ensures Flatten(Singletons(s)) == s
  {
    if s != [] {
      FlattenSingletons(s[1..]);
      assert Singletons(s)[1..] == Singletons(s[1..]);
    }
  }

  /** A sequence without duplicates has as many elements as its set. */
  lemma {:induction false} DistinctCard<T>(s: seq<T>)
    requires NoDuplicates(s)
    ensures |set x | x in s| == |s|
  {
    if s != [] {
      var rest := s[1..];
      assert NoDuplicates(rest) by {
        forall i, j | 0 <= i < j < |rest| ensures rest[i] != rest[j] {
          assert rest[i] == s[i + 1] && rest[j] == s[j + 1];
        }
      }
      DistinctCard(rest);
      assert s[0] !in rest by {
        forall j | 0 <= j < |rest| ensures rest[j] != s[0] {
          assert rest[j] == s[j + 1];
        }
      }
      assert (set x | x in s) == (set x | x in rest) + {s[0]};
    }
  }

  /** A sequence has at least as many elements as its set. */
  lemma {:induction false} SetCard<T>(s: seq<T>)
    ensures |set x | x in s| <= |s|
  {
    if s != [] {
      var rest := s[1..];
      SetCard(rest);
      assert (set x | x in s) == (set x | x in rest) + {s[0]};
    }
  }

  /** A subset has no more elements, and a proper subset fewer. */
  lemma {:induction false} SubsetCard<T>(a: set<T>, b: set<T>)
    requires a <= b
    ensures |a| <= |b|
    ensures a < b ==> |a| < |b|
    decreases |b|
  {
    if b != {} {
      var x :| x in b;
      if x in a {
        SubsetCard(a - {x}, b - {x});
        assert |a - {x}| == |a| - 1 && |b - {x}| == |b| - 1;
        if a < b {
          var y :| y in b && y !in a;
          assert y in b - {x} && y !in a - {x};
        }
      } else {
        SubsetCard(a, b - {x});
      }
    }
  }

  /** Of distinct elements of `s`, at most all those of the distinct `c` are found
      in `c`, and all of them exactly when each element of `c` occurs in `s`. */
  lemma FilterAmongCount<T>(s: seq<T>, c: seq<T>)
    requires NoDuplicates(s) && NoDuplicates(c)
    ensures |Filter(s, Among(c))| <= |c|
    ensures |Filter(s, Among(c))| == |c| <==> forall i :: 0 <= i < |c| ==> c[i] in s
  {
    var f := Filter(s, Among(c));
    FilterNoDuplicates(s, Among(c));
    DistinctCard(f);
    DistinctCard(c);
    var sf := set x | x in f;
    var sc := set x | x in c;
    forall x | x in sf ensures x in sc {
      InFilter(s, Among(c), x);
    }
    SubsetCard(sf, sc);
    if forall i :: 0 <= i < |c| ==> c[i] in s {
      forall x | x in sc ensures x in sf {
        InFilter(s, Among(c), x);
      }
      assert sf == sc;
    } else {
      var i :| 0 <= i < |c| && c[i] !in s;
      InFilter(s, Among(c), c[i]);
      assert c[i] in sc && c[i] !in sf;
    }
  }

  /** When some element of `c` is missing from the distinct `s`, fewer elements of
      `s` than `c` has are found in `c`, whether or not `c` repeats elements. */
  lemma FilterAmongMissing<T>(s: seq<T>, c: seq<T>, i: nat)
    requires NoDuplicates(s) && i < |c| && c[i] !in s
    ensures |Filter(s, Among(c))| < |c|
  {
    var f := Filter(s, Among(c));
    FilterNoDuplicates(s, Among(c));
    DistinctCard(f);
    SetCard(c);
    var sf := set x | x in f;
    var sc := set x | x in c;
    forall x | x in sf ensures x in sc - {c[i]} {
      InFilter(s, Among(c), x);
    }
    SubsetCard(sf, sc - {c[i]});
  }
}
