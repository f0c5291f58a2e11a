/** Generic sequence operations shared by the ballot, the vote store and the
    results pages: list comprehensions with a condition (`Filter`) and the
    stable sort Python's `list.sort(key=...)` and `sorted(...)` perform
    (`SortBy`). */
module Seqs {
  import opened Wrappers

  /** `[x for x in s if p(x)]` */
  function Filter<T>(s: seq<T>, p: T -> bool): (r: seq<T>)
    ensures |r| <= |s|
    ensures forall i :: 0 <= i < |r| ==> r[i] in s && p(r[i])
  {
    if s == [] then [] else (if p(s[0]) then [s[0]] else []) + Filter(s[1..], p)
  }

  /** What survives a filter: every element that meets the condition. */
  lemma {:induction false} FilterKeeps<T>(s: seq<T>, p: T -> bool, x: T)
    requires x in s && p(x)
    ensures x in Filter(s, p)
  {
    if s[0] != x {
      FilterKeeps(s[1..], p, x);
    }
  }

  /** Index of the first element meeting a condition: the row a query's
      `.first()` returns. */
  function FirstIndex<T>(s: seq<T>, p: T -> bool): (r: Option<nat>)
    ensures r.Some? ==> r.value < |s| && p(s[r.value])
    ensures r.Some? ==> forall j :: 0 <= j < r.value ==> !p(s[j])
    ensures r.None? ==> forall j :: 0 <= j < |s| ==> !p(s[j])
  {
    if s == [] then None
    else if p(s[0]) then Some(0)
    else match FirstIndex(s[1..], p)
      case None => None
      case Some(i) => Some(i + 1)
  }

  /** `.first()`: the first element meeting the condition, if any. */
  function First<T>(s: seq<T>, p: T -> bool): (r: Option<T>)
    ensures r.Some? <==> exists i :: 0 <= i < |s| && p(s[i])
    ensures r.Some? ==> r.value in s && p(r.value)
    ensures r.Some? ==> exists i :: 0 <= i < |s| && s[i] == r.value && p(s[i]) && forall j :: 0 <= j < i ==> !p(s[j])
  {
    match FirstIndex(s, p)
    case None => None
    case Some(i) => Some(s[i])
  }

  function Not<T>(p: T -> bool): T -> bool {
    x => !p(x)
  }

  /** The condition "the key of x is k". */
  function KeyIs<T>(key: T -> int, k: int): T -> bool {
    x => key(x) == k
  }

  /** The condition "the key of x is above m". */
  function KeyAbove<T>(key: T -> int, m: int): T -> bool {
    x => key(x) > m
  }

  lemma {:induction false} FilterAppend<T>(a: seq<T>, b: seq<T>, p: T -> bool)
    ensures Filter(a + b, p) == Filter(a, p) + Filter(b, p)
  {
    if a == [] {
      assert a + b == b;
    } else {
      assert (a + b)[1..] == a[1..] + b;
      FilterAppend(a[1..], b, p);
    }
  }

  lemma {:induction false} FilterAll<T>(s: seq<T>, p: T -> bool)
    requires forall x :: x in s ==> p(x)
    ensures Filter(s, p) == s
  {
    if s != [] {
      FilterAll(s[1..], p);
    }
  }

  lemma FilterNone<T>(s: seq<T>, p: T -> bool)
    requires forall x :: x in s ==> !p(x)
    ensures Filter(s, p) == []
  {
  }

  /** Filtering by q after p is filtering by q alone when q implies p. */
  lemma {:induction false} FilterImplied<T>(s: seq<T>, p: T -> bool, q: T -> bool)
    requires forall x :: x in s && q(x) ==> p(x)
    ensures Filter(Filter(s, p), q) == Filter(s, q)
  {
    if s != [] {
      var t := Filter(s[1..], p);
      FilterImplied(s[1..], p, q);
      if p(s[0]) {
        assert Filter(s, p) == [s[0]] + t;
        FilterAppend([s[0]], t, q);
      } else {
        assert Filter(s, p) == t;
      }
    }
  }

  /** A condition and its negation split a sequence into two parts that
      together hold every element exactly as often as the sequence does. */
  lemma {:induction false} FilterSplit<T>(s: seq<T>, p: T -> bool)
    ensures multiset(Filter(s, p)) + multiset(Filter(s, Not(p))) == multiset(s)
  {
    if s != [] {
      var a, b := Filter(s[1..], p), Filter(s[1..], Not(p));
      FilterSplit(s[1..], p);
      assert s == [s[0]] + s[1..];
      assert multiset(s) == multiset{s[0]} + multiset(s[1..]);
      if p(s[0]) {
        assert Filter(s, p) == [s[0]] + a;
        assert Filter(s, Not(p)) == b;
        assert multiset([s[0]] + a) == multiset{s[0]} + multiset(a);
      } else {
        assert Filter(s, p) == a;
        assert Filter(s, Not(p)) == [s[0]] + b;
        assert multiset([s[0]] + b) == multiset{s[0]} + multiset(b);
      }
    }
  }

  /** A condition some element fails strictly shortens the sequence. */
  lemma {:induction false} FilterShorter<T>(s: seq<T>, p: T -> bool, i: nat)
    requires i < |s| && !p(s[i])
    ensures |Filter(s, p)| < |s|
  {
    if i > 0 {
      FilterShorter(s[1..], p, i - 1);
    }
  }

  /** Index of an element whose key is least, the first such one. */
  function MinIndex<T>(s: seq<T>, key: T -> int): (i: nat)
    requires |s| > 0
    ensures i < |s|
    ensures forall j :: 0 <= j < |s| ==> key(s[i]) <= key(s[j])
  {
    if |s| == 1 then 0
    else
      var j := MinIndex(s[1..], key) + 1;
      if key(s[0]) <= key(s[j]) then 0 else j
  }

  /** The stable sort by an integer key: the elements of least key in their
      original order, then the rest sorted the same way. */
  function SortBy<T>(s: seq<T>, key: T -> int): seq<T>
    decreases |s|
  {
    if s == [] then []
    else
      var m := key(s[MinIndex(s, key)]);
      FilterShorter(s, KeyAbove(key, m), MinIndex(s, key));
      Filter(s, KeyIs(key, m)) + SortBy(Filter(s, KeyAbove(key, m)), key)
  }

  ghost predicate SortedBy<T>(s: seq<T>, key: T -> int) {
    forall i, j :: 0 <= i < j < |s| ==> key(s[i]) <= key(s[j])
  }

  /** Sorting only reorders: the result is a permutation of the input. */
  lemma {:induction false} SortByPermutation<T>(s: seq<T>, key: T -> int)
    ensures multiset(SortBy(s, key)) == multiset(s)
    decreases |s|
  {
    if s != [] {
      var m := key(s[MinIndex(s, key)]);
      var rest := Filter(s, KeyAbove(key, m));
      FilterShorter(s, KeyAbove(key, m), MinIndex(s, key));
      SortByPermutation(rest, key);
      FilterSplit(s, KeyIs(key, m));
      assert Filter(s, Not(KeyIs(key, m))) == rest by {
        FilterSameCondition(s, Not(KeyIs(key, m)), KeyAbove(key, m));
      }
    }
  }

  /** Over the elements of s, two conditions that agree filter alike.
      (Here: "key is not the least" and "key is above the least".) */
  lemma {:induction false} FilterSameCondition<T>(s: seq<T>, p: T -> bool, q: T -> bool)
    requires forall x :: x in s ==> p(x) == q(x)
    ensures Filter(s, p) == Filter(s, q)
  {
    if s != [] {
      FilterSameCondition(s[1..], p, q);
    }
  }

  /** Every element of a sorted result keeps its key and the keys ascend. */
  lemma {:induction false} SortBySorted<T>(s: seq<T>, key: T -> int)
    ensures SortedBy(SortBy(s, key), key)
    decreases |s|
  {
    if s != [] {
      var m := key(s[MinIndex(s, key)]);
      var low := Filter(s, KeyIs(key, m));
      var rest := Filter(s, KeyAbove(key, m));
      FilterShorter(s, KeyAbove(key, m), MinIndex(s, key));
      var tail := SortBy(rest, key);
      SortBySorted(rest, key);
      SortByPermutation(rest, key);
      var r := low + tail;
      forall i, j | 0 <= i < j < |r| ensures key(r[i]) <= key(r[j]) {
        if j < |low| {
          assert r[i] in low && r[j] in low;
        } else if i < |low| {
          assert r[i] in low;
          assert r[j] == tail[j - |low|];
          assert r[j] in multiset(rest);
        } else {
          assert r[i] == tail[i - |low|] && r[j] == tail[j - |low|];
        }
      }
    }
  }

  /** Stability: the elements that share a key come out in their input order. */
  lemma {:induction false} SortByStable<T>(s: seq<T>, key: T -> int, k: int)
    ensures Filter(SortBy(s, key), KeyIs(key, k)) == Filter(s, KeyIs(key, k))
    decreases |s|
  {
    if s != [] {
      var m := key(s[MinIndex(s, key)]);
      var low := Filter(s, KeyIs(key, m));
      var rest := Filter(s, KeyAbove(key, m));
      FilterShorter(s, KeyAbove(key, m), MinIndex(s, key));
      var tail := SortBy(rest, key);
      SortByPermutation(rest, key);
      FilterAppend(low, tail, KeyIs(key, k));
      assert forall x :: x in tail ==> key(x) > m by {
        forall x | x in tail ensures key(x) > m {
          assert x in multiset(rest);
        }
      }
      if k == m {
        FilterAll(low, KeyIs(key, k));
        FilterNone(tail, KeyIs(key, k));
      } else if k > m {
        FilterNone(low, KeyIs(key, k));
        SortByStable(rest, key, k);
        FilterImplied(s, KeyAbove(key, m), KeyIs(key, k));
      } else {
        FilterNone(low, KeyIs(key, k));
        FilterNone(tail, KeyIs(key, k));
        FilterNone(s, KeyIs(key, k));
      }
    }
  }

  /** A sequence whose keys already strictly ascend is left as it is. */
  lemma {:induction false} SortByAscending<T>(s: seq<T>, key: T -> int)
    requires StrictlyAscending(s, key)
    ensures SortBy(s, key) == s
    decreases |s|
  {
    if s != [] {
      AscendingSplit(s, key);
      SortByAscending(s[1..], key);
      assert s == [s[0]] + s[1..];
    }
  }

  ghost predicate StrictlyAscending<T>(s: seq<T>, key: T -> int) {
    forall i, j :: 0 <= i < j < |s| ==> key(s[i]) < key(s[j])
  }

  /** The first step of sorting an ascending sequence picks its head alone. */
  lemma AscendingSplit<T>(s: seq<T>, key: T -> int)
    requires |s| > 0 && StrictlyAscending(s, key)
    ensures key(s[MinIndex(s, key)]) == key(s[0])
    ensures Filter(s, KeyIs(key, key(s[0]))) == [s[0]]
    ensures Filter(s, KeyAbove(key, key(s[0]))) == s[1..]
    ensures StrictlyAscending(s[1..], key)
  {
    var i := MinIndex(s, key);
    var t := s[1..];
    var m := key(s[0]);
    TailAbove(s, key);
    FilterNone(t, KeyIs(key, m));
    FilterAll(t, KeyAbove(key, m));
    HeadFilter(s, KeyIs(key, m));
    HeadFilter(s, KeyAbove(key, m));
  }

  lemma HeadFilter<T>(s: seq<T>, p: T -> bool)
    requires |s| > 0
    ensures Filter(s, p) == (if p(s[0]) then [s[0]] else []) + Filter(s[1..], p)
  {
  }

  lemma TailAbove<T>(s: seq<T>, key: T -> int)
    requires |s| > 0 && StrictlyAscending(s, key)
    ensures forall x :: x in s[1..] ==> key(x) > key(s[0])
    ensures StrictlyAscending(s[1..], key)
  {
    var t := s[1..];
    forall x | x in t ensures key(x) > key(s[0]) {
      var j :| 0 <= j < |t| && t[j] == x;
      assert x == s[j + 1];
    }
    forall a, b | 0 <= a < b < |t| ensures key(t[a]) < key(t[b]) {
      assert t[a] == s[a + 1] && t[b] == s[b + 1];
    }
  }
  /** Position of the first occurrence of x, or |s| when x does not occur:
      Python's `list.index` where it does not raise. */
  function IndexOf<T(==)>(s: seq<T>, x: T): (r: nat)
    ensures r <= |s|
    ensures r < |s| <==> x in s
    ensures r < |s| ==> s[r] == x
    ensures forall j :: 0 <= j < r ==> s[j] != x
  {
    if s == [] then 0
    else if s[0] == x then 0
    else IndexOf(s[1..], x) + 1
  }

  /** The first occurrence of each element, in order of first occurrence. */
  function Distinct<T(==)>(s: seq<T>): (r: seq<T>)
    ensures |r| <= |s|
  {
    if s == [] then []
    else
      var r := Distinct(s[..|s| - 1]);
      if s[|s| - 1] in r then r else r + [s[|s| - 1]]
  }

  /** The result holds no element twice and holds exactly the elements of
      the input. */
  lemma {:induction false} DistinctSpec<T>(s: seq<T>)
    ensures forall i, j :: 0 <= i < j < |Distinct(s)| ==> Distinct(s)[i] != Distinct(s)[j]
    ensures forall i :: 0 <= i < |Distinct(s)| ==> Distinct(s)[i] in s
    ensures forall x :: x in s ==> x in Distinct(s)
  {
    if s != [] {
      var init := s[..|s| - 1];
      DistinctSpec(init);
      assert s == init + [s[|s| - 1]];
    }
  }

  /** Dropping repeats keeps the order of first occurrences: an element
      listed earlier in the result first occurs earlier in the input. */
  lemma {:induction false} DistinctOrder<T>(s: seq<T>, i: nat, j: nat)
    requires i < j < |Distinct(s)|
    ensures IndexOf(s, Distinct(s)[i]) < IndexOf(s, Distinct(s)[j])
    decreases |s|
  {
    var init := s[..|s| - 1];
    var r := Distinct(init);
    var d := Distinct(s);
    DistinctSpec(init);
    assert i < |r| && d[i] == r[i];
    IndexOfPrefix(s, d[i]);
    if j < |r| {
      DistinctOrder(init, i, j);
      assert d[j] == r[j];
      IndexOfPrefix(s, d[j]);
    } else {
      assert d[j] == s[|s| - 1] && d[j] !in init;
      assert IndexOf(s, d[j]) == |s| - 1 by {
        forall k | 0 <= k < |s| - 1 ensures s[k] != d[j] {
          assert s[k] == init[k];
        }
      }
    }
  }

  /** An element of the prefix s[..|s|-1] has the same first index in s. */
  lemma {:induction false} IndexOfPrefix<T>(s: seq<T>, x: T)
    requires |s| > 0 && x in s[..|s| - 1]
    ensures IndexOf(s, x) == IndexOf(s[..|s| - 1], x)
  {
    var init := s[..|s| - 1];
    var k := IndexOf(init, x);
    assert s[k] == x;
    forall m | 0 <= m < k ensures s[m] != x {
      assert s[m] == init[m];
    }
  }

  /** Extending the input by one element extends the result by that element
      exactly when it has not occurred yet. */
  lemma DistinctSnoc<T>(s: seq<T>, x: T)
    ensures Distinct(s + [x]) == if x in s then Distinct(s) else Distinct(s) + [x]
  {
    DistinctSpec(s);
    assert (s + [x])[..|s + [x]| - 1] == s;
  }

  /** A repeat is dropped and a new element kept: [a, a, b] becomes [a, b]. */
  lemma DistinctRepeat<T>(a: T, b: T)
    requires a != b
    ensures Distinct([a, a, b]) == [a, b]
  {
    var one, two := [a], [a, a];
    DistinctSnoc([], a);
    assert [] + [a] == one;
    DistinctSnoc(one, a);
    assert one + [a] == two;
    DistinctSnoc(two, b);
    assert two + [b] == [a, a, b];
  }
}
