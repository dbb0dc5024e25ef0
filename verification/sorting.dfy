/** Filtering, counting and the newest-first ordering every listing uses
    (`.sort({ field: -1 })` on the server, `Array.prototype.sort` on the client). */
module Sorting {

  /** Non-increasing by `key`: the newest (largest timestamp) first. */
  predicate SortedDesc<T>(s: seq<T>, key: T -> int) {
    forall i, j :: 0 <= i < j < |s| ==> key(s[i]) >= key(s[j])
  }

  /** `h` is at least as new as every element of `s`. */
  predicate Dominates<T>(h: T, s: seq<T>, key: T -> int) {
    forall i :: 0 <= i < |s| ==> key(s[i]) <= key(h)
  }

  lemma ConsSorted<T>(h: T, s: seq<T>, key: T -> int)
    requires SortedDesc(s, key) && Dominates(h, s, key)
    ensures SortedDesc([h] + s, key)
  {
    var r := [h] + s;
    forall i, j | 0 <= i < j < |r| ensures key(r[i]) >= key(r[j]) {
      assert r[j] == s[j - 1];
      if i > 0 {
        assert r[i] == s[i - 1];
      }
    }
  }

  lemma PrependNewest<T>(x: T, s: seq<T>, key: T -> int)
    requires SortedDesc(s, key) && (|s| == 0 || key(x) >= key(s[0]))
    ensures SortedDesc([x] + s, key)
  {
    if |s| > 0 {
      SortedHeadDominates(s, key);
    }
    ConsSorted(x, s, key);
  }

  lemma SortedHeadDominates<T>(s: seq<T>, key: T -> int)
    requires |s| > 0 && SortedDesc(s, key)
    ensures Dominates(s[0], s[1..], key)
  {
    forall i | 0 <= i < |s[1..]| ensures key(s[1..][i]) <= key(s[0]) {
      assert s[1..][i] == s[i + 1];
    }
  }

  /** Inserts `x` before the first element whose key it reaches, so that it precedes the
      elements of equal key that follow it in the input (a stable insertion). */
  function InsertDesc<T>(x: T, s: seq<T>, key: T -> int): (r: seq<T>)
    requires SortedDesc(s, key)
    ensures multiset(r) == multiset(s) + multiset{x}
    ensures SortedDesc(r, key)
    decreases |s|
  {
    if |s| == 0 || key(x) >= key(s[0]) then
      PrependNewest(x, s, key);
      [x] + s
    else
      var tail := InsertDesc(x, s[1..], key);
      assert s == [s[0]] + s[1..];
      SortedHeadDominates(s, key);
      DominatesInsert(s[0], x, s[1..], tail, key);
      ConsSorted(s[0], tail, key);
      [s[0]] + tail
  }

  lemma DominatesInsert<T>(h: T, x: T, s: seq<T>, t: seq<T>, key: T -> int)
    requires Dominates(h, s, key) && key(x) <= key(h)
    requires multiset(t) == multiset(s) + multiset{x}
    ensures Dominates(h, t, key)
  {
    forall i | 0 <= i < |t| ensures key(t[i]) <= key(h) {
      var y := t[i];
      assert y in multiset(t);
      if y != x {
        assert y in multiset(s);
        var k :| 0 <= k < |s| && s[k] == y;
      }
    }
  }

  /** Newest first; a permutation of the input, stable by `SortStable`. */
  function SortDesc<T>(s: seq<T>, key: T -> int): (r: seq<T>)
    ensures multiset(r) == multiset(s)
    ensures |r| == |s|
    ensures SortedDesc(r, key)
    decreases |s|
  {
    if |s| == 0 then []
    else
      assert s == [s[0]] + s[1..];
      var r := InsertDesc(s[0], SortDesc(s[1..], key), key);
      assert |r| == |multiset(r)|;
      r
  }

  /** The test "has key `k`". */
  function HasKey<T>(key: T -> int, k: int): T -> bool {
    x => key(x) == k
  }

  /** Filtering a list with a head: the head, if it passes, then the filtered rest. */
  lemma FilterCons<T(!new)>(x: T, s: seq<T>, p: T -> bool)
    ensures Filter([x] + s, p) == (if p(x) then [x] else []) + Filter(s, p)
  {
    assert ([x] + s)[0] == x && ([x] + s)[1..] == s;
  }

  /** Inserting `x` keeps the relative order of the elements of each key, `x` going
      ahead of those sharing its key. */
  lemma {:induction false} InsertStable<T(!new)>(x: T, s: seq<T>, key: T -> int, k: int)
    requires SortedDesc(s, key)
    ensures Filter(InsertDesc(x, s, key), HasKey(key, k)) == Filter([x] + s, HasKey(key, k))
    decreases |s|
  {
    if |s| > 0 && key(x) < key(s[0]) {
      var p := HasKey(key, k);
      var tail := InsertDesc(x, s[1..], key);
      assert s == [s[0]] + s[1..];
      InsertStable(x, s[1..], key, k);
      FilterCons(s[0], tail, p);
      FilterCons(x, s[1..], p);
      FilterCons(s[0], s[1..], p);
      FilterCons(x, s, p);
    }
  }

  /** The sort is stable: elements of equal key keep their input order, as
      `Array.prototype.sort` guarantees. */
  lemma {:induction false} SortStable<T(!new)>(s: seq<T>, key: T -> int, k: int)
    ensures Filter(SortDesc(s, key), HasKey(key, k)) == Filter(s, HasKey(key, k))
    decreases |s|
  {
    if |s| > 0 {
      var p := HasKey(key, k);
      var rest := SortDesc(s[1..], key);
      assert s == [s[0]] + s[1..];
      SortStable(s[1..], key, k);
      InsertStable(s[0], rest, key, k);
      FilterCons(s[0], rest, p);
      FilterCons(s[0], s[1..], p);
    }
  }

  /** Reorderings have the same elements. */
  lemma SameElements<T>(a: seq<T>, b: seq<T>)
    requires multiset(a) == multiset(b)
    ensures forall x :: x in a <==> x in b
  {
    forall x ensures x in a <==> x in b {
      assert x in a <==> x in multiset(a);
      assert x in b <==> x in multiset(b);
    }
  }

  /** `s.filter(p)`: the elements satisfying `p`. `FilterOccurrences` counts them, and
      `FilterSingle` with `FilterAppend` give their order. */
  function Filter<T(!new)>(s: seq<T>, p: T -> bool): (r: seq<T>)
    ensures forall x :: x in r <==> x in s && p(x)
    ensures multiset(r) <= multiset(s)
    ensures |r| <= |s|
    decreases |s|
  {
    if |s| == 0 then []
    else
      assert s == [s[0]] + s[1..];
      if p(s[0]) then [s[0]] + Filter(s[1..], p) else Filter(s[1..], p)
  }

  /** Filtering with a predicate every element meets keeps everything. */
  lemma {:induction false} FilterAll<T(!new)>(s: seq<T>, p: T -> bool)
    requires forall x :: x in s ==> p(x)
    ensures Filter(s, p) == s
    decreases |s|
  {
    if |s| > 0 {
      FilterAll(s[1..], p);
      assert s == [s[0]] + s[1..];
    }
  }

  /** Two predicates that agree on the elements of `s` filter it alike. */
  lemma {:induction false} FilterCongruent<T(!new)>(s: seq<T>, p: T -> bool, q: T -> bool)
    requires forall x :: x in s ==> (p(x) <==> q(x))
    ensures Filter(s, p) == Filter(s, q)
    decreases |s|
  {
    if |s| > 0 {
      assert s == [s[0]] + s[1..];
      FilterCongruent(s[1..], p, q);
    }
  }

  /** Two sequences that agree on which positions are kept, and on what is kept there,
      filter alike. */
  lemma {:induction false} FilterAgree<T(!new)>(s: seq<T>, t: seq<T>, p: T -> bool)
    requires |s| == |t|
    requires forall k :: 0 <= k < |s| ==> (p(s[k]) <==> p(t[k])) && (p(s[k]) ==> s[k] == t[k])
    ensures Filter(s, p) == Filter(t, p)
    decreases |s|
  {
    if |s| > 0 {
      assert forall k :: 0 <= k < |s| - 1 ==> s[1..][k] == s[k + 1] && t[1..][k] == t[k + 1];
      FilterAgree(s[1..], t[1..], p);
      assert s == [s[0]] + s[1..] && t == [t[0]] + t[1..];
    }
  }

  /** Filtering twice is filtering with both conditions (`both` is their conjunction). */
  lemma {:induction false} FilterFilter<T(!new)>(s: seq<T>, p: T -> bool, q: T -> bool, both: T -> bool)
    requires forall x :: x in s ==> (both(x) <==> p(x) && q(x))
    ensures Filter(Filter(s, p), q) == Filter(s, both)
    decreases |s|
  {
    if |s| > 0 {
      assert s == [s[0]] + s[1..];
      FilterFilter(s[1..], p, q, both);
    }
  }

  /** Every occurrence of an element satisfying `p` is kept, and no other. */
  lemma {:induction false} FilterOccurrences<T(!new)>(s: seq<T>, p: T -> bool)
    ensures forall x :: multiset(Filter(s, p))[x] == if p(x) then multiset(s)[x] else 0
    decreases |s|
  {
    if |s| > 0 {
      FilterOccurrences(s[1..], p);
      assert s == [s[0]] + s[1..];
    }
  }

  /** A one-element sequence keeps its element exactly when it satisfies `p`. */
  lemma FilterSingle<T(!new)>(x: T, p: T -> bool)
    ensures Filter([x], p) == if p(x) then [x] else []
  {
    assert [x][1..] == [];
  }

  /** The first element kept is the first element of `s` that satisfies `p`. */
  lemma {:induction false} FilterFirst<T(!new)>(s: seq<T>, p: T -> bool)
    requires |Filter(s, p)| > 0
    ensures exists k :: 0 <= k < |s| && Filter(s, p)[0] == s[k] && p(s[k])
                        && forall j :: 0 <= j < k ==> !p(s[j])
    decreases |s|
  {
    var r := Filter(s, p);
    assert s == [s[0]] + s[1..];
    if p(s[0]) {
      assert r == [s[0]] + Filter(s[1..], p);
      assert r[0] == s[0];
    } else {
      assert r == Filter(s[1..], p);
      FilterFirst(s[1..], p);
      var k :| 0 <= k < |s[1..]| && r[0] == s[1..][k] && p(s[1..][k])
               && forall j :: 0 <= j < k ==> !p(s[1..][j]);
      assert s[k + 1] == s[1..][k];
      forall j | 0 <= j < k + 1 ensures !p(s[j]) {
        if j > 0 {
          assert s[j] == s[1..][j - 1];
        }
      }
    }
  }

  /** Filtering distributes over concatenation, so the kept elements keep their order. */
  lemma {:induction false} FilterAppend<T(!new)>(a: seq<T>, b: seq<T>, p: T -> bool)
    ensures Filter(a + b, p) == Filter(a, p) + Filter(b, p)
    decreases |a|
  {
    if |a| > 0 {
      var ab := a + b;
      assert ab[0] == a[0] && ab[1..] == a[1..] + b;
      FilterAppend(a[1..], b, p);
      var head := if p(a[0]) then [a[0]] else [];
      assert Filter(ab, p) == head + Filter(a[1..] + b, p);
      assert Filter(a, p) == head + Filter(a[1..], p);
    } else {
      assert a + b == b;
    }
  }

  /** How many elements satisfy `p` (what `countDocuments(filter)` answers). */
  function Count<T(!new)>(s: seq<T>, p: T -> bool): (n: nat)
    ensures n <= |s|
    ensures n == 0 <==> forall x :: x in s ==> !p(x)
    ensures n == |s| <==> forall x :: x in s ==> p(x)
    decreases |s|
  {
    if |s| == 0 then 0
    else
      assert s == [s[0]] + s[1..];
      (if p(s[0]) then 1 else 0) + Count(s[1..], p)
  }

  /** Counting a weaker condition never gives less. */
  lemma {:induction false} CountMonotone<T(!new)>(s: seq<T>, p: T -> bool, q: T -> bool)
    requires forall x :: x in s && p(x) ==> q(x)
    ensures Count(s, p) <= Count(s, q)
    decreases |s|
  {
    if |s| > 0 {
      assert s == [s[0]] + s[1..];
      CountMonotone(s[1..], p, q);
    }
  }

  /** Counting is filtering and taking the length. */
  lemma {:induction false} CountIsFilterLength<T(!new)>(s: seq<T>, p: T -> bool)
    ensures Count(s, p) == |Filter(s, p)|
    decreases |s|
  {
    if |s| > 0 {
      CountIsFilterLength(s[1..], p);
    }
  }

  /** Appending one element adds one to the count exactly when it satisfies `p`. */
  lemma {:induction false} CountAppend<T(!new)>(s: seq<T>, x: T, p: T -> bool)
    ensures Count(s + [x], p) == Count(s, p) + (if p(x) then 1 else 0)
    decreases |s|
  {
    if |s| == 0 {
      assert [x][1..] == [];
    } else {
      CountAppend(s[1..], x, p);
      assert (s + [x])[1..] == s[1..] + [x];
    }
  }

  /** The positions in `s` of the elements satisfying `p`. */
  function Positions<T>(s: seq<T>, p: T -> bool): set<int> {
    set i | 0 <= i < |s| && p(s[i])
  }

  /** Counting is the number of positions holding an element that satisfies `p`. */
  lemma {:induction false} CountIsPositions<T(!new)>(s: seq<T>, p: T -> bool)
    ensures Count(s, p) == |Positions(s, p)|
    decreases |s|
  {
    if |s| > 0 {
      var init := s[..|s| - 1];
      var last := s[|s| - 1];
      assert s == init + [last];
      CountIsPositions(init, p);
      CountAppend(init, last, p);
      var before := Positions(init, p);
      assert |s| - 1 !in before;
      if p(last) {
        assert Positions(s, p) == before + {|s| - 1};
      } else {
        assert Positions(s, p) == before;
      }
    }
  }

  /** `s.map(f)` */
  function Map<A, B>(s: seq<A>, f: A -> B): (r: seq<B>)
    ensures |r| == |s|
    ensures forall i :: 0 <= i < |s| ==> r[i] == f(s[i])
  {
    seq(|s|, i requires 0 <= i < |s| => f(s[i]))
  }

  /** Mapping a reordering of `s` yields the images of the elements of `s`, no more and no
      fewer. */
  lemma MapPermutation<A, B>(s: seq<A>, rows: seq<A>, f: A -> B)
    requires multiset(rows) == multiset(s)
    ensures forall v :: v in Map(rows, f) <==> exists x :: x in s && v == f(x)
  {
    var r := Map(rows, f);
    forall v | v in r ensures exists x :: x in s && v == f(x) {
      var i :| 0 <= i < |r| && r[i] == v;
      assert rows[i] in multiset(s);
    }
    forall x | x in s ensures f(x) in r {
      assert x in multiset(rows);
      var i :| 0 <= i < |rows| && rows[i] == x;
      assert r[i] == f(x);
    }
  }

  /** `s.slice(0, k)`, which is all of `s` when `k` is past its end. */
  function Take<T>(s: seq<T>, k: nat): (r: seq<T>)
    ensures |r| == if k < |s| then k else |s|
    ensures r == s[..|r|]
  {
    if k < |s| then s[..k] else s
  }

  /** The first `k` elements of a newest-first sequence are at least as new as the rest. */
  lemma PrefixOfSortedIsNewest<T>(s: seq<T>, key: T -> int, k: nat)
    requires SortedDesc(s, key)
    ensures forall i, j :: 0 <= i < |Take(s, k)| <= j < |s| ==> key(s[i]) >= key(s[j])
  {
  }
}
