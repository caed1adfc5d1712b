/**
 A functional insertion sort by a three-way comparator, standing in for the
 library sort `get` calls. The comparator need not be well behaved for the
 output to be a permutation; ordering facts need it to be, on the elements
 present.
 */
module InsertionSort {

  /** Each element is ordered no later than its successor. */
  ghost predicate AdjacentSorted<T>(cmp: (T, T) -> int, s: seq<T>) {
    forall i | 0 <= i < |s| - 1 :: cmp(s[i], s[i + 1]) <= 0
  }

  /** Each element is ordered no later than every element after it. */
  ghost predicate Sorted<T>(cmp: (T, T) -> int, s: seq<T>) {
    forall i, j | 0 <= i < j < |s| :: cmp(s[i], s[j]) <= 0
  }

  /** Each element is ordered strictly before every element after it. */
  ghost predicate StrictlySorted<T>(cmp: (T, T) -> int, s: seq<T>) {
    forall i, j | 0 <= i < j < |s| :: cmp(s[i], s[j]) < 0
  }

  /** Any two elements at different positions may stand in at least one order. */
  ghost predicate Comparable<T>(cmp: (T, T) -> int, s: seq<T>) {
    forall i, j | 0 <= i < |s| && 0 <= j < |s| && i != j ::
      cmp(s[i], s[j]) <= 0 || cmp(s[j], s[i]) <= 0
  }

  /** Non-positive results chain among the elements present. */
  ghost predicate TransitiveOn<T>(cmp: (T, T) -> int, s: seq<T>) {
    forall x, y, z | x in s && y in s && z in s ::
      cmp(x, y) <= 0 && cmp(y, z) <= 0 ==> cmp(x, z) <= 0
  }

  /** Places `x` before the first element it is not ordered after. */
  function Insert<T(==)>(cmp: (T, T) -> int, x: T, t: seq<T>): (r: seq<T>)
    ensures multiset(r) == multiset{x} + multiset(t)
    ensures AdjacentSorted(cmp, t) && (forall y | y in t :: cmp(x, y) <= 0 || cmp(y, x) <= 0)
            ==> AdjacentSorted(cmp, r)
  {
    if |t| == 0 then [x]
    else if cmp(x, t[0]) <= 0 then [x] + t
    else
      var rest := Insert(cmp, x, t[1..]);
      assert t == [t[0]] + t[1..];
      assert |rest| > 0 && (rest[0] == x || rest[0] == t[1]);
      [t[0]] + rest
  }

  /** Sorts by inserting the head into the sorted tail. */
  function SortBy<T(==)>(cmp: (T, T) -> int, s: seq<T>): (r: seq<T>)
    ensures multiset(r) == multiset(s)
    ensures Comparable(cmp, s) ==> AdjacentSorted(cmp, r)
  {
    if |s| == 0 then []
    else
      var t := SortBy(cmp, s[1..]);
      assert s == [s[0]] + s[1..];
      ComparableTail(cmp, s);
      ComparableHead(cmp, s, t);
      Insert(cmp, s[0], t)
  }

  lemma ComparableTail<T>(cmp: (T, T) -> int, s: seq<T>)
    requires |s| > 0
    ensures Comparable(cmp, s) ==> Comparable(cmp, s[1..])
  {
    if Comparable(cmp, s) {
      forall i, j | 0 <= i < |s[1..]| && 0 <= j < |s[1..]| && i != j
        ensures cmp(s[1..][i], s[1..][j]) <= 0 || cmp(s[1..][j], s[1..][i]) <= 0
      {
        assert s[1..][i] == s[i + 1] && s[1..][j] == s[j + 1];
      }
    }
  }

  lemma ComparableHead<T>(cmp: (T, T) -> int, s: seq<T>, t: seq<T>)
    requires |s| > 0 && multiset(t) == multiset(s[1..])
    ensures Comparable(cmp, s) ==> forall y | y in t :: cmp(s[0], y) <= 0 || cmp(y, s[0]) <= 0
  {
    if Comparable(cmp, s) {
      forall y | y in t
        ensures cmp(s[0], y) <= 0 || cmp(y, s[0]) <= 0
      {
        assert y in multiset(t);
        assert y in s[1..];
        var k :| 0 <= k < |s[1..]| && s[1..][k] == y;
        assert s[k + 1] == y;
      }
    }
  }

  /** An input that is already in order comes back unchanged. */
  lemma {:induction false} SortBySortedIsIdentity<T>(cmp: (T, T) -> int, s: seq<T>)
    requires AdjacentSorted(cmp, s)
    ensures SortBy(cmp, s) == s
  {
    if |s| > 0 {
      assert AdjacentSorted(cmp, s[1..]) by {
        forall i | 0 <= i < |s[1..]| - 1 ensures cmp(s[1..][i], s[1..][i + 1]) <= 0 {
          assert s[1..][i] == s[i + 1] && s[1..][i + 1] == s[i + 2];
        }
      }
      SortBySortedIsIdentity(cmp, s[1..]);
      assert s == [s[0]] + s[1..];
    }
  }

  /** The result depends on the comparator only through its sign on the elements present. */
  lemma {:induction false} InsertCongruent<T>(cmp1: (T, T) -> int, cmp2: (T, T) -> int, x: T, t: seq<T>)
    requires forall y | y in t :: (cmp1(x, y) <= 0) == (cmp2(x, y) <= 0)
    ensures Insert(cmp1, x, t) == Insert(cmp2, x, t)
  {
    if |t| > 0 && cmp1(x, t[0]) > 0 {
      InsertCongruent(cmp1, cmp2, x, t[1..]);
    }
  }

  /** Two comparators agree in sign on every pair of elements at different positions. */
  ghost predicate AgreeOn<T>(cmp1: (T, T) -> int, cmp2: (T, T) -> int, s: seq<T>) {
    forall i, j | 0 <= i < |s| && 0 <= j < |s| && i != j ::
      (cmp1(s[i], s[j]) <= 0) == (cmp2(s[i], s[j]) <= 0)
  }

  /** Two comparators with the same sign on every pair of elements at different positions sort alike. */
  lemma {:induction false} SortByCongruent<T>(cmp1: (T, T) -> int, cmp2: (T, T) -> int, s: seq<T>)
    requires AgreeOn(cmp1, cmp2, s)
    ensures SortBy(cmp1, s) == SortBy(cmp2, s)
  {
    if |s| > 0 {
      AgreeOnTail(cmp1, cmp2, s);
      SortByCongruent(cmp1, cmp2, s[1..]);
      var t := SortBy(cmp1, s[1..]);
      AgreeOnHead(cmp1, cmp2, s, t);
      InsertCongruent(cmp1, cmp2, s[0], t);
    }
  }

  lemma AgreeOnTail<T>(cmp1: (T, T) -> int, cmp2: (T, T) -> int, s: seq<T>)
    requires |s| > 0 && AgreeOn(cmp1, cmp2, s)
    ensures AgreeOn(cmp1, cmp2, s[1..])
  {
    forall i, j | 0 <= i < |s[1..]| && 0 <= j < |s[1..]| && i != j
      ensures (cmp1(s[1..][i], s[1..][j]) <= 0) == (cmp2(s[1..][i], s[1..][j]) <= 0)
    {
      assert s[1..][i] == s[i + 1] && s[1..][j] == s[j + 1];
    }
  }

  lemma AgreeOnHead<T>(cmp1: (T, T) -> int, cmp2: (T, T) -> int, s: seq<T>, t: seq<T>)
    requires |s| > 0 && AgreeOn(cmp1, cmp2, s) && multiset(t) == multiset(s[1..])
    ensures forall y | y in t :: (cmp1(s[0], y) <= 0) == (cmp2(s[0], y) <= 0)
  {
    forall y | y in t ensures (cmp1(s[0], y) <= 0) == (cmp2(s[0], y) <= 0) {
      assert y in multiset(t);
      assert y in s[1..];
      var k :| 0 <= k < |s[1..]| && s[1..][k] == y;
      assert s[k + 1] == y;
    }
  }

  /** With chaining non-positive results, order between neighbours is order between all pairs. */
  lemma {:induction false} AdjacentToSorted<T>(cmp: (T, T) -> int, s: seq<T>)
    requires AdjacentSorted(cmp, s)
    requires TransitiveOn(cmp, s)
    ensures Sorted(cmp, s)
  {
    forall i, j | 0 <= i < j < |s| ensures cmp(s[i], s[j]) <= 0 {
      Chain(cmp, s, i, j);
    }
  }

  lemma {:induction false} Chain<T>(cmp: (T, T) -> int, s: seq<T>, i: int, j: int)
    requires AdjacentSorted(cmp, s)
    requires TransitiveOn(cmp, s)
    requires 0 <= i < j < |s|
    ensures cmp(s[i], s[j]) <= 0
    decreases j - i
  {
    if i + 1 < j {
      Chain(cmp, s, i + 1, j);
      assert s[i] in s && s[i + 1] in s && s[j] in s;
    }
  }

  /**
   Two strictly sorted arrangements of the same elements are equal, when the
   comparator is never negative both ways: the order alone fixes the output,
   whichever algorithm produced it.
   */
  lemma {:induction false} StrictlySortedUnique<T>(cmp: (T, T) -> int, r1: seq<T>, r2: seq<T>)
    requires multiset(r1) == multiset(r2)
    requires StrictlySorted(cmp, r1) && StrictlySorted(cmp, r2)
    requires forall x, y | x in r1 && y in r1 :: !(cmp(x, y) < 0 && cmp(y, x) < 0)
    ensures r1 == r2
  {
    if |r1| > 0 {
      SameHead(cmp, r1, r2);
      SameTail(r1, r2);
      StrictlySortedTail(cmp, r1);
      StrictlySortedTail(cmp, r2);
      NeverBothNegativeTail(cmp, r1);
      StrictlySortedUnique(cmp, r1[1..], r2[1..]);
      HeadAndTail(r1, r2);
    } else {
      assert |r2| == |multiset(r2)| == 0;
    }
  }

  lemma HeadAndTail<T>(r1: seq<T>, r2: seq<T>)
    requires |r1| > 0 && |r2| > 0 && r1[0] == r2[0] && r1[1..] == r2[1..]
    ensures r1 == r2
  {
    assert r1 == [r1[0]] + r1[1..];
    assert r2 == [r2[0]] + r2[1..];
  }

  lemma SameTail<T>(r1: seq<T>, r2: seq<T>)
    requires |r1| > 0 && |r2| > 0 && r1[0] == r2[0] && multiset(r1) == multiset(r2)
    ensures multiset(r1[1..]) == multiset(r2[1..])
  {
    assert r1 == [r1[0]] + r1[1..];
    assert r2 == [r2[0]] + r2[1..];
    assert multiset(r1[1..]) == multiset(r1) - multiset([r1[0]]);
    assert multiset(r2[1..]) == multiset(r2) - multiset([r2[0]]);
  }

  lemma NeverBothNegativeTail<T>(cmp: (T, T) -> int, r: seq<T>)
    requires |r| > 0
    requires forall x, y | x in r && y in r :: !(cmp(x, y) < 0 && cmp(y, x) < 0)
    ensures forall x, y | x in r[1..] && y in r[1..] :: !(cmp(x, y) < 0 && cmp(y, x) < 0)
  {
    forall x, y | x in r[1..] && y in r[1..] ensures !(cmp(x, y) < 0 && cmp(y, x) < 0) {
      assert x in r && y in r;
    }
  }

  lemma SameHead<T>(cmp: (T, T) -> int, r1: seq<T>, r2: seq<T>)
    requires |r1| > 0 && multiset(r1) == multiset(r2)
    requires StrictlySorted(cmp, r1) && StrictlySorted(cmp, r2)
    requires forall x, y | x in r1 && y in r1 :: !(cmp(x, y) < 0 && cmp(y, x) < 0)
    ensures |r2| > 0 && r1[0] == r2[0]
  {
    assert r1[0] in multiset(r2);
    assert r2[0] in multiset(r1);
    var x, y := r1[0], r2[0];
    var k :| 0 <= k < |r1| && r1[k] == y;
    var m :| 0 <= m < |r2| && r2[m] == x;
    assert k > 0 ==> cmp(x, y) < 0;
    assert m > 0 ==> cmp(y, x) < 0;
    assert x in r1 && y in r1;
  }

  lemma StrictlySortedTail<T>(cmp: (T, T) -> int, r: seq<T>)
    requires |r| > 0 && StrictlySorted(cmp, r)
    ensures StrictlySorted(cmp, r[1..])
  {
    forall i, j | 0 <= i < j < |r[1..]| ensures cmp(r[1..][i], r[1..][j]) < 0 {
      assert r[1..][i] == r[i + 1] && r[1..][j] == r[j + 1];
    }
  }
}
