/**
 Outcomes the repository's test suite expects, proved of the model through
 the uniqueness of the ordered output.
 */
module Scenarios {
  import opened Scalars
  import opened Rules
  import opened Composite
  import opened VanillaSort
  import opened SortProperties

  /** An integer element stored under a key. */
  function Num(key: int, n: int): Entry {
    Entry(key, Plain(Int(n)))
  }

  /** The integer an element holds; elements that hold none read as 0. */
  function IntOf(v: Value): int {
    if v.Plain? && v.scalar.Int? then v.scalar.n else 0
  }

  /** The comparator `function ($v1, $v2) { return $v1 - $v2; }`. */
  function Subtract(a: Value, b: Value): int {
    IntOf(a) - IntOf(b)
  }

  /** A subtraction comparator keeps the comparator contract everywhere. */
  lemma SubtractConsistent(vals: set<Value>)
    ensures ConsistentOn(Binary(Subtract), vals)
  {
  }

  /** The list `[3, 2, 1, 6, 5, 4]`. */
  function Numbers(): seq<Entry> {
    [Num(0, 3), Num(1, 2), Num(2, 1), Num(3, 6), Num(4, 5), Num(5, 4)]
  }

  /** The session `using([3, 2, 1, 6, 5, 4])->by(subtraction, order)`. */
  function NumbersBy(order: int): Session {
    By(Using(Numbers()), Closure(OtherArity(Subtract)), order)
  }

  lemma NumbersCoherent(order: int)
    ensures Coherent(NumbersBy(order))
  {
    var s := NumbersBy(order);
    assert s.sorters == [Sorter(Binary(Subtract), DirOf(order))];
    SubtractConsistent(Values(s.entries));
  }

  lemma ComparedBySubtraction(order: int, a: Value, b: Value)
    requires IntOf(a) != IntOf(b)
    ensures Compare(NumbersBy(order).sorters, Numbers(), a, b)
         == (if order == SORT_DESC then IntOf(b) - IntOf(a) else IntOf(a) - IntOf(b))
  {
    var s := NumbersBy(order);
    assert s.sorters == [Sorter(Binary(Subtract), DirOf(order))];
    assert FirstDecisive(s.sorters, 0, a, b);
  }

  /** `[1, 2, 3, 4, 5, 6]`, each number under the key it had in `Numbers`. */
  function NumbersUp(): seq<Entry> {
    [Num(2, 1), Num(1, 2), Num(0, 3), Num(5, 4), Num(4, 5), Num(3, 6)]
  }

  /** `[6, 5, 4, 3, 2, 1]`, each number under the key it had in `Numbers`. */
  function NumbersDown(): seq<Entry> {
    [Num(3, 6), Num(4, 5), Num(5, 4), Num(0, 3), Num(1, 2), Num(2, 1)]
  }

  lemma UpSamePairs()
    ensures multiset(NumbersUp()) == multiset(Numbers())
  {
  }

  lemma DownSamePairs()
    ensures multiset(NumbersDown()) == multiset(Numbers())
  {
  }

  lemma UpIsOrdered()
    ensures forall i, j | 0 <= i < j < |NumbersUp()| ::
              Compare(NumbersBy(SORT_ASC).sorters, Numbers(), NumbersUp()[i].value, NumbersUp()[j].value) < 0
  {
    var r := NumbersUp();
    forall i, j | 0 <= i < j < |r|
      ensures Compare(NumbersBy(SORT_ASC).sorters, Numbers(), r[i].value, r[j].value) < 0
    {
      ComparedBySubtraction(SORT_ASC, r[i].value, r[j].value);
    }
  }

  lemma DownIsOrdered()
    ensures forall i, j | 0 <= i < j < |NumbersDown()| ::
              Compare(NumbersBy(SORT_DESC).sorters, Numbers(), NumbersDown()[i].value, NumbersDown()[j].value) < 0
  {
    var r := NumbersDown();
    forall i, j | 0 <= i < j < |r|
      ensures Compare(NumbersBy(SORT_DESC).sorters, Numbers(), r[i].value, r[j].value) < 0
    {
      ComparedBySubtraction(SORT_DESC, r[i].value, r[j].value);
    }
  }

  /** Sorting `[3, 2, 1, 6, 5, 4]` by subtraction yields 1..6, each number keeping its key. */
  lemma NumbersAscending()
    ensures Get(NumbersBy(SORT_ASC)) == NumbersUp()
  {
    NumbersCoherent(SORT_ASC);
    UpSamePairs();
    UpIsOrdered();
    GetIsTheOnlyOrder(NumbersBy(SORT_ASC), NumbersUp());
  }

  /** The same rule registered with SORT_DESC yields 6..1. */
  lemma NumbersDescending()
    ensures Get(NumbersBy(SORT_DESC)) == NumbersDown()
  {
    NumbersCoherent(SORT_DESC);
    DownSamePairs();
    DownIsOrdered();
    GetIsTheOnlyOrder(NumbersBy(SORT_DESC), NumbersDown());
  }
}
