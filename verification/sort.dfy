/**
 The sort session of `Sort`: `using` stores an array, `by` appends one
 sorter, `get` sorts a copy of the array by the composite comparator and
 keeps every key with its value.
 */
module VanillaSort {
  import opened Rules
  import opened Composite
  import InsertionSort

  /** A session: the array given to `using`, and the sorters registered so far, in priority order. */
  datatype Session = Session(entries: seq<Entry>, sorters: seq<Sorter>)

  /** `Sort::using`: a new session over the array, with no sorters. */
  function Using(entries: seq<Entry>): (s: Session)
    ensures s.entries == entries
    ensures |s.sorters| == 0
  {
    Session(entries, [])
  }

  /** `Sort::by`: normalise the criterion and append it, with its direction, after the earlier sorters. */
  function By(s: Session, criterion: Criterion, order: int): (r: Session)
    ensures r.entries == s.entries
    ensures |r.sorters| == |s.sorters| + 1
    ensures r.sorters[..|s.sorters|] == s.sorters
    ensures r.sorters[|s.sorters|].rule == Normalize(criterion)
    ensures r.sorters[|s.sorters|].dir == Desc <==> order == SORT_DESC
  {
    Session(s.entries, s.sorters + [Sorter(Normalize(criterion), DirOf(order))])
  }

  /** The comparator `get` hands to the sort, lifted to key-value pairs: only values are compared. */
  function Order(s: Session): (Entry, Entry) -> int {
    (x: Entry, y: Entry) => Compare(s.sorters, s.entries, x.value, y.value)
  }

  /**
   The conditions under which the composite comparator is a strict total order
   on the array's values: distinct keys (as in every PHP array), no value
   stored twice, and every raw two-argument comparator keeping the comparator
   contract on the stored values. The comparators `by` builds itself always
   keep it.
   */
  ghost predicate Coherent(s: Session) {
    && IsArray(s.entries)
    && DistinctValues(s.entries)
    && forall k | 0 <= k < |s.sorters| && s.sorters[k].rule.Binary? ::
         ConsistentOn(s.sorters[k].rule, Values(s.entries))
  }

  /**
   `Sort::get`: the stored array, sorted by the composite comparator. The
   result holds the same key-value pairs; for a coherent session every pair
   is ordered strictly before every pair after it.
   */
  function Get(s: Session): (r: seq<Entry>)
    ensures multiset(r) == multiset(s.entries)
    ensures Coherent(s) ==>
              forall i, j | 0 <= i < j < |r| :: Compare(s.sorters, s.entries, r[i].value, r[j].value) < 0
  {
    CoherentIsComparable(s);
    var r := InsertionSort.SortBy(Order(s), s.entries);
    CoherentOutputIsOrdered(s, r);
    r
  }

  lemma CoherentRulesConsistent(s: Session)
    requires Coherent(s)
    ensures RulesConsistent(s.sorters, s.entries)
  {
    forall k | 0 <= k < |s.sorters| ensures ConsistentOn(s.sorters[k].rule, Values(s.entries)) {
      if !s.sorters[k].rule.Binary? {
        WrappedConsistent(s.sorters[k].rule, Values(s.entries));
      }
    }
  }

  lemma ValueInValues(entries: seq<Entry>, e: Entry)
    requires e in entries
    ensures e.value in Values(entries)
  {
    var i :| 0 <= i < |entries| && entries[i] == e;
  }

  lemma CoherentIsComparable(s: Session)
    ensures Coherent(s) ==> InsertionSort.Comparable(Order(s), s.entries)
  {
    if Coherent(s) {
      CoherentRulesConsistent(s);
      var e := s.entries;
      forall i, j | 0 <= i < |e| && 0 <= j < |e| && i != j
        ensures Order(s)(e[i], e[j]) <= 0 || Order(s)(e[j], e[i]) <= 0
      {
        ValueInValues(e, e[i]);
        ValueInValues(e, e[j]);
        CompareAntisymmetric(s.sorters, e, e[i].value, e[j].value);
      }
    }
  }

  lemma CoherentOutputIsOrdered(s: Session, r: seq<Entry>)
    requires multiset(r) == multiset(s.entries)
    requires InsertionSort.Comparable(Order(s), s.entries) ==> InsertionSort.AdjacentSorted(Order(s), r)
    requires Coherent(s) ==> InsertionSort.Comparable(Order(s), s.entries)
    ensures Coherent(s) ==>
              forall i, j | 0 <= i < j < |r| :: Compare(s.sorters, s.entries, r[i].value, r[j].value) < 0
  {
    if Coherent(s) {
      CoherentRulesConsistent(s);
      assert InsertionSort.TransitiveOn(Order(s), r) by {
        forall x, y, z | x in r && y in r && z in r
          ensures Order(s)(x, y) <= 0 && Order(s)(y, z) <= 0 ==> Order(s)(x, z) <= 0
        {
          assert x in multiset(s.entries) && y in multiset(s.entries) && z in multiset(s.entries);
          ValueInValues(s.entries, x);
          ValueInValues(s.entries, y);
          ValueInValues(s.entries, z);
          CompareTransitive(s.sorters, s.entries, x.value, y.value, z.value);
        }
      }
      InsertionSort.AdjacentToSorted(Order(s), r);
    }
  }
}
