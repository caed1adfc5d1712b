/**
 What `Sort::get` promises about its output, proved of the session model:
 the output order is the only one consistent with the composite comparator,
 ties keep key order, rules that tie change nothing, and rules appended after
 a decisive one change nothing.
 */
module SortProperties {
  import opened Scalars
  import opened Rules
  import opened Composite
  import opened VanillaSort
  import InsertionSort

  /** Keys grow along the array, as in a PHP list, whose keys are its positions. */
  ghost predicate KeysAscending(entries: seq<Entry>) {
    forall i, j | 0 <= i < j < |entries| :: entries[i].key < entries[j].key
  }

  /**
   For a coherent session, any arrangement of the stored pairs in which the
   composite comparator puts every pair strictly before the ones after it is
   exactly the output of `get`: the library sort may be replaced by any
   correct sort.
   */
  lemma GetIsTheOnlyOrder(s: Session, r: seq<Entry>)
    requires Coherent(s)
    requires multiset(r) == multiset(s.entries)
    requires forall i, j | 0 <= i < j < |r| :: Compare(s.sorters, s.entries, r[i].value, r[j].value) < 0
    ensures r == Get(s)
  {
    var g := Get(s);
    CoherentRulesConsistent(s);
    forall x, y | x in r && y in r
      ensures !(Order(s)(x, y) < 0 && Order(s)(y, x) < 0)
    {
      assert x in multiset(s.entries) && y in multiset(s.entries);
      ValueInValues(s.entries, x);
      ValueInValues(s.entries, y);
      if x.value == y.value {
        CompareSelf(s.sorters, s.entries, x.value);
      } else {
        CompareAntisymmetric(s.sorters, s.entries, x.value, y.value);
      }
    }
    InsertionSort.StrictlySortedUnique(Order(s), r, g);
  }

  /**
   Stability: in the output of a coherent session, two pairs on which every
   rule ties stand in the order of their keys.
   */
  lemma GetStable(s: Session)
    requires Coherent(s)
    ensures forall i, j | 0 <= i < j < |Get(s)| && AllTie(s.sorters, Get(s)[i].value, Get(s)[j].value) ::
              Get(s)[i].key < Get(s)[j].key
  {
    var r := Get(s);
    forall i, j | 0 <= i < j < |r| && AllTie(s.sorters, r[i].value, r[j].value)
      ensures r[i].key < r[j].key
    {
      assert r[i] in multiset(s.entries) && r[j] in multiset(s.entries);
      TiedPairInKeyOrder(s, r[i], r[j]);
    }
  }

  lemma TiedPairInKeyOrder(s: Session, x: Entry, y: Entry)
    requires IsArray(s.entries) && DistinctValues(s.entries)
    requires x in s.entries && y in s.entries
    requires AllTie(s.sorters, x.value, y.value)
    requires Compare(s.sorters, s.entries, x.value, y.value) < 0
    ensures x.key < y.key
  {
    var p :| 0 <= p < |s.entries| && s.entries[p] == x;
    var q :| 0 <= q < |s.entries| && s.entries[q] == y;
    SearchFindsOwnKey(s.entries, p);
    SearchFindsOwnKey(s.entries, q);
  }

  /**
   When every rule ties on every two stored values, `get` returns the array
   as it was stored, provided its keys ascend and no value is stored twice:
   the tie-break then reproduces the original order, whatever the directions.
   */
  lemma GetKeepsOrderWhenAllTie(s: Session)
    requires KeysAscending(s.entries) && DistinctValues(s.entries)
    requires forall i, j | 0 <= i < |s.entries| && 0 <= j < |s.entries| ::
               AllTie(s.sorters, s.entries[i].value, s.entries[j].value)
    ensures Get(s) == s.entries
  {
    var e := s.entries;
    forall i | 0 <= i < |e| - 1 ensures Order(s)(e[i], e[i + 1]) <= 0 {
      SearchFindsOwnKey(e, i);
      SearchFindsOwnKey(e, i + 1);
      assert AllTie(s.sorters, e[i].value, e[i + 1].value);
      assert Compare(s.sorters, e, e[i].value, e[i + 1].value) == -1;
    }
    InsertionSort.SortBySortedIsIdentity(Order(s), e);
  }

  /** With no rule registered, `get` returns a list of distinct values unchanged. */
  lemma GetWithoutRules(entries: seq<Entry>)
    requires KeysAscending(entries) && DistinctValues(entries)
    ensures Get(Using(entries)) == entries
  {
    GetKeepsOrderWhenAllTie(Using(entries));
  }

  /**
   A property rule on a field that no stored element carries ties everywhere:
   the list comes back unchanged in either direction. Plain scalars carry no
   fields at all.
   */
  lemma MissingPropertyKeepsOrder(entries: seq<Entry>, name: string, order: int)
    requires KeysAscending(entries) && DistinctValues(entries)
    requires forall i | 0 <= i < |entries| :: !HasField(entries[i].value, name)
    ensures Get(By(Using(entries), Property(name), order)) == entries
  {
    var s := By(Using(entries), Property(name), order);
    assert s.sorters == [Sorter(Field(name), DirOf(order))];
    GetKeepsOrderWhenAllTie(s);
  }

  /**
   A sorter that ties on every two stored values at different positions may
   be dropped from anywhere in the list without changing the output: a rule
   that always reports "equal" defers to the rules after it.
   */
  lemma GetIgnoresTyingSorter(entries: seq<Entry>, pre: seq<Sorter>, t: Sorter, post: seq<Sorter>)
    requires forall i, j | 0 <= i < |entries| && 0 <= j < |entries| && i != j ::
               Apply(t.rule, entries[i].value, entries[j].value) == 0
    ensures Get(Session(entries, pre + [t] + post)) == Get(Session(entries, pre + post))
  {
    var s1 := Session(entries, pre + [t] + post);
    var s2 := Session(entries, pre + post);
    forall i, j | 0 <= i < |entries| && 0 <= j < |entries| && i != j
      ensures (Order(s1)(entries[i], entries[j]) <= 0) == (Order(s2)(entries[i], entries[j]) <= 0)
    {
      TyingRuleIsTransparent(pre, t, post, entries, entries[i].value, entries[j].value);
    }
    InsertionSort.SortByCongruent(Order(s1), Order(s2), entries);
  }

  /**
   `by` never overrides the sorters registered before it: wherever those
   decide a pair, the new session's comparator agrees with the old one.
   */
  lemma ByKeepsEarlierDecisions(s: Session, criterion: Criterion, order: int, a: Value, b: Value)
    requires !AllTie(s.sorters, a, b)
    ensures Compare(By(s, criterion, order).sorters, s.entries, a, b) == Compare(s.sorters, s.entries, a, b)
  {
    LaterRulesNeverOverride(s.sorters, By(s, criterion, order).sorters[|s.sorters|..], s.entries, a, b);
    assert By(s, criterion, order).sorters == s.sorters + By(s, criterion, order).sorters[|s.sorters|..];
  }

  /**
   When the registered sorters already decide every two stored values at
   different positions, registering one more sorter leaves the output of
   `get` unchanged.
   */
  lemma GetAfterDecisiveSorters(s: Session, criterion: Criterion, order: int)
    requires forall i, j | 0 <= i < |s.entries| && 0 <= j < |s.entries| && i != j ::
               !AllTie(s.sorters, s.entries[i].value, s.entries[j].value)
    ensures Get(By(s, criterion, order)) == Get(s)
  {
    var s2 := By(s, criterion, order);
    var e := s.entries;
    forall i, j | 0 <= i < |e| && 0 <= j < |e| && i != j
      ensures (Order(s2)(e[i], e[j]) <= 0) == (Order(s)(e[i], e[j]) <= 0)
    {
      ByKeepsEarlierDecisions(s, criterion, order, e[i].value, e[j].value);
    }
    InsertionSort.SortByCongruent(Order(s2), Order(s), e);
  }
}
