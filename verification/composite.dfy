/**
 The comparator `Sort::get` hands to the library sort: the registered rules
 in registration order, the first non-zero result (negated for a descending
 rule), and otherwise a tie-break on where the two values first occur in the
 original array.
 */
module Composite {
  import opened Scalars
  import opened Rules

  /** One key-value pair of a PHP array, in iteration order. */
  datatype Entry = Entry(key: int, value: Value)

  /** The keys of an array are pairwise distinct (every PHP array keeps this). */
  ghost predicate IsArray(entries: seq<Entry>) {
    forall i, j | 0 <= i < j < |entries| :: entries[i].key != entries[j].key
  }

  /** No value occurs twice in the array (model values; `===` on records would also compare field order). */
  ghost predicate DistinctValues(entries: seq<Entry>) {
    forall i, j | 0 <= i < j < |entries| :: entries[i].value != entries[j].value
  }

  /** The values held by an array. */
  ghost function Values(entries: seq<Entry>): set<Value> {
    set i | 0 <= i < |entries| :: entries[i].value
  }

  /** What `array_search` returns: the key of the first match, or `false`. */
  datatype Found = NotFound | FoundKey(key: int)

  /**
   `array_search($v, $object, true)`: the key of the first entry whose value
   equals `v`. This is PHP's `===` except that field order inside a record is
   not modelled.
   */
  function ArraySearch(v: Value, entries: seq<Entry>): (r: Found)
    ensures r.NotFound? <==> forall i | 0 <= i < |entries| :: entries[i].value != v
    ensures r.FoundKey? ==>
              exists i | 0 <= i < |entries| ::
                && entries[i].value == v
                && entries[i].key == r.key
                && forall j | 0 <= j < i :: entries[j].value != v
  {
    if |entries| == 0 then NotFound
    else if entries[0].value == v then FoundKey(entries[0].key)
    else
      var r := ArraySearch(v, entries[1..]);
      assert r.FoundKey? ==>
        exists i | 0 <= i < |entries| ::
          && entries[i].value == v && entries[i].key == r.key
          && forall j | 0 <= j < i :: entries[j].value != v
      by {
        if r.FoundKey? {
          var i :| 0 <= i < |entries[1..]| && entries[1..][i].value == v && entries[1..][i].key == r.key
                   && forall j | 0 <= j < i :: entries[1..][j].value != v;
          assert entries[i + 1] == entries[1..][i];
          forall j | 0 <= j < i + 1 ensures entries[j].value != v {
            if j > 0 { assert entries[j] == entries[1..][j - 1]; }
          }
        }
      }
      r
  }

  /** In an array of distinct values, the search for an entry's value finds that entry's own key. */
  lemma {:induction false} SearchFindsOwnKey(entries: seq<Entry>, i: int)
    requires DistinctValues(entries)
    requires 0 <= i < |entries|
    ensures ArraySearch(entries[i].value, entries) == FoundKey(entries[i].key)
  {
    var r := ArraySearch(entries[i].value, entries);
    var k :| 0 <= k < |entries| && entries[k].value == entries[i].value && entries[k].key == r.key
             && forall j | 0 <= j < k :: entries[j].value != entries[i].value;
    assert k == i;
  }

  /**
   PHP `<` on two `array_search` results. Keys compare as integers; `false`
   compared with a key is compared as booleans, so it is below every key but 0.
   */
  function SearchLess(x: Found, y: Found): (b: bool)
    ensures x.FoundKey? && y.FoundKey? ==> (b <==> x.key < y.key)
    ensures x.NotFound? || y.NotFound? ==> (b <==> !AsBool(x) && AsBool(y))
  {
    match (x, y)
    case (FoundKey(i), FoundKey(j)) => i < j
    case (NotFound, FoundKey(j)) => j != 0
    case _ => false
  }

  /** PHP's conversion of an `array_search` result to bool: `false` and key 0 are false. */
  function AsBool(x: Found): bool {
    x.FoundKey? && x.key != 0
  }

  /** The last resort of the composite comparator: -1 or 1, never 0. */
  function TieBreak(entries: seq<Entry>, a: Value, b: Value): (r: int)
    ensures r == -1 || r == 1
    ensures r == -1 <==> SearchLess(ArraySearch(a, entries), ArraySearch(b, entries))
  {
    if SearchLess(ArraySearch(a, entries), ArraySearch(b, entries)) then -1 else 1
  }

  /**
   For an array of distinct values, the tie-break orders two stored values by
   their keys.
   */
  lemma TieBreakByKey(entries: seq<Entry>, i: int, j: int)
    requires DistinctValues(entries)
    requires 0 <= i < |entries| && 0 <= j < |entries|
    ensures TieBreak(entries, entries[i].value, entries[j].value)
         == (if entries[i].key < entries[j].key then -1 else 1)
  {
    SearchFindsOwnKey(entries, i);
    SearchFindsOwnKey(entries, j);
  }

  /** A sorter's result with its direction folded in. */
  function Oriented(sorter: Sorter, a: Value, b: Value): (r: int)
    ensures sorter.dir == Asc ==> r == Apply(sorter.rule, a, b)
    ensures sorter.dir == Desc ==> r == -Apply(sorter.rule, a, b)
    ensures r == 0 <==> Apply(sorter.rule, a, b) == 0
  {
    var result := Apply(sorter.rule, a, b);
    if sorter.dir == Desc then -result else result
  }

  /** Sorter `i` is the first whose comparator does not return 0 on the pair. */
  ghost predicate FirstDecisive(sorters: seq<Sorter>, i: int, a: Value, b: Value) {
    && 0 <= i < |sorters|
    && Apply(sorters[i].rule, a, b) != 0
    && forall j | 0 <= j < i :: Apply(sorters[j].rule, a, b) == 0
  }

  /** Every sorter returns 0 on the pair. */
  ghost predicate AllTie(sorters: seq<Sorter>, a: Value, b: Value) {
    forall j | 0 <= j < |sorters| :: Apply(sorters[j].rule, a, b) == 0
  }

  /** The comparator `get` passes to the sort, with the rules and the array it captured. */
  function Compare(sorters: seq<Sorter>, entries: seq<Entry>, a: Value, b: Value): (r: int)
    ensures r != 0
    ensures forall i | FirstDecisive(sorters, i, a, b) ::
              r == (if sorters[i].dir == Desc then -Apply(sorters[i].rule, a, b)
                    else Apply(sorters[i].rule, a, b))
    ensures AllTie(sorters, a, b) ==>
              && (r == -1 <==> SearchLess(ArraySearch(a, entries), ArraySearch(b, entries)))
              && (r == 1 <==> !SearchLess(ArraySearch(a, entries), ArraySearch(b, entries)))
  {
    if |sorters| == 0 then TieBreak(entries, a, b)
    else if Apply(sorters[0].rule, a, b) != 0 then Oriented(sorters[0], a, b)
    else
      var r := Compare(sorters[1..], entries, a, b);
      assert forall i | FirstDecisive(sorters, i, a, b) :: i > 0 && FirstDecisive(sorters[1..], i - 1, a, b);
      assert AllTie(sorters, a, b) ==> AllTie(sorters[1..], a, b);
      r
  }

  /** Every registered rule keeps the comparator contract on the array's values. */
  ghost predicate RulesConsistent(sorters: seq<Sorter>, entries: seq<Entry>) {
    forall k | 0 <= k < |sorters| :: ConsistentOn(sorters[k].rule, Values(entries))
  }

  /** The shape of a total preorder, derived from the comparator contract, for one triple. */
  lemma RawPreorder(rule: Rule, vals: set<Value>, a: Value, b: Value, c: Value)
    requires ConsistentOn(rule, vals)
    requires a in vals && b in vals && c in vals
    ensures Apply(rule, a, b) < 0 && Apply(rule, b, c) <= 0 ==> Apply(rule, a, c) < 0
    ensures Apply(rule, a, b) <= 0 && Apply(rule, b, c) < 0 ==> Apply(rule, a, c) < 0
    ensures Apply(rule, a, b) == 0 && Apply(rule, b, c) == 0 ==> Apply(rule, a, c) == 0
  {
    assert Sign(Apply(rule, a, b)) == -Sign(Apply(rule, b, a));
    assert Sign(Apply(rule, b, c)) == -Sign(Apply(rule, c, b));
    assert Sign(Apply(rule, a, c)) == -Sign(Apply(rule, c, a));
    assert Apply(rule, a, b) <= 0 && Apply(rule, b, c) <= 0 ==> Apply(rule, a, c) <= 0;
    assert Apply(rule, c, a) <= 0 && Apply(rule, a, b) <= 0 ==> Apply(rule, c, b) <= 0;
    assert Apply(rule, b, c) <= 0 && Apply(rule, c, a) <= 0 ==> Apply(rule, b, a) <= 0;
    assert Apply(rule, c, b) <= 0 && Apply(rule, b, a) <= 0 ==> Apply(rule, c, a) <= 0;
  }

  /** The same shape once the sorter's direction is folded in. */
  lemma OrientedPreorder(sorter: Sorter, vals: set<Value>, a: Value, b: Value, c: Value)
    requires ConsistentOn(sorter.rule, vals)
    requires a in vals && b in vals && c in vals
    ensures Oriented(sorter, a, b) < 0 && Oriented(sorter, b, c) <= 0 ==> Oriented(sorter, a, c) < 0
    ensures Oriented(sorter, a, b) <= 0 && Oriented(sorter, b, c) < 0 ==> Oriented(sorter, a, c) < 0
    ensures Oriented(sorter, a, b) == 0 && Oriented(sorter, b, c) == 0 ==> Oriented(sorter, a, c) == 0
  {
    RawPreorder(sorter.rule, vals, a, b, c);
    RawPreorder(sorter.rule, vals, c, b, a);
    assert Sign(Apply(sorter.rule, a, b)) == -Sign(Apply(sorter.rule, b, a));
    assert Sign(Apply(sorter.rule, b, c)) == -Sign(Apply(sorter.rule, c, b));
    assert Sign(Apply(sorter.rule, a, c)) == -Sign(Apply(sorter.rule, c, a));
  }

  /**
   On two different values of an array of distinct keys and values whose
   rules keep the comparator contract, swapping the operands flips the
   composite comparator's sign.
   */
  lemma {:induction false} CompareAntisymmetric(sorters: seq<Sorter>, entries: seq<Entry>, a: Value, b: Value)
    requires IsArray(entries) && DistinctValues(entries)
    requires RulesConsistent(sorters, entries)
    requires a in Values(entries) && b in Values(entries) && a != b
    ensures Compare(sorters, entries, a, b) < 0 <==> Compare(sorters, entries, b, a) > 0
  {
    if |sorters| == 0 {
      var i :| 0 <= i < |entries| && entries[i].value == a;
      var j :| 0 <= j < |entries| && entries[j].value == b;
      SearchFindsOwnKey(entries, i);
      SearchFindsOwnKey(entries, j);
      assert i != j;
      assert entries[i].key != entries[j].key;
    } else {
      assert ConsistentOn(sorters[0].rule, Values(entries));
      assert Sign(Apply(sorters[0].rule, a, b)) == -Sign(Apply(sorters[0].rule, b, a));
      if Apply(sorters[0].rule, a, b) == 0 {
        assert RulesConsistent(sorters[1..], entries) by {
          forall k | 0 <= k < |sorters[1..]| ensures ConsistentOn(sorters[1..][k].rule, Values(entries)) {
            assert sorters[1..][k] == sorters[k + 1];
          }
        }
        CompareAntisymmetric(sorters[1..], entries, a, b);
      }
    }
  }

  /** Under the same conditions, the composite comparator's "before" chains. */
  lemma {:induction false} CompareTransitive(sorters: seq<Sorter>, entries: seq<Entry>, a: Value, b: Value, c: Value)
    requires IsArray(entries) && DistinctValues(entries)
    requires RulesConsistent(sorters, entries)
    requires a in Values(entries) && b in Values(entries) && c in Values(entries)
    ensures Compare(sorters, entries, a, b) < 0 && Compare(sorters, entries, b, c) < 0 ==>
              Compare(sorters, entries, a, c) < 0
  {
    if |sorters| == 0 {
      var i :| 0 <= i < |entries| && entries[i].value == a;
      var j :| 0 <= j < |entries| && entries[j].value == b;
      var k :| 0 <= k < |entries| && entries[k].value == c;
      SearchFindsOwnKey(entries, i);
      SearchFindsOwnKey(entries, j);
      SearchFindsOwnKey(entries, k);
    } else {
      var s := sorters[0];
      assert ConsistentOn(s.rule, Values(entries));
      OrientedPreorder(s, Values(entries), a, b, c);
      if Apply(s.rule, a, b) == 0 && Apply(s.rule, b, c) == 0 {
        assert RulesConsistent(sorters[1..], entries) by {
          forall k | 0 <= k < |sorters[1..]| ensures ConsistentOn(sorters[1..][k].rule, Values(entries)) {
            assert sorters[1..][k] == sorters[k + 1];
          }
        }
        CompareTransitive(sorters[1..], entries, a, b, c);
      }
    }
  }

  /**
   A value compared with itself ties on every rule that keeps the comparator
   contract, and the tie-break then answers 1 (the two searches find the same
   key): the composite comparator is irreflexive.
   */
  lemma CompareSelf(sorters: seq<Sorter>, entries: seq<Entry>, a: Value)
    requires RulesConsistent(sorters, entries)
    requires a in Values(entries)
    ensures Compare(sorters, entries, a, a) == 1
  {
    forall j | 0 <= j < |sorters| ensures Apply(sorters[j].rule, a, a) == 0 {
      assert ConsistentOn(sorters[j].rule, Values(entries));
      assert Sign(Apply(sorters[j].rule, a, a)) == -Sign(Apply(sorters[j].rule, a, a));
    }
  }

  /** Once one of the first rules has decided a pair, rules appended later never change the result. */
  lemma {:induction false} LaterRulesNeverOverride(sorters: seq<Sorter>, extra: seq<Sorter>, entries: seq<Entry>, a: Value, b: Value)
    requires !AllTie(sorters, a, b)
    ensures Compare(sorters + extra, entries, a, b) == Compare(sorters, entries, a, b)
  {
    assert |sorters| > 0;
    assert (sorters + extra)[0] == sorters[0];
    if Apply(sorters[0].rule, a, b) == 0 {
      assert (sorters + extra)[1..] == sorters[1..] + extra;
      assert !AllTie(sorters[1..], a, b) by {
        var j :| 0 <= j < |sorters| && Apply(sorters[j].rule, a, b) != 0;
        assert sorters[1..][j - 1] == sorters[j];
      }
      LaterRulesNeverOverride(sorters[1..], extra, entries, a, b);
    }
  }

  /** A rule that ties on a pair can be removed from anywhere in the list without changing its result. */
  lemma {:induction false} TyingRuleIsTransparent(pre: seq<Sorter>, t: Sorter, post: seq<Sorter>, entries: seq<Entry>, a: Value, b: Value)
    requires Apply(t.rule, a, b) == 0
    ensures Compare(pre + [t] + post, entries, a, b) == Compare(pre + post, entries, a, b)
  {
    if |pre| == 0 {
      assert pre + [t] + post == [t] + post;
      assert ([t] + post)[1..] == post;
      assert pre + post == post;
    } else {
      assert (pre + [t] + post)[0] == pre[0] && (pre + post)[0] == pre[0];
      assert (pre + [t] + post)[1..] == pre[1..] + [t] + post;
      assert (pre + post)[1..] == pre[1..] + post;
      TyingRuleIsTransparent(pre[1..], t, post, entries, a, b);
    }
  }
}
