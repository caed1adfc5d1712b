# VanillaSort in Dafny

This is a model of the `Sort` class of the PHP library `rentalhost/vanilla-sort`.
`Sort` is a chainable multi-key sorter used as
`Sort::using($array)->by($rule, $order)->...->get()`.

- `using` stores an array.
- `by` turns each criterion into a two-argument comparator and appends it, with its
  direction, to the list of sorters.
- A field name becomes a "read the field, absent reads as null, compare" comparator.
- A one-parameter callable becomes a "map both sides, then return -1/0/1" comparator.
- Any other callable is used unchanged.
- `get` sorts a copy of the array with `uasort`, so each key stays with its value.
  The comparator asks the sorters in registration order and returns the first
  non-zero result, negated for a descending sorter. When every sorter returns 0,
  it compares the keys that `array_search` finds for the two values and returns -1 or 1.

The model has seven modules, one per file:

| file | module | models |
|---|---|---|
| `scalars.dfy` | `Scalars` | the values the generated comparators compare, with PHP `==`/`<` narrowed to `null` and integers |
| `rules.dfy` | `Rules` | criteria, rule kinds, directions, the two generated comparators and the dispatch of `by` |
| `composite.dfy` | `Composite` | `array_search`, the tie-break and the composite comparator of `get`, and its order properties |
| `insertion_sort.dfy` | `InsertionSort` | a functional insertion sort, standing in for `uasort` |
| `sort.dfy` | `VanillaSort` | the session: `using`, `by`, `get` |
| `sort_properties.dfy` | `SortProperties` | what the output of `get` satisfies |
| `scenarios.dfy` | `Scenarios` | two outcomes the test suite expects |

Arrays are sequences of `Entry(key, value)` pairs in iteration order. Keys are integers.
An element is a plain scalar or a record `map<string, Scalar>`.
The callable's arity, which the source reads by reflection, is an explicit tag:
`OneParam(extract)` or `OtherArity(compare)`.
The PHP flags keep their values: `SORT_DESC` is 3 and `SORT_ASC` is 4. Only a flag
identical to `SORT_DESC` makes a sorter descending. The order argument of `by` has no
default here: the source's default `SORT_ASC` is passed explicitly, as `By(s, c, SORT_ASC)`.

On these points the code behaves differently from what a reader might expect, and the model follows the code:

- The tie-break does not compare original positions. It compares the keys that
  `array_search($v, $object, true)` returns (src/VanillaSort/Sort.php:87), and those
  are keys. For a list, keys and positions coincide. For any other array, ties are
  ordered by key (`SortProperties.GetStable`), not by position.
- The comparators are not normalised to -1/0/1 with the direction folded in at
  registration. `by` stores the raw callable and the flag. `get` negates the result
  of a raw two-argument comparator, whatever its size.
- `get` takes no direction argument, so a final whole-output reversal is not modelled.
- With two identical values in the array, both `array_search` calls find the same key.
  The tie-break then answers 1 in both orders (`Composite.CompareSelf`), so the
  composite comparator is not a total order. The ordering theorems therefore require
  distinct values (`VanillaSort.Coherent`).
- The ordering theorems also require every raw two-argument comparator to keep the
  caller contract on the stored values: swapped operands flip the sign, and
  non-positive results chain. The comparators `by` builds itself always keep it
  (`Rules.WrappedConsistent`).
- Under those conditions the output is the only arrangement the comparator allows
  (`SortProperties.GetIsTheOnlyOrder`). So replacing `uasort` by the insertion sort
  changes nothing.

## Model

| member | source | states |
|---|---|---|
| `Scalars.Less` | src/VanillaSort/Sort.php:110 | PHP `<` on the modelled values: nothing is below null, null is below every integer, and two integers compare by value |
| `Scalars.Compare3` | src/VanillaSort/Sort.php:106-110 | the shared comparison returns only -1, 0 or 1: 0 exactly when the two values are equal, -1 exactly when the first is less, 1 exactly when the second is less |
| `Rules.UnaryComparator` | src/VanillaSort/Sort.php:100-112 | the one-parameter wrapper returns only -1/0/1: 0 exactly when the extracted keys are equal, -1 exactly when key(a) < key(b), 1 exactly when key(b) < key(a) |
| `Rules.PropertyComparator` | src/VanillaSort/Sort.php:121-133 | the property wrapper compares the field values, with a missing field read as null; two elements that both lack the field compare 0; two that both have it compare like the unary wrapper on those values |
| `Rules.DirOf` | src/VanillaSort/Sort.php:82 | a sorter is descending exactly when its flag is identical to SORT_DESC; SORT_ASC and every other flag give ascending |
| `Rules.Probe` | src/VanillaSort/Sort.php:124-125 | the property comparator reads the field when the element carries it, and null otherwise; a plain scalar always reads as null |
| `Rules.Apply` | src/VanillaSort/Sort.php:80 | calling a sorter's function: a raw comparator's result as it is; a wrapped one returns only -1/0/1, with 0 exactly when the extracted keys (or field values) are equal and -1 exactly when the first is less |
| `Rules.Normalize` | src/VanillaSort/Sort.php:43-58 | a property name becomes a field rule on that name; a Closure or callable array with one parameter becomes a unary rule with that extractor; a callable of any other arity is kept as a raw comparator |
| `Rules.WrappedAntisymmetric` | src/VanillaSort/Sort.php:100-133 | for the unary and the property wrapper, swapping the operands negates the result |
| `Rules.WrappedConsistent` | src/VanillaSort/Sort.php:100-133 | the wrapped comparators keep the comparator contract on every set of elements: opposite signs for swapped operands, and non-positive results chain |
| `Composite.ArraySearch` | src/VanillaSort/Sort.php:87 | `array_search` answers false exactly when no entry holds the value; otherwise it answers the key of the first entry, in iteration order, that holds it |
| `Composite.SearchFindsOwnKey` | src/VanillaSort/Sort.php:87 | in an array of distinct values, searching for an entry's value finds that entry's own key |
| `Composite.SearchLess` | src/VanillaSort/Sort.php:87 | PHP `<` on two `array_search` results: two keys compare as integers; when either side is `false`, both sides are converted to bool, so `false` is below every key except 0 and nothing is below `false` |
| `Composite.TieBreak` | src/VanillaSort/Sort.php:87 | the tie-break returns only -1 or 1, and -1 exactly when the first value's search result is less than the second's |
| `Composite.TieBreakByKey` | src/VanillaSort/Sort.php:87 | in an array of distinct values, the tie-break orders two stored values by their keys |
| `Composite.Oriented` | src/VanillaSort/Sort.php:82 | an ascending sorter's result passes unchanged, a descending sorter's is negated, and either way a result is 0 exactly when the rule returned 0 |
| `Composite.Compare` | src/VanillaSort/Sort.php:77-88 | the composite comparator is never 0; when rule i is the first non-zero one, it returns that rule's result, negated exactly when rule i is descending; when every rule returns 0, including with no rules, it returns -1 if the first value's search result is less than the second's, else 1, whatever the directions |
| `Composite.CompareSelf` | src/VanillaSort/Sort.php:86-87 | a value compared with itself falls through every consistent rule, and the tie-break answers 1 |
| `Composite.CompareAntisymmetric` | src/VanillaSort/Sort.php:77-88 | on two different values of an array with distinct keys and values, whose rules keep the comparator contract, swapping the operands flips the composite's sign |
| `Composite.CompareTransitive` | src/VanillaSort/Sort.php:77-88 | under the same conditions, "before" under the composite comparator chains |
| `Composite.LaterRulesNeverOverride` | src/VanillaSort/Sort.php:79-84 | once one of the rules decides a pair, rules placed after them never change the composite's result |
| `Composite.TyingRuleIsTransparent` | src/VanillaSort/Sort.php:79-84 | a rule that returns 0 on a pair can be removed from any place in the list without changing the composite's result on that pair |
| `InsertionSort.SortBy` | src/VanillaSort/Sort.php:77 | the sort returns a permutation of its input; when any two elements at different positions can stand in some order, each element is ordered no later than its successor |
| `InsertionSort.SortBySortedIsIdentity` | src/VanillaSort/Sort.php:77 | an input already in order comes back unchanged |
| `InsertionSort.SortByCongruent` | src/VanillaSort/Sort.php:77 | two comparators with the same sign on every pair of elements present sort alike |
| `InsertionSort.StrictlySortedUnique` | src/VanillaSort/Sort.php:77 | two strictly ordered arrangements of the same elements are equal when the comparator is never negative in both orders |
| `VanillaSort.Using` | src/VanillaSort/Sort.php:142-148 | a new session holds the given array and no sorters |
| `VanillaSort.By` | src/VanillaSort/Sort.php:41-66 | `by` keeps the array, appends exactly one sorter after the earlier ones and leaves those unchanged; the new sorter's rule is the normalised criterion, and it is descending exactly when the flag is SORT_DESC |
| `VanillaSort.Get` | src/VanillaSort/Sort.php:72-91 | `get` returns the stored key-value pairs, each key still with its value; for a coherent session every pair is ordered strictly before every later pair under the composite comparator |
| `SortProperties.GetIsTheOnlyOrder` | src/VanillaSort/Sort.php:77-90 | for a coherent session, any arrangement of the stored pairs that the composite comparator orders strictly is exactly the output of `get` |
| `SortProperties.GetStable` | src/VanillaSort/Sort.php:86-87 | in the output of a coherent session, two pairs on which every rule ties stand in key order |
| `SortProperties.GetKeepsOrderWhenAllTie` | src/VanillaSort/Sort.php:79-90 | when every rule ties on every two stored values, a list of distinct values comes back in its stored order, whatever the directions |
| `SortProperties.GetWithoutRules` | src/VanillaSort/Sort.php:74-90 | with no rules, `get` returns a list of distinct values unchanged |
| `SortProperties.MissingPropertyKeepsOrder` | src/VanillaSort/Sort.php:121-133 | a property rule on a field that no stored element carries (plain scalars carry none) leaves a list of distinct values unchanged in either direction |
| `SortProperties.GetIgnoresTyingSorter` | src/VanillaSort/Sort.php:79-84 | a sorter that ties on every two stored values can be dropped from any place in the list without changing the output |
| `SortProperties.ByKeepsEarlierDecisions` | src/VanillaSort/Sort.php:60-63 | wherever the earlier sorters decide a pair, the comparator after `by` agrees with the one before it |
| `SortProperties.GetAfterDecisiveSorters` | src/VanillaSort/Sort.php:79-84 | when the sorters already decide every two stored values, registering one more leaves the output of `get` unchanged |
| `Scenarios.NumbersAscending` | tests/VanillaSort/SortTest.php:56-63 | sorting [3, 2, 1, 6, 5, 4] with `$v1 - $v2` gives 1 to 6, each number with its original key |
| `Scenarios.NumbersDescending` | tests/VanillaSort/SortTest.php:69-76 | the same comparator with SORT_DESC gives 6 to 1 |

## Left out

- Reflection: the arity of a callable is the explicit `OneParam`/`OtherArity` tag. A callable array's items after the first are not modelled. An empty or non-callable array makes `ReflectionFunction` throw, and that is not modelled.
- PHP loose comparison across types: extracted keys and field values are `null` or integers. In PHP `null == 0` holds. Here `null` sorts below every integer, so the comparison stays a total order.
- Strings and floats as data: elements are `null`, integers or records of those, and so are field values and extracted keys. So the string-sorting tests (tests/VanillaSort/SortTest.php:82-102 and 454-492) and string fields such as `country` or `name` cannot be represented.
- Criteria in the property branch are strings here. In the source, anything that is neither a `Closure` nor an array, such as an invokable object or an integer, also reaches that branch and is used as a property name.
- Field order in records: a record is a map from field names to values. Two records that differ only in field order are one value here, but not under PHP's `===`. So `array_search` and the distinct-values condition cannot tell them apart, where the source can.
- `isset` quirks: a field set to `null` and a missing field both read as null, as in the source. String offsets on scalar strings are not modelled; a scalar has no fields.
- String keys: array keys are integers. PHP's `<` between string keys in the tie-break is not modelled.
- Integer width: the negation of a raw comparator result is on unbounded integers. PHP turns `-PHP_INT_MIN` into a float.
- Raw comparators that return non-integers, such as `false` or `0.0`, which the strict `!== 0` test treats as decisive, are not modelled. Exceptions thrown by callbacks are not modelled either.
- `uasort` is replaced by an insertion sort. `SortProperties.GetIsTheOnlyOrder` shows the choice does not matter for coherent sessions. For sessions with duplicate values or inconsistent comparators, the output order of `uasort` is not modelled.
- `using` with an `IteratorAggregate`, and the `(array)` cast in `get`, are left out: the session holds an array directly.
- A final direction argument to `get` does not exist in the code, so it is not modelled.
- Mutation: `by` returns a new session instead of updating `$this`. `get` reads the session and changes nothing. So repeated calls give the same output by construction, and no lemma states it.
- VanillaSort.Get: the ordering guarantee is stated only for coherent sessions (distinct keys and values, consistent raw comparators). The permutation guarantee holds for every session.
