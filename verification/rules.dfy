/**
 Rule normalisation: what `Sort::by` turns each registered criterion into.
 Every rule ends up as a two-argument comparator; a field name and a
 one-parameter callable are wrapped, any other callable is used unchanged.
 */
module Rules {
  import opened Scalars

  /**
   An element of the array being sorted: a plain scalar, or a record of named
   fields. A record is a map, so two records with the same fields in a
   different order are one value here, while PHP's `===` tells them apart.
   */
  datatype Value = Plain(scalar: Scalar) | Record(fields: map<string, Scalar>)

  /** The direction a rule was registered with. */
  datatype Dir = Asc | Desc

  /** PHP's sort-order flags, as `by` receives them. */
  const SORT_DESC: int := 3
  const SORT_ASC: int := 4

  /** `get` negates a rule's result only when its flag is identical to SORT_DESC. */
  function DirOf(order: int): (d: Dir)
    ensures d == Desc <==> order == SORT_DESC
    ensures order == SORT_ASC ==> d == Asc
  {
    if order == SORT_DESC then Desc else Asc
  }

  /**
   A PHP callable with its declared arity made explicit: a one-parameter key
   extractor, or a callable of any other arity, which is called with two
   arguments and used as a comparator.
   */
  datatype Callback =
    | OneParam(extract: Value -> Scalar)
    | OtherArity(compare: (Value, Value) -> int)

  /**
   What `by` may be given: a Closure, an array whose first item is the
   callable, or anything else, which is taken as a property name (even a
   string naming a PHP function, such as "strlen").
   */
  datatype Criterion =
    | Closure(callback: Callback)
    | CallableArray(callback: Callback)
    | Property(name: string)

  /** A normalised rule: a raw comparator, a key extractor, or a field name. */
  datatype Rule =
    | Binary(compare: (Value, Value) -> int)
    | Unary(extract: Value -> Scalar)
    | Field(name: string)

  /** One registered sorter: the rule and its direction. */
  datatype Sorter = Sorter(rule: Rule, dir: Dir)

  /** The sign of a comparator result. */
  function Sign(x: int): int {
    if x < 0 then -1 else if x > 0 then 1 else 0
  }

  /** The comparator built for a one-parameter callable: map both sides, then compare. */
  function UnaryComparator(extract: Value -> Scalar, a: Value, b: Value): (r: int)
    ensures r == -1 || r == 0 || r == 1
    ensures r == 0 <==> extract(a) == extract(b)
    ensures r == -1 <==> Less(extract(a), extract(b))
    ensures r == 1 <==> Less(extract(b), extract(a))
  {
    Compare3(extract(a), extract(b))
  }

  /** Whether an element carries the named field (`isset`); a null field reads as missing either way. */
  predicate HasField(v: Value, name: string) {
    v.Record? && name in v.fields
  }

  /** The value the property comparator reads: the field when present, `null` otherwise. */
  function Probe(v: Value, name: string): (r: Scalar)
    ensures HasField(v, name) ==> r == v.fields[name]
    ensures !HasField(v, name) ==> r == Null
    ensures v.Plain? ==> r == Null
  {
    if HasField(v, name) then v.fields[name] else Null
  }

  /** The comparator built for a property name. */
  function PropertyComparator(name: string, a: Value, b: Value): (r: int)
    ensures r == -1 || r == 0 || r == 1
    ensures r == 0 <==> Probe(a, name) == Probe(b, name)
    ensures r == -1 <==> Less(Probe(a, name), Probe(b, name))
    ensures r == 1 <==> Less(Probe(b, name), Probe(a, name))
    ensures !HasField(a, name) && !HasField(b, name) ==> r == 0
    ensures HasField(a, name) && HasField(b, name) ==>
              r == Compare3(a.fields[name], b.fields[name])
  {
    Compare3(Probe(a, name), Probe(b, name))
  }

  /** The two-argument comparator a rule stands for, before its direction is applied. */
  function Apply(rule: Rule, a: Value, b: Value): (r: int)
    ensures rule.Binary? ==> r == rule.compare(a, b)
    ensures !rule.Binary? ==> r == -1 || r == 0 || r == 1
    ensures rule.Unary? ==>
              && (r == 0 <==> rule.extract(a) == rule.extract(b))
              && (r == -1 <==> Less(rule.extract(a), rule.extract(b)))
    ensures rule.Field? ==>
              && (r == 0 <==> Probe(a, rule.name) == Probe(b, rule.name))
              && (r == -1 <==> Less(Probe(a, rule.name), Probe(b, rule.name)))
  {
    match rule
    case Binary(compare) => compare(a, b)
    case Unary(extract) => UnaryComparator(extract, a, b)
    case Field(name) => PropertyComparator(name, a, b)
  }

  /** The rule `by` stores for a criterion. */
  function Normalize(criterion: Criterion): (r: Rule)
    ensures criterion.Property? <==> r.Field?
    ensures criterion.Property? ==> r.name == criterion.name
    ensures !criterion.Property? && criterion.callback.OneParam? ==>
              r.Unary? && r.extract == criterion.callback.extract
    ensures !criterion.Property? && criterion.callback.OtherArity? ==>
              r.Binary? && r.compare == criterion.callback.compare
  {
    match criterion
    case Property(name) => Field(name)
    case Closure(callback) => FromCallback(callback)
    case CallableArray(callback) => FromCallback(callback)
  }

  function FromCallback(callback: Callback): Rule {
    match callback
    case OneParam(extract) => Unary(extract)
    case OtherArity(compare) => Binary(compare)
  }

  /**
   The contract a comparator keeps on a set of elements: swapping the operands
   flips the sign of its result, and non-positive results chain. Then
   `Apply(rule, a, b) <= 0` is a total preorder on the set.
   */
  ghost predicate ConsistentOn(rule: Rule, vals: set<Value>) {
    && (forall a, b | a in vals && b in vals ::
          Sign(Apply(rule, a, b)) == -Sign(Apply(rule, b, a)))
    && (forall a, b, c | a in vals && b in vals && c in vals ::
          Apply(rule, a, b) <= 0 && Apply(rule, b, c) <= 0 ==> Apply(rule, a, c) <= 0)
  }

  /** A wrapped comparator is antisymmetric: swapping the operands negates it. */
  lemma WrappedAntisymmetric(rule: Rule, a: Value, b: Value)
    requires !rule.Binary?
    ensures Apply(rule, a, b) == -Apply(rule, b, a)
  {
    match rule
    case Unary(extract) =>
      LessIsStrictTotalOrder(extract(a), extract(b), extract(a));
    case Field(name) =>
      LessIsStrictTotalOrder(Probe(a, name), Probe(b, name), Probe(a, name));
  }

  /** A wrapped comparator's non-positive results chain. */
  lemma WrappedTransitive(rule: Rule, a: Value, b: Value, c: Value)
    requires !rule.Binary?
    ensures Apply(rule, a, b) <= 0 && Apply(rule, b, c) <= 0 ==> Apply(rule, a, c) <= 0
  {
    match rule
    case Unary(extract) =>
      LessIsStrictTotalOrder(extract(a), extract(b), extract(c));
    case Field(name) =>
      LessIsStrictTotalOrder(Probe(a, name), Probe(b, name), Probe(c, name));
  }

  /** The comparators `by` builds itself keep the comparator contract on every set. */
  lemma WrappedConsistent(rule: Rule, vals: set<Value>)
    requires !rule.Binary?
    ensures ConsistentOn(rule, vals)
  {
    forall a, b | a in vals && b in vals
      ensures Sign(Apply(rule, a, b)) == -Sign(Apply(rule, b, a))
    {
      WrappedAntisymmetric(rule, a, b);
    }
    forall a, b, c | a in vals && b in vals && c in vals
      ensures Apply(rule, a, b) <= 0 && Apply(rule, b, c) <= 0 ==> Apply(rule, a, c) <= 0
    {
      WrappedTransitive(rule, a, b, c);
    }
  }
}
