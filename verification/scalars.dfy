/**
 The values the generated comparators of a sort session compare: what a
 one-parameter key extractor returns and what a record field holds. PHP's
 loose comparison over mixed types is not a total order, so the model narrows
 these values to one ordered kind: `null` or an integer.
 */
module Scalars {

  /** PHP `null` (also what a missing field reads as) or an integer. */
  datatype Scalar = Null | Int(n: int)

  /** PHP `<` on two scalars: integers by value, `null` below every integer. */
  function Less(x: Scalar, y: Scalar): (b: bool)
    ensures y.Null? ==> !b
    ensures x.Null? && y.Int? ==> b
    ensures x.Int? && y.Int? ==> (b <==> x.n < y.n)
  {
    match x
    case Null => y.Int?
    case Int(m) => y.Int? && m < y.n
  }

  /** `<` is a strict total order on scalars. */
  lemma LessIsStrictTotalOrder(x: Scalar, y: Scalar, z: Scalar)
    ensures !Less(x, x)
    ensures Less(x, y) ==> !Less(y, x)
    ensures Less(x, y) && Less(y, z) ==> Less(x, z)
    ensures x == y || Less(x, y) || Less(y, x)
  {
  }

  /**
   The comparison both generated comparators end with: 0 when the two values
   are `==`, otherwise -1 when the first is `<` the second, otherwise 1.
   */
  function Compare3(x: Scalar, y: Scalar): (r: int)
    ensures r == -1 || r == 0 || r == 1
    ensures r == 0 <==> x == y
    ensures r == -1 <==> Less(x, y)
    ensures r == 1 <==> Less(y, x)
  {
    if x == y then 0 else if Less(x, y) then -1 else 1
  }
}
