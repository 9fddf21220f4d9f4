/**
 The bounded integer type `Int` (types/int.go): mathematical integers whose operations
 panic (`None`) when the result needs more than 255 bits.
 */
module Ints {
  import opened Arith

  const MAX_BIT_LEN: nat := 255

  predicate InRange(x: int) { Abs(x) < INT_LIMIT }

  function Bounded(x: int): Option<int> {
    if InRange(x) then Some(x) else None
  }

  function Add(x: int, y: int): Option<int> { Bounded(x + y) }

  function Sub(x: int, y: int): Option<int> { Bounded(x - y) }

  /** Multiplication refuses on the operands' bit lengths first, and on the product's after. */
  function Mul(x: int, y: int): Option<int> {
    if BitLen(x) + BitLen(y) - 1 > MAX_BIT_LEN then None else Bounded(x * y)
  }

  function Quo(x: int, y: int): Option<int> {
    if y == 0 then None else Some(Arith.Quo(x, y))
  }

  function WithDecimal(n: int, dec: nat): Option<int> { Bounded(n * Pow(10, dec)) }

  /** The product of two non-zero numbers has at least as many bits as both together, less one. */
  lemma BitLenOfProduct(x: int, y: int)
    requires x != 0 && y != 0
    ensures BitLen(x) + BitLen(y) - 1 <= BitLen(x * y)
  {
    var m, n := BitLen(x) - 1, BitLen(y) - 1;
    BitLenMeans(x, m);
    BitLenMeans(y, n);
    PowPositive(2, m);
    PowPositive(2, n);
    AbsMul(x, y);
    MulMono(Pow(2, m), Abs(x), Pow(2, n));
    MulMono(Pow(2, n), Abs(y), Abs(x));
    PowAdds(2, m, n);
    BitLenMeans(x * y, m + n);
  }

  /** The early bit-length test never refuses a product that the final test would accept. */
  lemma MulRefusesOnlyOverflow(x: int, y: int)
    requires InRange(x) && InRange(y)
    ensures Mul(x, y) == Bounded(x * y)
  {
    LimitsArePowersOfTwo();
    BitLenMeans(x, MAX_BIT_LEN);
    BitLenMeans(y, MAX_BIT_LEN);
    if x != 0 && y != 0 {
      BitLenOfProduct(x, y);
      BitLenMeans(x * y, MAX_BIT_LEN);
    }
  }
}
