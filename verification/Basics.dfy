/** Types shared by the models: optional values and account addresses; and a fact on sets. */
module Basics {

  datatype Option<+T> = None | Some(value: T)

  /** A normalised account or contract address. */
  datatype Address = Address(hex: string)

  /** The address under which global locks are kept. */
  const ZERO_ADDRESS: Address := Address("0000000000000000000000000000000000000000")

  lemma SubsetIsSmaller<T>(a: set<T>, b: set<T>)
    requires a <= b
    ensures |a| <= |b|
  {
    assert b == a + (b - a);
  }
}
