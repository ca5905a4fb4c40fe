/** Types that several modules share. */
module Wrappers {

  datatype Option<T> = None | Some(value: T)

  /** Decimal digits as numbers. */
  predicate AllDigits(ds: seq<int>) { forall i :: 0 <= i < |ds| ==> 0 <= ds[i] <= 9 }
}
