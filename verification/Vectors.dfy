/** std::vector::resize, on sequences. */
module Vectors {

  /** The first n elements, filled up with the value given if there are fewer. */
  function Resized<T>(xs: seq<T>, n: nat, blank: T): (r: seq<T>)
    ensures |r| == n
    ensures forall k :: 0 <= k < n ==> r[k] == if k < |xs| then xs[k] else blank
  {
    if n <= |xs| then xs[..n] else xs + seq(n - |xs|, _ => blank)
  }
}
