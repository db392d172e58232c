/**
 * The capture store `Sub`, modelled by value: a slot is unset (None) or
 * holds a byte offset. With value semantics, writing through one handle can
 * never change another, which is what copy-on-write sharing guarantees.
 */
module Captures {
  import opened Options

  type Sub = seq<Option<nat>>

  /** `Sub::new(n)` and the result of `reset` on a store of length `n`: every slot unset. */
  function NewSub(n: nat): (r: Sub)
    ensures |r| == n
    ensures forall i :: 0 <= i < n ==> r[i].None?
  {
    seq(n, _ => None)
  }

  /** `Sub::update(n, offset)`: a handle equal to `sub` except that slot `n` holds `offset`. */
  function Update(sub: Sub, n: nat, offset: nat): (r: Sub)
    requires n < |sub|
    ensures |r| == |sub| && r[n] == Some(offset)
    ensures forall i :: 0 <= i < |sub| && i != n ==> r[i] == sub[i]
  {
    sub[n := Some(offset)]
  }
}
