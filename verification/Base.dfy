/** Wrappers shared by the watchdog and the memory-training models. */
module Base {

  datatype Option<+T> = None | Some(value: T)

  /** The status codes of the training code. */
  datatype Status = MvOk | MvFail

  function Min(x: int, y: int): int { if x < y then x else y }

  function Max(x: int, y: int): int { if x < y then y else x }

  /** `q` copies of `d` fit into `y` exactly when the quotient is at least `q`. */
  lemma QuotientAtLeast(q: int, d: nat, y: nat)
    requires d >= 1
    ensures q * d <= y <==> q <= y / d
  {
    assert (y / d) * d <= y < (y / d + 1) * d;
    if q <= y / d {
      assert q * d <= (y / d) * d;
    } else {
      assert q * d >= (y / d + 1) * d;
    }
  }
}
