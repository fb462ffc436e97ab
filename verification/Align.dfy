/**
 * `AlignPtr` (WndLib.h): round an address up to a boundary by adding
 * `boundary - 1` and clearing the low bits with `~(boundary - 1)`.
 *
 * Addresses are modelled as naturals measured from a base that is itself
 * aligned to every boundary used (a resource and a `GlobalAlloc` block are
 * both at least 4-byte aligned), so aligning an offset aligns the address.
 * For a power-of-two boundary, clearing the low bits of `n` is `n - n % boundary`.
 */
module Align {

  function AlignPtr(p: nat, boundary: nat): (r: nat)
    requires boundary > 0
    ensures r % boundary == 0
    ensures p <= r < p + boundary
  {
    var n := p + boundary - 1;
    MultipleOfQuotient(n, boundary);
    n - n % boundary
  }

  lemma AlignPtrIdempotent(p: nat, boundary: nat)
    requires boundary > 0
    ensures AlignPtr(AlignPtr(p, boundary), boundary) == AlignPtr(p, boundary)
    ensures p % boundary == 0 ==> AlignPtr(p, boundary) == p
  {
    AlignedFixed(AlignPtr(p, boundary), boundary);
    if p % boundary == 0 {
      AlignedFixed(p, boundary);
    }
  }

  // Arithmetic helpers: each step below is linear, so the solver needs no
  // nonlinear reasoning about a symbolic boundary.

  lemma {:induction false} MulAtLeast(b: int, k: int)
    requires b > 0 && k >= 1
    ensures b * k >= b
  {
    if k > 1 {
      MulAtLeast(b, k - 1);
      assert b * k == b * (k - 1) + b;
    }
  }

  /** A multiple of `b` strictly between `-b` and `b` is zero. */
  lemma SmallMultipleIsZero(b: int, k: int)
    requires b > 0
    requires -b < b * k < b
    ensures k == 0
  {
    if k >= 1 {
      MulAtLeast(b, k);
    } else if k <= -1 {
      MulAtLeast(b, -k);
    }
  }

  lemma MultipleOfQuotient(n: int, b: int)
    requires b > 0
    ensures (n - n % b) % b == 0
  {
    var m := n - n % b;
    assert m == b * (n / b);
    assert m == b * (m / b) + m % b;
    assert b * (n / b - m / b) == m % b;
    SmallMultipleIsZero(b, n / b - m / b);
  }

  lemma AlignedFixed(p: nat, boundary: nat)
    requires boundary > 0
    requires p % boundary == 0
    ensures AlignPtr(p, boundary) == p
  {
    var n := p + boundary - 1;
    var r := AlignPtr(p, boundary);
    assert p == boundary * (p / boundary);
    assert r == boundary * (r / boundary);
    assert r - p == boundary * (r / boundary - p / boundary);
    SmallMultipleIsZero(boundary, r / boundary - p / boundary);
  }
}
