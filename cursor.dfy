/**
 * The playback cursor of the hero video carousel: a 1-based index into the
 * N hero videos that moves to its circular successor on every click on the
 * preview, and from which the upcoming (preview) video is computed.
 */
module Cursor {

  /** JavaScript's `%` on numbers: the remainder truncates toward zero and so
      takes the sign of the dividend (Dafny's own `%` is Euclidean). */
  function JsRemainder(a: int, b: int): (r: int)
    requires b > 0
    ensures a >= 0 ==> 0 <= r < b
    ensures a < 0 ==> -b < r <= 0
  {
    if a >= 0 then a % b else -((-a) % b)
  }

  /** The JavaScript remainder differs from the dividend by a multiple of
      the divisor, as any remainder must. */
  lemma JsRemainderCongruent(a: int, b: int)
    requires b > 0
    ensures (a - JsRemainder(a, b)) % b == 0
  {
    if a >= 0 {
      DivModUnique(a - a % b, b, a / b, 0);
    } else {
      DivModUnique(a + (-a) % b, b, -((-a) / b), 0);
    }
  }

  /** A product of a positive multiplier and a positive `n` is at least `n`. */
  lemma MulAtLeast(d: int, n: int)
    requires d >= 1 && n >= 1
    ensures d * n >= n
  {
  }

  /** Quotient and remainder are the only ones that split `m` by `n`. */
  lemma DivModUnique(m: int, n: int, q: int, r: int)
    requires n >= 1 && 0 <= r < n && m == q * n + r
    ensures m % n == r && m / n == q
  {
    var q', r' := m / n, m % n;
    assert (q - q') * n == r' - r;
    if q > q' {
      MulAtLeast(q - q', n);
    } else if q < q' {
      MulAtLeast(q' - q, n);
    }
  }

  /** The index after `i` in a carousel of `n` videos, `(i % n) + 1`: the
      upcoming video, and the cursor after a click. Inside 1..n it steps up
      by one and wraps from `n` back to 1. */
  function Successor(i: int, n: int): (r: int)
    requires n >= 1
    ensures 1 <= i <= n ==> 1 <= r <= n
    ensures 1 <= i < n ==> r == i + 1
    ensures i == n ==> r == 1
  {
    JsRemainder(i, n) + 1
  }

  /** The cursor after `k` clicks, starting from `i`. */
  function Advance(i: int, n: int, k: nat): (r: int)
    requires n >= 1
    ensures 1 <= i <= n ==> 1 <= r <= n
  {
    if k == 0 then i else Successor(Advance(i, n, k - 1), n)
  }

  /** One more click moves the cursor on by one successor step. */
  lemma AdvanceStep(i: int, n: int, k: nat)
    requires n >= 1
    ensures Advance(i, n, k + 1) == Successor(Advance(i, n, k), n)
  {
  }

  /** Stepping a Euclidean remainder by one: it goes up by one, or wraps to 0. */
  lemma ModStep(m: int, n: int)
    requires n >= 1 && m >= 0
    ensures (m + 1) % n == if m % n + 1 < n then m % n + 1 else 0
  {
    var q, r := m / n, m % n;
    if r + 1 < n {
      DivModUnique(m + 1, n, q, r + 1);
    } else {
      assert (q + 1) * n == q * n + n;
      DivModUnique(m + 1, n, q + 1, 0);
    }
  }

  /** After `k` clicks the cursor sits `k` places further round the circle. */
  lemma {:induction false} AdvanceClosedForm(i: int, n: int, k: nat)
    requires n >= 1 && 1 <= i <= n
    ensures Advance(i, n, k) == (i - 1 + k) % n + 1
  {
    if k > 0 {
      AdvanceClosedForm(i, n, k - 1);
      ModStep(i - 1 + k - 1, n);
    }
  }

  /** Shifting a position of the circle by `k` lands on it again exactly
      when `k` is a multiple of `n`. */
  lemma ShiftReturnsIff(p: int, n: int, k: nat)
    requires n >= 1 && 0 <= p < n
    ensures (p + k) % n == p <==> k % n == 0
  {
    var q, r := k / n, k % n;
    assert k == q * n + r;
    if p + r < n {
      DivModUnique(p + k, n, q, p + r);
    } else {
      assert (q + 1) * n == q * n + n;
      DivModUnique(p + k, n, q + 1, p + r - n);
    }
  }

  /** The cursor comes back to where it started exactly when the number of
      clicks is a multiple of `n`: so `n` clicks return it, and no fewer do. */
  lemma AdvanceReturnsIff(i: int, n: int, k: nat)
    requires n >= 1 && 1 <= i <= n
    ensures Advance(i, n, k) == i <==> k % n == 0
  {
    AdvanceClosedForm(i, n, k);
    ShiftReturnsIff(i - 1, n, k);
  }

  /** With the four hero videos, clicks from the first video show 2, 3, 4
      and then wrap round to 1. */
  lemma FourVideoCycle()
    ensures Advance(1, 4, 1) == 2 && Advance(1, 4, 2) == 3
    ensures Advance(1, 4, 3) == 4 && Advance(1, 4, 4) == 1
  {
  }
}
