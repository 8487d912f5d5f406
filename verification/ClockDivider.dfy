/** The search for the serial clock divider in `SSIConfigSetExpClk`. */
module ClockDivider {
  import opened Bytes

  const MAXDIV: nat := 254 * 256

  /** `m / p` is the largest count of p that fits into m. */
  lemma QuotientBounds(m: nat, p: nat) returns (q: nat)
    requires p > 0
    ensures q == m / p && q * p <= m < q * p + p
  {
    q := m / p;
    assert m == q * p + m % p;
  }

  lemma {:induction false} MulMonotone(a: nat, b: nat, p: nat)
    requires a <= b
    ensures a * p <= b * p
    decreases b - a
  {
    if a < b {
      MulMonotone(a, b - 1, p);
      assert b * p == (b - 1) * p + p;
    }
  }

  /** Comparing a quotient is comparing with a multiple. */
  lemma QuotientAtLeast(m: nat, p: nat, k: nat)
    requires p > 0
    ensures m / p >= k <==> m >= k * p
  {
    var q := QuotientBounds(m, p);
    if q >= k {
      MulMonotone(k, q, p);
    } else {
      MulMonotone(q + 1, k, p);
      assert (q + 1) * p == q * p + p;
    }
  }

  lemma QuotientOfRate(clock: nat, bitRate: nat)
    requires 0 < bitRate <= clock / 2
    ensures clock / bitRate >= 2
    ensures (clock / bitRate) * bitRate <= clock
  {
    QuotientAtLeast(clock, bitRate, 2);
    var _ := QuotientBounds(clock, bitRate);
  }

  /** `(m / p) - 1` in unsigned arithmetic, which does not wrap: and while it is too large there is a next prescaler. */
  method Divide(m: nat, p: nat) returns (scr: nat)
    requires 2 <= m <= MAXDIV && 2 <= p <= 254 && p % 2 == 0
    requires p > 2 ==> m >= 257 * (p - 2)
    ensures Divides(m, p, scr)
    ensures scr > 255 <==> m >= 257 * p
    ensures scr > 255 ==> p + 2 <= 254
  {
    QuotientAtLeast(m, p, 1);
    QuotientAtLeast(m, p, 257);
    var q := QuotientBounds(m, p);
    QuotientAtLeast(m, p, m + 1);
    MulMonotone(1, p, m + 1);
    scr := Sub32(m / p, 1);
  }

  ghost predicate Divides(m: nat, p: nat, scr: nat) {
    p > 0 && scr + 1 == m / p
  }

  /** Prescaler and clock rate for an admissible bit rate: the least even prescaler whose rate fits eight bits. */
  method Search(clock: nat, bitRate: nat) returns (preDiv: nat, scr: nat)
    requires clock < TWO32
    requires 0 < bitRate <= clock / 2 && clock / bitRate <= 254 * 256
    ensures preDiv * (scr + 1) * bitRate <= clock < preDiv * (scr + 2) * bitRate
    ensures forall q: nat :: 2 <= q < preDiv && q % 2 == 0 ==> 257 * q * bitRate <= clock
    ensures preDiv % 2 == 0 && 2 <= preDiv <= 254
    ensures scr <= 255 && Divides(clock / bitRate, preDiv, scr)
    ensures forall q: nat :: 2 <= q < preDiv && q % 2 == 0 ==> clock / bitRate >= 257 * q
  {
    QuotientOfRate(clock, bitRate);
    var maxBitRate := clock / bitRate;
    preDiv, scr := SearchFrom(maxBitRate);
    InClocks(clock, bitRate, maxBitRate, preDiv, scr);
    forall q: nat | 2 <= q < preDiv && q % 2 == 0 ensures 257 * q * bitRate <= clock {
      AtLeastInClocks(clock, bitRate, 257 * q);
    }
  }

  /** The divider found, measured in cycles of the clock: one more would be slower than asked for. */
  lemma InClocks(clock: nat, bitRate: nat, m: nat, p: nat, scr: nat)
    requires bitRate > 0 && p > 0 && m == clock / bitRate && scr + 1 == m / p
    ensures p * (scr + 1) * bitRate <= clock < p * (scr + 2) * bitRate
  {
    var _ := QuotientBounds(clock, bitRate);
    var _ := QuotientBounds(m, p);
    Distribute(p, scr);
    MulMonotone(p * (scr + 1), m, bitRate);
    MulMonotone(m + 1, p * (scr + 2), bitRate);
    OneMore(m, bitRate);
  }

  lemma Distribute(p: nat, scr: nat)
    ensures p * (scr + 1) == (scr + 1) * p
    ensures p * (scr + 2) == (scr + 1) * p + p
  {
  }

  lemma OneMore(m: nat, n: nat)
    ensures (m + 1) * n == m * n + n
  {
  }

  lemma AtLeastInClocks(clock: nat, bitRate: nat, k: nat)
    requires bitRate > 0 && clock / bitRate >= k
    ensures k * bitRate <= clock
  {
    QuotientAtLeast(clock, bitRate, k);
  }

  /** Every smaller even prescaler would leave a rate of more than eight bits. */
  ghost predicate SmallerTooSmall(m: nat, p: nat) {
    forall q: nat :: 2 <= q < p && q % 2 == 0 ==> m >= 257 * q
  }

  lemma OneMoreTooSmall(m: nat, p: nat)
    requires p % 2 == 0 && SmallerTooSmall(m, p) && m >= 257 * p
    ensures SmallerTooSmall(m, p + 2)
  {
  }

  /** The loop. */
  method SearchFrom(maxBitRate: nat) returns (preDiv: nat, scr: nat)
    requires 2 <= maxBitRate <= MAXDIV
    ensures preDiv % 2 == 0 && 2 <= preDiv <= 254
    ensures scr <= 255 && Divides(maxBitRate, preDiv, scr)
    ensures SmallerTooSmall(maxBitRate, preDiv)
  {
    preDiv := 2;
    scr := Divide(maxBitRate, preDiv);
    while scr > 255
      invariant preDiv % 2 == 0 && 2 <= preDiv <= 254
      invariant Divides(maxBitRate, preDiv, scr)
      invariant scr > 255 <==> maxBitRate >= 257 * preDiv
      invariant scr > 255 ==> preDiv + 2 <= 254
      invariant SmallerTooSmall(maxBitRate, preDiv)
      decreases 254 - preDiv
    {
      OneMoreTooSmall(maxBitRate, preDiv);
      preDiv := preDiv + 2;
      scr := Divide(maxBitRate, preDiv);
    }
  }

  /** A smaller prescaler would have left a serial clock rate of more than eight bits. */
  lemma SmallerPrescalerIsTooSmall(m: nat, q: nat)
    requires q >= 2
    ensures m >= 257 * q <==> m / q - 1 > 255
  {
    QuotientAtLeast(m, q, 257);
  }

  /**
   How good the divider is: the rate is never below the one asked for, it misses the quotient by less than the
   prescaler, and once the prescaler exceeds two the product is within two parts in 257 of it.
   */
  lemma Accuracy(clock: nat, bitRate: nat, p: nat, scr: nat)
    requires 0 < bitRate <= clock / 2
    requires p >= 2 && p % 2 == 0 && Divides(clock / bitRate, p, scr)
    requires p > 2 ==> clock / bitRate >= 257 * (p - 2)
    ensures var m, product := clock / bitRate, (scr + 1) * p;
            && m - p < product <= m
            && product * bitRate <= clock
            && (p > 2 ==> 257 * product >= 255 * m)
  {
    var m := clock / bitRate;
    QuotientOfRate(clock, bitRate);
    var q := QuotientBounds(m, p);
    MulMonotone(q * p, m, bitRate);
  }
}
