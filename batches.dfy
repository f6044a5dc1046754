/** The batch arithmetic of src/checker.js `run` (lines 85-97): how many windows the target
    list is cut into and which slice of it each window covers. */
module Batches {

  function Min(a: nat, b: nat): nat
  {
    if a <= b then a else b
  }

  /** `nBulks`: the exact quotient when `n` divides the count, otherwise the truncated
      quotient plus one. That is the ceiling of `count / n`. */
  function NBulks(count: nat, n: nat): (bulks: nat)
    requires n > 0
    ensures count <= bulks * n
    ensures bulks > 0 ==> (bulks - 1) * n < count
    ensures bulks == 0 <==> count == 0
  {
    if count % n == 0 then count / n else count / n + 1
  }

  /** `startIdx = i * n`: a multiple of `n` whose quotient is the window number. */
  function WindowStart(i: nat, n: nat): (start: nat)
    ensures n > 0 ==> start % n == 0 && start / n == i
  {
    if n == 0 then 0 else QuotientOfSlice(i, n, i * n); i * n
  }

  /** `endIdx = Math.min(lines.length, startIdx + n)`, with `n` a number: `n` lines after
      the start, cut off at the end of the list. */
  function WindowEnd(count: nat, i: nat, n: nat): (end: nat)
    ensures end <= count && end <= WindowStart(i, n) + n
    ensures end == count || end == WindowStart(i, n) + n
  {
    Min(count, i * n + n)
  }

  lemma MulMonotone(a: nat, b: nat, n: nat)
    requires a <= b
    ensures a * n <= b * n
  {
  }

  /** Window `i` of the run is non-empty and holds at most `n` lines; every window but the
      last holds exactly `n` and ends where the next one starts; the last one ends at the end
      of the list and holds `count % n` lines, or `n` when `n` divides the count. */
  lemma WindowShape(count: nat, n: nat, i: nat)
    requires n > 0 && i < NBulks(count, n)
    ensures WindowStart(i, n) < WindowEnd(count, i, n)
    ensures WindowEnd(count, i, n) - WindowStart(i, n) <= n
    ensures i + 1 < NBulks(count, n) ==>
              WindowEnd(count, i, n) == WindowStart(i + 1, n) &&
              WindowEnd(count, i, n) - WindowStart(i, n) == n
    ensures i + 1 == NBulks(count, n) ==>
              WindowEnd(count, i, n) == count &&
              WindowEnd(count, i, n) - WindowStart(i, n) == (if count % n == 0 then n else count % n)
  {
    var b := NBulks(count, n);
    MulMonotone(i + 1, b, n);
    assert (i + 1) * n == i * n + n;
    if i + 1 < b {
      MulMonotone(i + 2, b, n);
      assert (i + 2) * n == i * n + n + n;
      assert (b - 1) * n < count;
      MulMonotone(i + 1, b - 1, n);
    } else {
      assert i == b - 1;
      assert i * n < count;
      if count % n == 0 {
        assert count == (count / n) * n;
      } else {
        assert count == (count / n) * n + count % n;
      }
    }
  }

  /** Every line index below the count lies in window `k / n`, and that window exists. */
  lemma WindowOfIndex(count: nat, n: nat, k: nat)
    requires n > 0 && k < count
    ensures k / n < NBulks(count, n)
    ensures WindowStart(k / n, n) <= k < WindowEnd(count, k / n, n)
  {
    var q := k / n;
    assert k == q * n + k % n;
    assert (q + 1) * n == q * n + n;
    if q >= NBulks(count, n) {
      MulMonotone(NBulks(count, n), q, n);
      assert false;
    }
  }

  /** No line index lies in two windows: the only window holding `k` is window `k / n`. */
  lemma WindowsDisjoint(count: nat, n: nat, i: nat, k: nat)
    requires n > 0 && i < NBulks(count, n)
    requires WindowStart(i, n) <= k < WindowEnd(count, i, n)
    ensures i == k / n
  {
    QuotientOfSlice(i, n, k);
  }

  /** An index between `i * n` and `i * n + n` has quotient `i`. */
  lemma QuotientOfSlice(i: nat, n: nat, k: nat)
    requires n > 0 && i * n <= k < i * n + n
    ensures k / n == i
  {
    var q, r := k / n, k % n;
    assert k == q * n + r && 0 <= r < n;
    assert (q + 1) * n == q * n + n && (i + 1) * n == i * n + n;
    if q < i {
      MulMonotone(q + 1, i, n);
      assert false;
    } else if q > i {
      MulMonotone(i + 1, q, n);
      assert false;
    }
  }

  // ---------------------------------------------------------------------------------------
  // `startIdx + nParrallelRequests` when the count is the string commander passes for `-n`
  // ---------------------------------------------------------------------------------------

  /** The number of decimal digits of `b`. */
  function Digits(b: nat): (d: nat)
    ensures d >= 1
  {
    if b < 10 then 1 else 1 + Digits(b / 10)
  }

  function Pow10(d: nat): (p: nat)
    ensures p >= 1
  {
    if d == 0 then 1 else 10 * Pow10(d - 1)
  }

  /** `Number(String(a) + String(b))`: the numeral of `b` written after the numeral of `a`. */
  function ConcatNumerals(a: nat, b: nat): nat
  {
    a * Pow10(Digits(b)) + b
  }

  /** `Math.min(lines.length, startIdx + n)` where `n` is the string a user passed with `-n`:
      the `+` concatenates the numerals and `Math.min` converts the result back to a number.
      It agrees with the intended end for the first window and never lies before it. */
  function WindowEndStringCount(count: nat, i: nat, n: nat): (end: nat)
    ensures WindowEnd(count, i, n) <= end <= count
    ensures i == 0 ==> end == WindowEnd(count, i, n)
  {
    StringCountEndAtLeast(i, n);
    Min(count, ConcatNumerals(i * n, n))
  }

  /** The concatenated end is the intended `i * n + n` for the first window and at least
      that for every other one. */
  lemma StringCountEndAtLeast(i: nat, n: nat)
    ensures ConcatNumerals(i * n, n) >= i * n + n
    ensures i == 0 ==> ConcatNumerals(i * n, n) == n
  {
    var p := Pow10(Digits(n));
    if i == 0 {
      assert i * n == 0 && 0 * p == 0;
    } else if n == 0 {
      assert i * n == 0 && 0 * p == 0;
    } else {
      StringCountEndTooLarge(i, n);
    }
  }

  /** From the second window on, the concatenated end lies past the intended end, so such a
      window runs beyond `n` lines whenever the list is long enough. */
  lemma {:induction false} StringCountEndTooLarge(i: nat, n: nat)
    requires n > 0 && i >= 1
    ensures ConcatNumerals(i * n, n) > i * n + n
  {
    var p := Pow10(Digits(n));
    assert p >= 10 by {
      assert Digits(n) >= 1;
      assert Pow10(Digits(n)) == 10 * Pow10(Digits(n) - 1);
    }
    MulMonotone(1, i, n);
    assert (i * n) * p >= (i * n) * 10 by {
      MulMonotone(10, p, i * n);
    }
  }

  /** With `-n 5` and 20 lines there are four windows, and the first ends at 5. */
  lemma StringCountFirstWindow(count: nat, n: nat)
    requires count == 20 && n == 5
    ensures NBulks(count, n) == 4
    ensures WindowEndStringCount(count, 0, n) == 5
  {
    assert ConcatNumerals(0, n) == 5;
  }

  /** `-n 5` with 20 target lines: windows 1, 2 and 3 end at min(20, "5" + "5" = 55),
      min(20, 105) and min(20, 155), all 20, so they are [5, 20), [10, 20) and [15, 20).
      Lines 10-14 lie in two windows and lines 15-19 in three; window 1 was meant to end
      at 10. */
  lemma StringCountWindowsOverlap(count: nat, n: nat)
    requires count == 20 && n == 5
    ensures WindowEndStringCount(count, 1, n) == 20
    ensures WindowEndStringCount(count, 2, n) == 20
    ensures WindowEndStringCount(count, 3, n) == 20
    ensures WindowEnd(count, 1, n) == 10
  {
    assert Digits(n) == 1 && Pow10(1) == 10;
    assert ConcatNumerals(5, n) == 55;
    assert ConcatNumerals(10, n) == 105;
    assert ConcatNumerals(15, n) == 155;
  }
}
