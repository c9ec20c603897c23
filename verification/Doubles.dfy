/** Whole numbers as the doubles that Lua scripts compute with: 53 significant bits, ties to even. */
module Doubles {
  import opened Prelude

  const TWO_53: nat := 0x20_0000_0000_0000
  const TWO_54: nat := 0x40_0000_0000_0000

  /**
   * `x`, and something less than one more if `sticky`, rounded to 53 bits: bits are shifted out until one too many
   * is left; that bit rounds up if anything was shifted out behind it, and to even otherwise.
   */
  function Rounded(x: nat, sticky: bool): nat
    decreases x
  {
    if x < TWO_53 then x
    else if x < TWO_54 then 2 * (x / 2 + if x % 2 == 1 && (sticky || x / 2 % 2 == 1) then 1 else 0)
    else 2 * Rounded(x / 2, sticky || x % 2 == 1)
  }

  /** `tonumber`, and every sum or difference of a script, on whole numbers that are not negative. */
  function Double(x: nat): nat {
    Rounded(x, false)
  }

  lemma {:induction false} RoundedLarge(x: nat, sticky: bool)
    requires x >= TWO_53
    ensures Rounded(x, sticky) >= TWO_53
    ensures x < TWO_54 ==> Rounded(x, sticky) <= TWO_54
    decreases x
  {
    if x >= TWO_54 {
      RoundedLarge(x / 2, sticky || x % 2 == 1);
    }
  }

  lemma {:induction false} RoundedMonotone(x: nat, s: bool, y: nat, t: bool)
    requires x < y || (x == y && (s ==> t))
    ensures Rounded(x, s) <= Rounded(y, t)
    decreases y
  {
    if x < TWO_53 <= y {
      RoundedLarge(y, t);
    } else if x >= TWO_53 && y >= TWO_54 {
      if x >= TWO_54 {
        RoundedMonotone(x / 2, s || x % 2 == 1, y / 2, t || y % 2 == 1);
      } else {
        RoundedLarge(x, s);
        RoundedLarge(y / 2, t || y % 2 == 1);
      }
    }
  }

  function Power(k: nat): nat {
    if k == 0 then 1 else 2 * Power(k - 1)
  }

  /** Half a unit: how far `r` may be from `x`, or with `sticky` from all that lies strictly between `x` and `x + 1`. */
  predicate WithinHalf(x: nat, sticky: bool, r: nat, unit: nat) {
    if sticky then (if r <= x then 2 * (x + 1 - r) <= unit else 2 * (r - x) <= unit)
    else (if r <= x then 2 * (x - r) <= unit else 2 * (r - x) <= unit)
  }

  lemma {:induction false} RoundedNearest(x: nat, sticky: bool) returns (m: nat, k: nat)
    requires sticky ==> x >= TWO_53
    ensures Rounded(x, sticky) == m * Power(k) && m <= TWO_53 && (k > 0 ==> TWO_53 <= 2 * m)
    ensures WithinHalf(x, sticky, m * Power(k), Power(k))
    ensures !sticky && (2 * (x - m * Power(k)) == Power(k) || 2 * (m * Power(k) - x) == Power(k)) ==> m % 2 == 0
    decreases x
  {
    if x < TWO_53 {
      m, k := x, 0;
    } else if x < TWO_54 {
      m, k := Rounded(x, sticky) / 2, 1;
      assert Power(1) == 2 * Power(0);
    } else {
      var half: nat;
      m, half := RoundedNearest(x / 2, sticky || x % 2 == 1);
      k := half + 1;
      TimesPower(m, half);
    }
  }

  lemma TimesPower(m: nat, k: nat)
    ensures m * Power(k + 1) == 2 * (m * Power(k))
  {
    assert Power(k + 1) == 2 * Power(k);
  }

  /**
   * A double is a whole number of at most 53 bits times a power of two, with all bits used once that power counts. It
   * is at most half such a unit away, and halfway between two the one with an even number.
   */
  lemma DoubleNearest(x: nat) returns (m: nat, k: nat)
    ensures Double(x) == m * Power(k) && m <= TWO_53 && (k > 0 ==> TWO_53 <= 2 * m)
    ensures 2 * (x - Double(x)) <= Power(k) && 2 * (Double(x) - x) <= Power(k)
    ensures 2 * (x - Double(x)) == Power(k) || 2 * (Double(x) - x) == Power(k) ==> m % 2 == 0
  {
    m, k := RoundedNearest(x, false);
  }

  /** Rounding never turns an order around. */
  lemma DoubleMonotone(x: nat, y: nat)
    requires x <= y
    ensures Double(x) <= Double(y)
  {
    RoundedMonotone(x, false, y, false);
  }

  /** Up to 2^53 every whole number is a double. */
  lemma DoubleExact(x: nat)
    requires x <= TWO_53
    ensures Double(x) == x
  {
  }

  /** From 2^53 on, doubles stay there. */
  lemma DoubleLarge(x: nat)
    requires x >= TWO_53
    ensures Double(x) >= TWO_53
  {
    RoundedLarge(x, false);
  }

  lemma {:induction false} RoundedIsDouble(x: nat, sticky: bool)
    ensures Double(Rounded(x, sticky)) == Rounded(x, sticky)
    decreases x
  {
    if x >= TWO_54 {
      var half := Rounded(x / 2, sticky || x % 2 == 1);
      RoundedIsDouble(x / 2, sticky || x % 2 == 1);
      RoundedLarge(x / 2, sticky || x % 2 == 1);
      assert 2 * half / 2 == half;
    } else if x >= TWO_53 {
      RoundedLarge(x, sticky);
      if Rounded(x, sticky) == TWO_54 {
        TwoTo54();
      }
    }
  }

  lemma DoubleIdempotent(x: nat)
    ensures Double(Double(x)) == Double(x)
  {
    RoundedIsDouble(x, false);
  }

  lemma TwoTo54()
    ensures Double(TWO_54) == TWO_54
  {
    assert Rounded(TWO_53, false) == TWO_53;
  }

  /** The first whole number that is no double. */
  lemma OneLostAt53()
    ensures Double(TWO_53 + 1) == TWO_53 == 9_007_199_254_740_992
  {
  }

  /** Less than one more than a large double is lost in rounding. */
  lemma {:induction false} StickyLost(x: nat)
    requires x >= TWO_53 && Double(x) == x
    ensures Rounded(x, true) == x
    decreases x
  {
    if x >= TWO_54 {
      StickyLost(x / 2);
    }
  }

  /** From 2^54 on, even one more is. */
  lemma OneMoreLost(x: nat)
    requires x >= TWO_54
    ensures Double(Double(x) + 1) == Double(x)
  {
    var d := Double(x);
    DoubleIdempotent(x);
    TwoTo54();
    DoubleMonotone(TWO_54, x);
    assert d == 2 * Rounded(d / 2, d % 2 == 1);
    assert (d + 1) / 2 == d / 2 && (d + 1) % 2 == 1;
    StickyLost(d / 2);
  }
}
