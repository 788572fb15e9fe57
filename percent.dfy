/** Integer form of `Math.round(part / total * 100)`, the percentage that both the attendance
    statistics (server/db.ts) and the membership payment rate (TrainerMembershipFees.tsx)
    compute. `Math.round` rounds halves up, so for total > 0 the value is
    floor(100 * part / total + 1/2) = (200 * part + total) / (2 * total). */
module Percent {

  function RoundedPercent(part: nat, total: nat): (r: nat)
    // no rows: the source returns 0 instead of dividing by zero
    ensures total == 0 ==> r == 0
    // r is the integer nearest to 100 * part / total, a half rounding up
    ensures total > 0 ==> -(total as int) <= 200 * part - 2 * total * r < total
    // a share of a whole is a percentage
    ensures part <= total ==> r <= 100
  {
    if total == 0 then 0
    else
      var r := (200 * part + total) / (2 * total);
      NearestBounds(200 * part + total, 2 * total, r);
      if part <= total then AtMostHundred(part, total, r); r else r
  }

  /** Euclidean division pins the quotient between two multiples of the divisor. */
  lemma NearestBounds(a: nat, d: nat, q: nat)
    requires d > 0 && q == a / d
    ensures d * q <= a < d * (q + 1)
  {
    assert a == d * q + a % d;
  }

  lemma AtMostHundred(part: nat, total: nat, r: nat)
    requires 0 < total && part <= total
    requires 2 * total * r <= 200 * part + total
    ensures r <= 100
  {
    if r >= 101 {
      calc {
        2 * total * r;
      >= { MulMonotone(2 * total, 101, r); }
        2 * total * 101;
      >
        200 * part + total;
      }
    }
  }

  lemma MulMonotone(k: nat, a: nat, b: nat)
    requires a <= b
    ensures k * a <= k * b
  {
  }

  /** A larger share never rounds to a smaller percentage. */
  lemma RoundedPercentMonotone(part: nat, part': nat, total: nat)
    requires part <= part'
    ensures RoundedPercent(part, total) <= RoundedPercent(part', total)
  {
    var r, r' := RoundedPercent(part, total), RoundedPercent(part', total);
    if total > 0 && r > r' {
      MulMonotone(2 * total, r' + 1, r);
    }
  }

  /** The whole is 100 %, and none of it is 0 %. */
  lemma RoundedPercentExtremes(total: nat)
    requires total > 0
    ensures RoundedPercent(total, total) == 100
    ensures RoundedPercent(0, total) == 0
  {
    var r, z := RoundedPercent(total, total), RoundedPercent(0, total);
    if r < 100 {
      MulMonotone(2 * total, r, 99);
    }
    if z > 0 {
      MulMonotone(2 * total, 1, z);
    }
  }
}
