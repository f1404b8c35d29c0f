/** The progress reports `Encode` makes through its callback while it walks
    the input, one candidate per processed byte. */
module Progress {

  /** Integer division of `a` by `t`, by repeated subtraction. */
  function Div(a: nat, t: nat): nat
    requires 0 < t
    decreases a
  {
    if a < t then 0 else 1 + Div(a - t, t)
  }

  /** The percentage after `done` of `total` bytes. The source computes
      `(int)((double)done / total * 100)`; the model takes the exact integer
      quotient `done * 100 div total`. */
  function Percent(done: nat, total: nat): (p: int)
    requires done <= total && 0 < total
    ensures 0 <= p <= 100
    ensures done == total ==> p == 100
  {
    DivLe(done * 100, total * 100, total);
    DivTimes(100, total);
    Div(done * 100, total)
  }

  /** `lastReportedProgress`: the last value reported, 0 before any. */
  function Last(reports: seq<int>): int {
    if |reports| == 0 then 0 else reports[|reports| - 1]
  }

  /** The values handed to the callback during the first `done` iterations
      of the loop over `total` bytes: a percentage is reported only when it
      is strictly greater than the last one reported. */
  function Reports(done: nat, total: nat): seq<int>
    requires done <= total
  {
    if done == 0 then []
    else
      var prev := Reports(done - 1, total);
      var p := Percent(done, total);
      if p > Last(prev) then prev + [p] else prev
  }

  lemma PercentMonotone(d: nat, e: nat, total: nat)
    requires d <= e <= total && 0 < total
    ensures Percent(d, total) <= Percent(e, total)
  {
    DivLe(d * 100, e * 100, total);
  }

  /** `Div` is floor division: the quotient times the divisor stays within
      one divisor below the dividend. */
  lemma {:induction false} DivSpec(a: nat, t: nat)
    requires 0 < t
    ensures Div(a, t) * t <= a < Div(a, t) * t + t
    decreases a
  {
    if a >= t {
      DivSpec(a - t, t);
      var q := Div(a - t, t);
      assert (q + 1) * t == q * t + t;
    }
  }

  /** Division is monotone in the dividend. */
  lemma {:induction false} DivLe(a: nat, b: nat, t: nat)
    requires a <= b && 0 < t
    ensures Div(a, t) <= Div(b, t)
    decreases a
  {
    if a >= t {
      DivLe(a - t, b - t, t);
    }
  }

  /** `k * t div t` is `k`. */
  lemma {:induction false} DivTimes(k: nat, t: nat)
    requires 0 < t
    ensures Div(k * t, t) == k
    decreases k
  {
    if k > 0 {
      assert k * t == (k - 1) * t + t;
      DivTimes(k - 1, t);
    }
  }

  /** The reports strictly increase, each lies in 1..100, and the last one
      is the current percentage (or nothing was reported while it is 0). */
  lemma {:induction false} ReportsSpec(done: nat, total: nat)
    requires done <= total && 0 < total
    ensures var rs := Reports(done, total);
            && (forall i, j :: 0 <= i < j < |rs| ==> rs[i] < rs[j])
            && (forall i :: 0 <= i < |rs| ==> 0 < rs[i] <= 100)
            && Last(rs) == Percent(done, total)
  {
    if done > 0 {
      ReportsSpec(done - 1, total);
      PercentMonotone(done - 1, done, total);
    }
  }

  /** Once every byte is processed the last report is 100, and at most a
      hundred reports were made. */
  lemma ReportsComplete(total: nat)
    requires 0 < total
    ensures |Reports(total, total)| > 0 && Last(Reports(total, total)) == 100
    ensures |Reports(total, total)| <= 100
  {
    ReportsSpec(total, total);
    var rs := Reports(total, total);
    ReportsFew(rs);
  }

  /** A strictly increasing sequence of values in 1..100 has at most 100
      members. */
  lemma {:induction false} ReportsFew(rs: seq<int>)
    requires forall i, j :: 0 <= i < j < |rs| ==> rs[i] < rs[j]
    requires forall i :: 0 <= i < |rs| ==> 0 < rs[i] <= 100
    ensures |rs| <= 100
  {
    if |rs| > 0 {
      AtLeastIndex(rs, |rs| - 1);
    }
  }

  lemma {:induction false} AtLeastIndex(rs: seq<int>, i: nat)
    requires i < |rs|
    requires forall a, b :: 0 <= a < b < |rs| ==> rs[a] < rs[b]
    requires forall a :: 0 <= a < |rs| ==> 0 < rs[a]
    ensures rs[i] >= i + 1
    decreases i
  {
    if i > 0 {
      AtLeastIndex(rs, i - 1);
    }
  }
}
