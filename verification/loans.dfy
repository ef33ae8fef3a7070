/** The pure loan arithmetic of `src/lib/loans.ts`: the equated monthly
    installment (EMI), the total payable, the reducing-balance repayment
    schedule and the daily late fee. */
module Loans {
  import opened Money
  import opened Dates

  /** Monthly rate from an annual percentage: `annualRate / 12 / 100`. */
  function MonthlyRate(annualRate: real): real {
    annualRate / 12.0 / 100.0
  }

  /** One month's interest on `balance` at `monthlyRate`, before rounding. */
  function MonthInterest(balance: real, monthlyRate: real): real {
    balance * monthlyRate
  }

  /** The level payment `P * r * f / (f - 1)` of the reducing-balance formula,
      where `f` stands for the growth factor `(1 + r)^n`. */
  function LevelPayment(principal: real, rate: real, f: real): real
    requires f != 1.0
  {
    principal * rate * f / (f - 1.0)
  }

  /** The exact (unrounded) EMI of the reducing-balance formula for `n` months. */
  function Annuity(principal: real, rate: real, n: nat): real
    requires rate > 0.0 && n >= 1
  {
    PowAboveOne(1.0 + rate, n);
    LevelPayment(principal, rate, Pow(1.0 + rate, n))
  }

  /** Balance left after `k` months of exact interest at `rate` and payment `payment`:
      an independent reference for what a level payment has to achieve. */
  function ExactBalance(balance: real, rate: real, payment: real, k: nat): real
    decreases k
  {
    if k == 0 then balance
    else ExactBalance(balance + MonthInterest(balance, rate) - payment, rate, payment, k - 1)
  }

  /** EMI of a loan. Invalid input (principal or tenure not positive) gives 0;
      a rate that is not positive gives the straight-line amount, NOT rounded;
      otherwise the annuity payment rounded half-up to the cent. */
  function CalculateEMI(principal: real, annualRate: real, tenureMonths: int): (emi: real)
    ensures principal <= 0.0 || tenureMonths <= 0 ==> emi == 0.0
    ensures principal > 0.0 && tenureMonths > 0 && annualRate <= 0.0 ==>
              emi * tenureMonths as real == principal
    ensures principal > 0.0 && tenureMonths > 0 && annualRate > 0.0 ==>
              var a := Annuity(principal, MonthlyRate(annualRate), tenureMonths);
              IsCents(emi) && a - 0.005 < emi <= a + 0.005
    ensures emi >= 0.0
  {
    if principal <= 0.0 || tenureMonths <= 0 then 0.0
    else if annualRate <= 0.0 then principal / tenureMonths as real
    else
      var r := MonthlyRate(annualRate);
      var a := Annuity(principal, r, tenureMonths);
      AnnuityPositive(principal, r, tenureMonths);
      Round2NonNegative(a);
      Round2(a)
  }

  lemma AnnuityPositive(principal: real, rate: real, n: nat)
    requires principal > 0.0 && rate > 0.0 && n >= 1
    ensures Annuity(principal, rate, n) > 0.0
  {
    PowAboveOne(1.0 + rate, n);
    LevelPaymentPositive(principal, rate, Pow(1.0 + rate, n));
  }

  lemma LevelPaymentPositive(principal: real, rate: real, f: real)
    requires principal > 0.0 && rate > 0.0 && f > 1.0
    ensures LevelPayment(principal, rate, f) > 0.0
  {
  }

  /** Total payable: the EMI times the tenure, rounded to the cent. */
  function CalculateTotalPayable(principal: real, annualRate: real, tenureMonths: int): (total: real)
    ensures var x := CalculateEMI(principal, annualRate, tenureMonths) * tenureMonths as real;
            IsCents(total) && x - 0.005 < total <= x + 0.005
    ensures principal <= 0.0 || tenureMonths <= 0 ==> total == 0.0
    ensures principal > 0.0 && tenureMonths > 0 && annualRate > 0.0 ==>
              total == CalculateEMI(principal, annualRate, tenureMonths) * tenureMonths as real
  {
    var emi := CalculateEMI(principal, annualRate, tenureMonths);
    assert principal > 0.0 && tenureMonths > 0 && annualRate > 0.0 ==>
             Round2(emi * tenureMonths as real) == emi * tenureMonths as real by {
      if principal > 0.0 && tenureMonths > 0 && annualRate > 0.0 {
        CentsScale(emi, tenureMonths);
        Round2OfCents(emi * tenureMonths as real);
      }
    }
    Round2OfCents(0.0);
    Round2(emi * tenureMonths as real)
  }

  /** One row of a generated schedule, before it is stored. */
  datatype ScheduleEntry = ScheduleEntry(
    installmentNumber: int,
    dueDate: Date,
    emiAmount: real,
    principalAmount: real,
    interestAmount: real)

  /** Rows `number .. number + count - 1` of a schedule whose running balance
      is `balance` before row `number`. */
  function ScheduleFrom(balance: real, monthlyRate: real, emi: real, start: Date, number: int, count: nat)
    : (rows: seq<ScheduleEntry>)
    ensures |rows| == count
    decreases count
  {
    if count == 0 then []
    else
      var interest := Round2(MonthInterest(balance, monthlyRate));
      var principalPart := Round2(emi - interest);
      [ScheduleEntry(number, AddMonths(start, number), emi, principalPart, interest)]
        + ScheduleFrom(Round2(balance - principalPart), monthlyRate, emi, start, number + 1, count - 1)
  }

  /** The running balance before row `k` (0-based) of `rows`, replayed as the
      program does: start at `principal`, after each row subtract its
      principal part and round to the cent. */
  function OpeningBalance(principal: real, rows: seq<ScheduleEntry>, k: nat): real
    requires k <= |rows|
  {
    if k == 0 then principal
    else Round2(OpeningBalance(principal, rows, k - 1) - rows[k - 1].principalAmount)
  }

  /** Sum of the principal parts of `rows`. */
  function PrincipalRepaid(rows: seq<ScheduleEntry>): real
  {
    if |rows| == 0 then 0.0
    else PrincipalRepaid(rows[..|rows| - 1]) + rows[|rows| - 1].principalAmount
  }

  /** The repayment schedule: `max(0, tenureMonths)` rows numbered from 1, row
      `i` due `i` months after `startDate`, all with the given EMI; interest is
      charged on the running balance and the principal part is the rest of the
      EMI. The last row is not adjusted to clear the balance. */
  function GenerateRepaymentSchedule(principal: real, annualRate: real, tenureMonths: int, emi: real, startDate: Date)
    : (schedule: seq<ScheduleEntry>)
    ensures |schedule| == if tenureMonths > 0 then tenureMonths else 0
    ensures forall k :: 0 <= k < |schedule| ==>
              && schedule[k].installmentNumber == k + 1
              && schedule[k].dueDate == AddMonths(startDate, k + 1)
              && schedule[k].emiAmount == emi
    ensures forall k :: 0 <= k < |schedule| ==>
              && schedule[k].interestAmount
                 == Round2(MonthInterest(OpeningBalance(principal, schedule, k), MonthlyRate(annualRate)))
              && schedule[k].principalAmount == Round2(emi - schedule[k].interestAmount)
    ensures IsCents(emi) ==>
              forall k :: 0 <= k < |schedule| ==> schedule[k].principalAmount + schedule[k].interestAmount == emi
  {
    var count := if tenureMonths > 0 then tenureMonths else 0;
    var rate := MonthlyRate(annualRate);
    var rows := ScheduleFrom(principal, rate, emi, startDate, 1, count);
    assert forall k :: 0 <= k < count ==>
             && rows[k].installmentNumber == k + 1
             && rows[k].dueDate == AddMonths(startDate, k + 1)
             && rows[k].emiAmount == emi
             && rows[k].interestAmount == Round2(MonthInterest(OpeningBalance(principal, rows, k), rate))
             && rows[k].principalAmount == Round2(emi - rows[k].interestAmount)
             && (IsCents(emi) ==> rows[k].principalAmount + rows[k].interestAmount == emi) by {
      forall k | 0 <= k < count
        ensures rows[k].installmentNumber == k + 1
        ensures rows[k].dueDate == AddMonths(startDate, k + 1)
        ensures rows[k].emiAmount == emi
        ensures rows[k].interestAmount == Round2(MonthInterest(OpeningBalance(principal, rows, k), rate))
        ensures rows[k].principalAmount == Round2(emi - rows[k].interestAmount)
        ensures IsCents(emi) ==> rows[k].principalAmount + rows[k].interestAmount == emi
      {
        ScheduleRow(principal, rate, emi, startDate, 1, count, k);
        if IsCents(emi) {
          CentsSub(emi, rows[k].interestAmount);
          Round2OfCents(emi - rows[k].interestAmount);
        }
      }
    }
    rows
  }

  /** Replaying the balance of a schedule that starts with `row` equals
      replaying the rest from the balance that row leaves. */
  lemma {:induction false} OpeningBalanceShift(balance: real, row: ScheduleEntry, rest: seq<ScheduleEntry>, k: nat)
    requires k <= |rest|
    ensures OpeningBalance(balance, [row] + rest, k + 1)
            == OpeningBalance(Round2(balance - row.principalAmount), rest, k)
    decreases k
  {
    var rows := [row] + rest;
    if k > 0 {
      OpeningBalanceShift(balance, row, rest, k - 1);
      assert rows[k] == rest[k - 1];
    }
  }

  /** Row `k` of `ScheduleFrom` carries number `number + k`, is due
      `number + k` months after `start`, charges interest on the replayed
      running balance and takes the rest of the EMI as principal. */
  lemma {:induction false} ScheduleRow(balance: real, monthlyRate: real, emi: real, start: Date, number: int, count: nat, k: nat)
    requires k < count
    ensures var rows := ScheduleFrom(balance, monthlyRate, emi, start, number, count);
            && rows[k].installmentNumber == number + k
            && rows[k].dueDate == AddMonths(start, number + k)
            && rows[k].emiAmount == emi
            && rows[k].interestAmount == Round2(MonthInterest(OpeningBalance(balance, rows, k), monthlyRate))
            && rows[k].principalAmount == Round2(emi - rows[k].interestAmount)
    decreases k
  {
    var rows := ScheduleFrom(balance, monthlyRate, emi, start, number, count);
    var interest := Round2(MonthInterest(balance, monthlyRate));
    var principalPart := Round2(emi - interest);
    var next := Round2(balance - principalPart);
    var rest := ScheduleFrom(next, monthlyRate, emi, start, number + 1, count - 1);
    var row := ScheduleEntry(number, AddMonths(start, number), emi, principalPart, interest);
    assert rows == [row] + rest;
    if k > 0 {
      ScheduleRow(next, monthlyRate, emi, start, number + 1, count - 1, k - 1);
      OpeningBalanceShift(balance, row, rest, k - 1);
      assert rows[k] == rest[k - 1];
    }
  }

  /** When the principal is a whole number of cents, the running balance before
      row `k` is exactly the principal minus the principal repaid in rows
      before `k`. */
  lemma {:induction false} RunningBalance(principal: real, rows: seq<ScheduleEntry>, k: nat)
    requires k <= |rows|
    requires IsCents(principal)
    requires forall j :: 0 <= j < |rows| ==> IsCents(rows[j].principalAmount)
    ensures OpeningBalance(principal, rows, k) == principal - PrincipalRepaid(rows[..k])
    ensures IsCents(OpeningBalance(principal, rows, k))
  {
    if k > 0 {
      RunningBalance(principal, rows, k - 1);
      var before := OpeningBalance(principal, rows, k - 1);
      CentsSub(before, rows[k - 1].principalAmount);
      Round2OfCents(before - rows[k - 1].principalAmount);
      assert rows[..k][..k - 1] == rows[..k - 1];
    }
  }

  /** The principal parts of a schedule add up to the principal minus the
      balance left after the last row, which the program does not force to 0. */
  lemma ScheduleRepaysPrincipal(principal: real, annualRate: real, tenureMonths: int, emi: real, startDate: Date)
    requires IsCents(principal)
    ensures var s := GenerateRepaymentSchedule(principal, annualRate, tenureMonths, emi, startDate);
            PrincipalRepaid(s) == principal - OpeningBalance(principal, s, |s|)
  {
    var s := GenerateRepaymentSchedule(principal, annualRate, tenureMonths, emi, startDate);
    RunningBalance(principal, s, |s|);
    assert s[..|s|] == s;
  }

  /** Balance left after `k` months in closed form, where `growth` stands for
      `(1 + rate)^k`. */
  function ClosedForm(balance: real, rate: real, payment: real, growth: real): real
    requires rate != 0.0
  {
    balance * growth - payment * (growth - 1.0) / rate
  }

  /** One month of the exact recursion, in closed form. */
  lemma ClosedFormStep(balance: real, rate: real, payment: real, p: real, pNext: real)
    requires rate != 0.0
    requires pNext == (1.0 + rate) * p
    ensures ClosedForm(balance + MonthInterest(balance, rate) - payment, rate, payment, p)
            == ClosedForm(balance, rate, payment, pNext)
  {
  }

  /** Closed form of the exact balance recursion. */
  lemma {:induction false} ExactBalanceClosedForm(balance: real, rate: real, payment: real, k: nat)
    requires rate != 0.0
    ensures ExactBalance(balance, rate, payment, k) == ClosedForm(balance, rate, payment, Pow(1.0 + rate, k))
    decreases k
  {
    if k > 0 {
      var next := balance + MonthInterest(balance, rate) - payment;
      ExactBalanceClosedForm(next, rate, payment, k - 1);
      ClosedFormStep(balance, rate, payment, Pow(1.0 + rate, k - 1), Pow(1.0 + rate, k));
    }
  }

  /** How far rounding by at most half a cent a month can move a balance,
      compounded at `rate`, over the months in which `(1 + rate)^k` grew to
      `growth`: `0.005 * (growth - 1) / rate`. */
  function RoundingDrift(rate: real, growth: real): real
    requires rate != 0.0
  {
    0.005 * ((growth - 1.0) / rate)
  }

  /** `(g - 1) / rate` for one more month: `(1 + rate)` times it, plus one. */
  lemma GrowthQuotientNext(rate: real, g: real, gNext: real)
    requires rate != 0.0 && gNext == (1.0 + rate) * g
    ensures (gNext - 1.0) / rate == (1.0 + rate) * ((g - 1.0) / rate) + 1.0
  {
    var q := (g - 1.0) / rate;
    var y := (1.0 + rate) * q + 1.0;
    assert q * rate == g - 1.0;
    assert y * rate == (1.0 + rate) * (q * rate) + rate;
    assert y * rate == gNext - 1.0;
    assert (y * rate) / rate == y;
  }

  /** One month of the exact recursion in closed form: `(1 + rate)` times
      the balance, less the payment. */
  lemma ClosedFormNext(principal: real, rate: real, payment: real, g: real, gNext: real)
    requires rate != 0.0 && gNext == (1.0 + rate) * g
    ensures ClosedForm(principal, rate, payment, gNext)
            == (1.0 + rate) * ClosedForm(principal, rate, payment, g) - payment
  {
    GrowthQuotientNext(rate, g, gNext);
  }

  /** The drift bound of one more month: compounded once more, plus half a cent. */
  lemma RoundingDriftNext(rate: real, g: real, gNext: real)
    requires rate != 0.0 && gNext == (1.0 + rate) * g
    ensures RoundingDrift(rate, gNext) == (1.0 + rate) * RoundingDrift(rate, g) + 0.005
  {
    GrowthQuotientNext(rate, g, gNext);
  }

  /** A month's arithmetic on the gap between the replayed balance `b` and
      the exact balance `c`: the exact balance grows by `1 + rate` and loses
      the EMI; the replayed one loses the EMI and gains back interest within
      half a cent of `exactInterest`. A gap within `bound` then stays within
      `(1 + rate) * bound + 0.005`. */
  lemma GapStep(rate: real, b: real, c: real, cNext: real, emi: real, interest: real, exactInterest: real,
                bNext: real, bound: real, boundNext: real)
    requires rate > 0.0 && exactInterest == b * rate
    requires cNext == (1.0 + rate) * c - emi && bNext == b - (emi - interest)
    requires exactInterest - 0.005 < interest <= exactInterest + 0.005
    requires -bound <= b - c <= bound && boundNext == (1.0 + rate) * bound + 0.005
    ensures -boundNext <= bNext - cNext <= boundNext
  {
    var m := 1.0 + rate;
    var d := b - c;
    assert bNext - cNext == m * d + (interest - exactInterest);
    FactorBound(m, d, bound);
  }

  /** Scaling by a positive factor keeps a number within the scaled bound. */
  lemma FactorBound(m: real, d: real, bound: real)
    requires m > 0.0 && -bound <= d <= bound
    ensures -(m * bound) <= m * d <= m * bound
  {
    assert m * (bound - d) >= 0.0;
    assert m * (d + bound) >= 0.0;
  }

  /** `balance` is within `RoundingDrift` of the exact balance after `k`
      months at `rate` and level payment `emi`. */
  predicate WithinDrift(balance: real, principal: real, rate: real, emi: real, k: nat)
    requires rate != 0.0
  {
    var g := Pow(1.0 + rate, k);
    -RoundingDrift(rate, g) <= balance - ClosedForm(principal, rate, emi, g) <= RoundingDrift(rate, g)
  }

  /** One month of the schedule, compared with the closed form: when the
      stored interest is within half a cent of the exact interest, the gap
      between the replayed balance and the exact one grows by the month's
      interest and at most half a cent. */
  lemma DriftStep(principal: real, rate: real, emi: real, b: real, interest: real, bNext: real, g: real, gNext: real)
    requires rate > 0.0 && gNext == (1.0 + rate) * g
    requires MonthInterest(b, rate) - 0.005 < interest <= MonthInterest(b, rate) + 0.005
    requires bNext == b - (emi - interest)
    requires -RoundingDrift(rate, g) <= b - ClosedForm(principal, rate, emi, g) <= RoundingDrift(rate, g)
    ensures -RoundingDrift(rate, gNext) <= bNext - ClosedForm(principal, rate, emi, gNext) <= RoundingDrift(rate, gNext)
  {
    ClosedFormNext(principal, rate, emi, g, gNext);
    RoundingDriftNext(rate, g, gNext);
    GapStep(rate, b, ClosedForm(principal, rate, emi, g), ClosedForm(principal, rate, emi, gNext), emi,
            interest, MonthInterest(b, rate), bNext, RoundingDrift(rate, g), RoundingDrift(rate, gNext));
  }

  /** With whole cents throughout, rounding the balance after a row changes
      nothing: the row takes the EMI off and gives the interest back. */
  lemma CentsRow(b: real, principalPart: real, interest: real, emi: real, bNext: real)
    requires IsCents(b) && IsCents(interest) && IsCents(emi)
    requires principalPart + interest == emi && bNext == Round2(b - principalPart)
    ensures IsCents(bNext) && bNext == b - (emi - interest)
  {
    CentsSub(emi, interest);
    assert principalPart == emi - interest;
    CentsSub(b, principalPart);
    Round2OfCents(b - principalPart);
  }

  /** One row of a schedule keeps the replayed balance in whole cents and
      within `RoundingDrift` of the exact balance. */
  lemma TrackRow(principal: real, rate: real, emi: real, b: real, row: ScheduleEntry, bNext: real, g: real, gNext: real)
    requires IsCents(b) && IsCents(emi) && rate > 0.0 && gNext == (1.0 + rate) * g
    requires -RoundingDrift(rate, g) <= b - ClosedForm(principal, rate, emi, g) <= RoundingDrift(rate, g)
    requires row.interestAmount == Round2(MonthInterest(b, rate))
    requires row.principalAmount + row.interestAmount == emi
    requires bNext == Round2(b - row.principalAmount)
    ensures IsCents(bNext)
    ensures -RoundingDrift(rate, gNext) <= bNext - ClosedForm(principal, rate, emi, gNext) <= RoundingDrift(rate, gNext)
  {
    CentsRow(b, row.principalAmount, row.interestAmount, emi, bNext);
    DriftStep(principal, rate, emi, b, row.interestAmount, bNext, g, gNext);
  }

  /** Row `j` charges the rounded interest on the balance replayed before
      it and takes the rest of the EMI as principal. */
  predicate RowFollowsBalance(principal: real, rate: real, emi: real, rows: seq<ScheduleEntry>, j: nat)
    requires j < |rows|
  {
    && rows[j].interestAmount == Round2(MonthInterest(OpeningBalance(principal, rows, j), rate))
    && rows[j].principalAmount + rows[j].interestAmount == emi
  }

  /** For a whole-cent principal and EMI at a positive rate, the balance a
      schedule replays before row `k` is a whole number of cents and stays
      within `RoundingDrift` of the exact balance after `k` months, provided
      each row charges the rounded interest on the running balance and
      takes the rest of the EMI as principal. */
  lemma {:induction false} ScheduleTracksExactBalance(principal: real, rate: real, emi: real,
                                                      rows: seq<ScheduleEntry>, k: nat)
    requires IsCents(principal) && IsCents(emi) && rate > 0.0
    requires k <= |rows|
    requires forall j :: 0 <= j < |rows| ==> RowFollowsBalance(principal, rate, emi, rows, j)
    ensures IsCents(OpeningBalance(principal, rows, k))
    ensures WithinDrift(OpeningBalance(principal, rows, k), principal, rate, emi, k)
    decreases k
  {
    if k > 0 {
      ScheduleTracksExactBalance(principal, rate, emi, rows, k - 1);
      assert RowFollowsBalance(principal, rate, emi, rows, k - 1);
      PowStep(1.0 + rate, k);
      TrackRow(principal, rate, emi, OpeningBalance(principal, rows, k - 1), rows[k - 1],
               OpeningBalance(principal, rows, k), Pow(1.0 + rate, k - 1), Pow(1.0 + rate, k));
    }
  }

  /** A payment within half a cent of the level payment leaves, in exact
      arithmetic, at most `RoundingDrift` owing or overpaid after `n` months. */
  lemma NearLevelPayment(principal: real, rate: real, f: real, payment: real)
    requires rate > 0.0 && f > 1.0
    requires var a := LevelPayment(principal, rate, f); a - 0.005 < payment <= a + 0.005
    ensures -RoundingDrift(rate, f) <= ClosedForm(principal, rate, payment, f) <= RoundingDrift(rate, f)
  {
    var a := LevelPayment(principal, rate, f);
    LevelPaymentAlgebra(principal, rate, f, a);
    var q := (f - 1.0) / rate;
    ClosedFormByQuotient(principal, rate, a, f, q);
    ClosedFormByQuotient(principal, rate, payment, f, q);
    GapBound(principal * f, a, payment, q, ClosedForm(principal, rate, a, f), ClosedForm(principal, rate, payment, f));
  }

  /** The closed form written with `q` for `(f - 1) / rate`. */
  lemma ClosedFormByQuotient(principal: real, rate: real, payment: real, f: real, q: real)
    requires rate != 0.0 && q == (f - 1.0) / rate
    ensures ClosedForm(principal, rate, payment, f) == principal * f - payment * q
  {
    assert payment * (f - 1.0) / rate == payment * ((f - 1.0) / rate);
  }

  /** When `base - a * q` is zero and `payment` is within half a cent of
      `a`, `base - payment * q` is within `0.005 * q` of zero. */
  lemma GapBound(base: real, a: real, payment: real, q: real, exact: real, near: real)
    requires q > 0.0 && -0.005 <= a - payment <= 0.005
    requires exact == base - a * q && exact == 0.0 && near == base - payment * q
    ensures -(0.005 * q) <= near <= 0.005 * q
  {
    var x := a - payment;
    assert near == x * q;
    ScaleBound(x, q);
  }

  /** A number within half a cent of zero, scaled by a positive `q`, is
      within `0.005 * q` of zero. */
  lemma ScaleBound(x: real, q: real)
    requires -0.005 <= x <= 0.005 && q > 0.0
    ensures -(0.005 * q) <= x * q <= 0.005 * q
  {
  }

  /** The balance the schedule leaves after its last row is not forced to
      zero, but for a whole-cent principal at a positive rate, with the EMI
      the program computes, it is within `0.01 * ((1 + r)^n - 1) / r` of zero:
      half a cent a month from rounding the EMI and half a cent a month from
      rounding the interest, each compounded at the monthly rate `r`. */
  lemma ScheduleDriftBounded(principal: real, annualRate: real, tenureMonths: int, startDate: Date)
    requires IsCents(principal) && principal > 0.0 && annualRate > 0.0 && tenureMonths > 0
    ensures var emi := CalculateEMI(principal, annualRate, tenureMonths);
            var s := GenerateRepaymentSchedule(principal, annualRate, tenureMonths, emi, startDate);
            var r := MonthlyRate(annualRate);
            var bound := 0.01 * ((Pow(1.0 + r, tenureMonths) - 1.0) / r);
            -bound <= OpeningBalance(principal, s, |s|) <= bound
  {
    var emi := CalculateEMI(principal, annualRate, tenureMonths);
    var s := GenerateRepaymentSchedule(principal, annualRate, tenureMonths, emi, startDate);
    var r := MonthlyRate(annualRate);
    var f := Pow(1.0 + r, tenureMonths);
    PowAboveOne(1.0 + r, tenureMonths);
    assert forall j :: 0 <= j < |s| ==> RowFollowsBalance(principal, r, emi, s, j);
    ScheduleTracksExactBalance(principal, r, emi, s, tenureMonths);
    NearLevelPayment(principal, r, f, emi);
  }

  /** The algebra behind `AnnuityClearsLoan`. */
  lemma LevelPaymentAlgebra(principal: real, rate: real, f: real, payment: real)
    requires rate > 0.0 && f > 1.0
    ensures ClosedForm(principal, rate, LevelPayment(principal, rate, f), f) == 0.0
    ensures ClosedForm(principal, rate, payment, f) == 0.0 ==> payment == LevelPayment(principal, rate, f)
  {
    var a := LevelPayment(principal, rate, f);
    assert a * (f - 1.0) == principal * rate * f;
    assert a * (f - 1.0) / rate == principal * f;
    if ClosedForm(principal, rate, payment, f) == 0.0 {
      var d := f - 1.0;
      var x := payment * d;
      assert x / rate == principal * f;
      assert x == principal * rate * f;
      assert (x / d) * d == x;
      assert (x / d - payment) * d == 0.0;
    }
  }

  /** The annuity payment clears the loan in exact arithmetic after `n` months,
      and it is the only level payment that does. */
  lemma AnnuityClearsLoan(principal: real, rate: real, n: nat, payment: real)
    requires rate > 0.0 && n >= 1
    ensures ExactBalance(principal, rate, Annuity(principal, rate, n), n) == 0.0
    ensures ExactBalance(principal, rate, payment, n) == 0.0 ==> payment == Annuity(principal, rate, n)
  {
    PowAboveOne(1.0 + rate, n);
    ExactBalanceClosedForm(principal, rate, Annuity(principal, rate, n), n);
    ExactBalanceClosedForm(principal, rate, payment, n);
    LevelPaymentAlgebra(principal, rate, Pow(1.0 + rate, n), payment);
  }

  /** Without interest a level payment reduces the balance linearly. */
  lemma {:induction false} ExactBalanceNoInterest(balance: real, payment: real, k: nat)
    ensures ExactBalance(balance, 0.0, payment, k) == balance - k as real * payment
    decreases k
  {
    if k > 0 {
      assert balance + MonthInterest(balance, 0.0) - payment == balance - payment;
      ExactBalanceNoInterest(balance - payment, payment, k - 1);
    }
  }

  /** With no interest, the straight-line EMI clears the loan after `n` months. */
  lemma StraightLineClearsLoan(principal: real, n: nat)
    requires n >= 1
    ensures ExactBalance(principal, 0.0, principal / n as real, n) == 0.0
  {
    ExactBalanceNoInterest(principal, principal / n as real, n);
  }

  /** Late fee accrued over `daysOverdue` days before rounding:
      `lateFeePercentage` percent of the EMI per 30 days, pro rata per day. */
  function AccruedLateFee(emiAmount: real, lateFeePercentage: real, daysOverdue: int): real {
    emiAmount * (lateFeePercentage / 100.0) / 30.0 * daysOverdue as real
  }

  /** Late fee for `daysOverdue` days: the accrued fee rounded to the cent;
      nothing when not overdue. */
  function CalculateLateFee(emiAmount: real, lateFeePercentage: real, daysOverdue: int): (fee: real)
    ensures daysOverdue <= 0 ==> fee == 0.0
    ensures daysOverdue > 0 ==>
              var accrued := AccruedLateFee(emiAmount, lateFeePercentage, daysOverdue);
              IsCents(fee) && accrued - 0.005 < fee <= accrued + 0.005
    ensures emiAmount >= 0.0 && lateFeePercentage >= 0.0 ==> fee >= 0.0
  {
    if daysOverdue <= 0 then 0.0
    else
      var accrued := AccruedLateFee(emiAmount, lateFeePercentage, daysOverdue);
      assert emiAmount >= 0.0 && lateFeePercentage >= 0.0 ==> Round2(accrued) >= 0.0 by {
        if emiAmount >= 0.0 && lateFeePercentage >= 0.0 {
          AccruedLateFeeMonotone(emiAmount, lateFeePercentage, 0, daysOverdue);
          Round2NonNegative(accrued);
        }
      }
      Round2(accrued)
  }

  /** For non-negative EMI and percentage the accrued fee is zero at zero days
      and grows with the days overdue. */
  lemma AccruedLateFeeMonotone(emiAmount: real, lateFeePercentage: real, days1: int, days2: int)
    requires emiAmount >= 0.0 && lateFeePercentage >= 0.0
    requires days1 <= days2
    ensures AccruedLateFee(emiAmount, lateFeePercentage, 0) == 0.0
    ensures AccruedLateFee(emiAmount, lateFeePercentage, days1)
            <= AccruedLateFee(emiAmount, lateFeePercentage, days2)
  {
  }

  /** For non-negative EMI and percentage the late fee never decreases as the
      days overdue grow. */
  lemma LateFeeMonotone(emiAmount: real, lateFeePercentage: real, days1: int, days2: int)
    requires emiAmount >= 0.0 && lateFeePercentage >= 0.0
    requires days1 <= days2
    ensures CalculateLateFee(emiAmount, lateFeePercentage, days1)
            <= CalculateLateFee(emiAmount, lateFeePercentage, days2)
  {
    if days1 > 0 {
      AccruedLateFeeMonotone(emiAmount, lateFeePercentage, days1, days2);
      Round2Monotone(AccruedLateFee(emiAmount, lateFeePercentage, days1),
                     AccruedLateFee(emiAmount, lateFeePercentage, days2));
    }
  }

  /** Thirty days overdue cost exactly the monthly percentage of the EMI, rounded. */
  lemma LateFeeForMonth(emiAmount: real, lateFeePercentage: real)
    ensures CalculateLateFee(emiAmount, lateFeePercentage, 30)
            == Round2(emiAmount * (lateFeePercentage / 100.0))
  {
    var monthly := emiAmount * (lateFeePercentage / 100.0);
    assert AccruedLateFee(emiAmount, lateFeePercentage, 30) == monthly;
  }

  /** An interest-free EMI is the straight-line amount: 12000 over 12 months is 1000. */
  lemma ZeroRateExample()
    ensures CalculateEMI(12000.0, 0.0, 12) == 1000.0
  {
  }

  /** The straight-line EMI is not rounded: 100 over 3 months is a third of 100,
      which is not a whole number of cents. */
  lemma ZeroRateUnrounded()
    ensures CalculateEMI(100.0, 0.0, 3) == 100.0 / 3.0
    ensures !IsCents(CalculateEMI(100.0, 0.0, 3))
  {
  }

  /** 100 at 12% a year over 3 months: the EMI is 34.00 and the schedule leaves
      one cent unpaid after the last row, which is not corrected. */
  lemma ScheduleDriftExample(start: Date)
    ensures CalculateEMI(100.0, 12.0, 3) == 34.0
    ensures var s := GenerateRepaymentSchedule(100.0, 12.0, 3, 34.0, start);
            && s[0].interestAmount == 1.0 && s[0].principalAmount == 33.0
            && s[1].interestAmount == 0.67 && s[1].principalAmount == 33.33
            && s[2].interestAmount == 0.34 && s[2].principalAmount == 33.66
            && OpeningBalance(100.0, s, 3) == 0.01
  {
    assert MonthlyRate(12.0) == 0.01;
    assert Pow(1.01, 3) == 1.030301;
    PowAboveOne(1.01, 3);
    assert LevelPayment(100.0, 0.01, 1.030301) == 1.030301 / 0.030301;
    assert (1.030301 / 0.030301 * 100.0 + 0.5).Floor == 3400;
    var s := GenerateRepaymentSchedule(100.0, 12.0, 3, 34.0, start);
    assert s[0].interestAmount == Round2(MonthInterest(100.0, 0.01)) == 1.0;
    assert s[0].principalAmount == 33.0;
    assert OpeningBalance(100.0, s, 1) == 67.0;
    assert s[1].interestAmount == Round2(MonthInterest(67.0, 0.01)) == 0.67;
    assert s[1].principalAmount == 33.33;
    assert OpeningBalance(100.0, s, 2) == 33.67;
    assert s[2].interestAmount == Round2(MonthInterest(33.67, 0.01)) == 0.34;
    assert s[2].principalAmount == 33.66;
  }
}
