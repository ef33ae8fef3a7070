/** How the actions fit together over a loan's life: the rows approval
    stores are the ones payments then settle, in due-date order. */
module Lifecycle {
  import opened Schema
  import opened Dates
  import opened LoanActions
  import opened ApplicationActions

  /** When none of `before` is a pending row of the loan, the earliest
      pending row of `before + rows`, for a pending schedule `rows` of it, is
      the first of `rows`. */
  lemma {:induction false} EarliestOfAppendedSchedule(before: seq<Installment>, rows: seq<Installment>, loanId: int,
                                                      start: Date, emi: real)
    requires NoPending(before, loanId)
    requires |rows| > 0 && PendingSchedule(rows, loanId, start, emi)
    ensures EarliestPending(before + rows, loanId) == Some(|before|)
  {
    var all := before + rows;
    var n0 := |before|;
    assert all[n0] == rows[0];
    var r := EarliestPending(all, loanId);
    assert r.Some? by {
      assert IsCandidate(all[n0], loanId);
    }
    var k := r.value;
    if k > n0 {
      AddMonthsOrdered(start, 1, k - n0 + 1);
    }
  }

  /** Right after approval, the earliest pending row of the new loan is its
      first installment, the first row approval stored. */
  lemma FirstInstallmentIsNext(db: Db, reviewer: nat, applicationId: int, form: ApprovalForm, now: Timestamp)
    requires ApprovalComplete(form) && HasRow(db.applications, applicationId)
    requires db.applications[applicationId - 1].requestedTenure > 0
    requires LoanRefsValid(db)
    ensures var db' := Approve(db, reviewer, applicationId, form, now);
            EarliestPending(db'.installments, |db.loans| + 1) == Some(|db.installments|)
  {
    var db' := Approve(db, reviewer, applicationId, form, now);
    var n0 := |db.installments|;
    assert NoPending(db.installments, |db.loans| + 1);
    assert db'.installments == db.installments + db'.installments[n0..];
    EarliestOfAppendedSchedule(db.installments, db'.installments[n0..], |db.loans| + 1,
                               form.disbursedDate.value, db'.loans[|db.loans|].emiAmount);
  }

  /** Paying exactly the EMI right after approval settles installment 1 in
      full and is recorded as an "emi" payment against it. */
  lemma ApprovalThenPayment(db: Db, session: Option<SessionUser>, applicationId: int, form: ApprovalForm,
                            payment: PaymentForm, now: Timestamp)
    requires IsAdmin(session) && ApprovalComplete(form) && HasRow(db.applications, applicationId)
    requires db.applications[applicationId - 1].requestedTenure > 0
    requires LoanRefsValid(db)
    requires var db' := Approve(db, session.value.id, applicationId, form, now);
             payment.amount == Some(db'.loans[|db.loans|].emiAmount) && db'.loans[|db.loans|].emiAmount > 0.0
    ensures var db' := Approve(db, session.value.id, applicationId, form, now);
            var db'' := RecordPayment(db', session, |db.loans| + 1, payment, now).db;
            && db''.installments[|db.installments|].status == InstallmentStatus.Paid
            && db''.installments[|db.installments|].paidAmount == db'.loans[|db.loans|].emiAmount
            && db''.payments[|db.payments|].scheduleId == Some(|db.installments| + 1)
            && db''.payments[|db.payments|].paymentType == Emi
  {
    FirstInstallmentIsNext(db, session.value.id, applicationId, form, now);
    var db' := Approve(db, session.value.id, applicationId, form, now);
    assert db'.installments[|db.installments|] == db'.installments[|db.installments|..][0];
  }

  /** The loan approval creates is settled (its balance not negative, and
      closed exactly when nothing is owed) if and only if it owes something:
      approval always stores it as active, so a loan that owes nothing is
      an active loan with a zero balance. */
  lemma ApprovedLoanSettled(db: Db, reviewer: nat, applicationId: int, form: ApprovalForm, now: Timestamp)
    requires ApprovalComplete(form) && HasRow(db.applications, applicationId)
    ensures var loan := Approve(db, reviewer, applicationId, form, now).loans[|db.loans|];
            && loan.totalPayable >= 0.0
            && (Settled(loan) <==> loan.totalPayable > 0.0)
  {
  }

  /** A negative disbursed amount is truthy, so approval accepts it, but
      its EMI is 0: the new loan is active while owing nothing, which no
      payment-made loan ever is. */
  lemma NegativeDisbursementOwesNothing(db: Db, reviewer: nat, applicationId: int, form: ApprovalForm,
                                        now: Timestamp)
    requires ApprovalComplete(form) && HasRow(db.applications, applicationId)
    requires form.disbursedAmount.value < 0.0
    ensures var loan := Approve(db, reviewer, applicationId, form, now).loans[|db.loans|];
            && loan.emiAmount == 0.0
            && loan.outstandingBalance == 0.0
            && loan.status == Active
            && !Settled(loan)
  {
  }
}
