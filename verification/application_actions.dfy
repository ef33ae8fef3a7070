/** Reviewing a loan application (`src/app/admin/applications/actions.ts`):
    approval disburses a loan and stores its repayment schedule; rejection
    records the reason. */
module ApplicationActions {
  import opened Schema
  import opened Dates
  import opened Money
  import opened Loans

  /** The fields of the approval form. `disbursedDate` is `None` when the
      date field is empty. */
  datatype ApprovalForm = ApprovalForm(
    disbursedAmount: Parsed<real>,
    interestRate: Parsed<real>,
    disbursedDate: Option<Date>,
    remarks: string)

  /** `!disbursedAmount || !interestRate || !disbursedDateStr` rejects the form;
      this is its negation. */
  predicate ApprovalComplete(form: ApprovalForm) {
    Truthy(form.disbursedAmount) && Truthy(form.interestRate) && form.disbursedDate.Some?
  }

  /** The stored schedule row for a generated entry: pending, nothing paid, no late fee. */
  function StoredInstallment(loanId: nat, entry: ScheduleEntry): (inst: Installment)
    ensures inst.loanId == loanId && inst.status == InstallmentStatus.Pending
    ensures inst.paidAmount == 0.0 && inst.lateFee == 0.0 && inst.paidDate.None?
  {
    Installment(loanId, entry.installmentNumber, entry.dueDate, entry.emiAmount,
                entry.principalAmount, entry.interestAmount, 0.0, 0.0, InstallmentStatus.Pending, None)
  }

  /** The rows inserted for a schedule, in order. */
  function StoredSchedule(loanId: nat, schedule: seq<ScheduleEntry>): (rows: seq<Installment>)
    ensures |rows| == |schedule|
    ensures forall k :: 0 <= k < |rows| ==> rows[k] == StoredInstallment(loanId, schedule[k])
  {
    seq(|schedule|, k requires 0 <= k < |schedule| => StoredInstallment(loanId, schedule[k]))
  }

  /** `rows` are the pending rows of loan `loanId`, numbered from 1, row `k`
      due `k` months after `start`, all with the same EMI and nothing paid. */
  predicate PendingSchedule(rows: seq<Installment>, loanId: int, start: Date, emi: real) {
    forall k :: 0 <= k < |rows| ==>
      && rows[k].loanId == loanId
      && rows[k].installmentNumber == k + 1
      && rows[k].dueDate == AddMonths(start, k + 1)
      && rows[k].emiAmount == emi
      && rows[k].status == InstallmentStatus.Pending
      && rows[k].paidAmount == 0.0 && rows[k].lateFee == 0.0 && rows[k].paidDate.None?
  }

  /** The stored rows of a generated schedule form a pending schedule. */
  lemma StoredScheduleIsPending(loanId: nat, principal: real, annualRate: real, tenureMonths: int, emi: real, start: Date)
    ensures PendingSchedule(StoredSchedule(loanId, GenerateRepaymentSchedule(principal, annualRate, tenureMonths, emi, start)),
                            loanId, start, emi)
  {
  }

  /** Appending pending, unpaid rows of an existing loan with a non-negative
      EMI keeps the schedule rows consistent and their loan references valid. */
  lemma AppendPendingSchedule(db: Db, db': Db, rows: seq<Installment>, start: Date, emi: real)
    requires emi >= 0.0
    requires PendingSchedule(rows, |db'.loans|, start, emi)
    requires db'.installments == db.installments + rows
    requires |db'.loans| == |db.loans| + 1 && db'.payments == db.payments
    ensures InstallmentsConsistent(db) ==> InstallmentsConsistent(db')
    ensures LoanRefsValid(db) ==> LoanRefsValid(db')
  {
  }

  /** `emi * tenure`, which approval stores as the total payable without rounding. */
  function UnroundedTotal(emi: real, tenure: int): real {
    emi * tenure as real
  }

  /** What the approval of `app` with `form` (complete) must store as its loan. */
  predicate IsDisbursedLoan(loan: Loan, app: Application, applicationId: int, form: ApprovalForm)
    requires ApprovalComplete(form)
  {
    var amount := form.disbursedAmount.value;
    var rate := form.interestRate.value;
    && loan.applicationId == applicationId
    && loan.userId == app.userId
    && loan.productId == app.productId
    && loan.principalAmount == amount
    && loan.disbursedAmount == amount
    && loan.interestRate == rate
    && loan.tenure == app.requestedTenure
    && loan.emiAmount == CalculateEMI(amount, rate, app.requestedTenure)
    && loan.totalPayable == UnroundedTotal(loan.emiAmount, app.requestedTenure)
    && loan.outstandingBalance == loan.totalPayable
    && loan.disbursedDate == form.disbursedDate.value
    && loan.status == Active
  }

  /** The loan a complete approval stores: a positive rate on a positive
      amount and tenure gives a whole-cent EMI and exactly the rounded total
      payable, and a negative rate gives a straight-line loan that owes
      exactly the amount disbursed. */
  lemma DisbursedLoanTotals(loan: Loan, app: Application, applicationId: int, form: ApprovalForm)
    requires ApprovalComplete(form) && IsDisbursedLoan(loan, app, applicationId, form)
    requires loan.principalAmount > 0.0 && loan.tenure > 0
    ensures loan.interestRate > 0.0 ==>
              && IsCents(loan.emiAmount)
              && loan.totalPayable == CalculateTotalPayable(loan.principalAmount, loan.interestRate, loan.tenure)
    ensures loan.interestRate < 0.0 ==> loan.totalPayable == loan.principalAmount
  {
  }

  /** The effect of approving application `applicationId` with a complete
      form: the application is marked approved by the reviewer, one active
      loan is created, and its generated schedule is stored as pending rows. */
  function Approve(db: Db, reviewer: nat, applicationId: int, form: ApprovalForm, now: Timestamp): (db': Db)
    requires ApprovalComplete(form) && HasRow(db.applications, applicationId)
    // the application is marked approved by the reviewer; nothing else in it changes
    ensures var app := db.applications[applicationId - 1];
            && |db'.applications| == |db.applications|
            && (forall j :: 0 <= j < |db.applications| && j != applicationId - 1 ==>
                  db'.applications[j] == db.applications[j])
            && db'.applications[applicationId - 1]
               == app.(status := Approved, remarks := NullIfEmpty(form.remarks),
                       reviewedBy := Some(reviewer), reviewedAt := Some(now))
    // exactly one loan is created, active, owing the full total payable
    ensures && |db'.loans| == |db.loans| + 1
            && db'.loans[..|db.loans|] == db.loans
            && IsDisbursedLoan(db'.loans[|db.loans|], db.applications[applicationId - 1], applicationId, form)
    // the generated schedule is stored, one pending row per month of the tenure
    ensures var app := db.applications[applicationId - 1];
            var n := if app.requestedTenure > 0 then app.requestedTenure else 0;
            && |db'.installments| == |db.installments| + n
            && db'.installments[..|db.installments|] == db.installments
            && PendingSchedule(db'.installments[|db.installments|..], |db.loans| + 1,
                               form.disbursedDate.value, db'.loans[|db.loans|].emiAmount)
            && db'.installments[|db.installments|..]
               == StoredSchedule(|db.loans| + 1,
                                 GenerateRepaymentSchedule(form.disbursedAmount.value, form.interestRate.value,
                                                           app.requestedTenure, db'.loans[|db.loans|].emiAmount,
                                                           form.disbursedDate.value))
    ensures db'.products == db.products && db'.payments == db.payments
    ensures InstallmentsConsistent(db) ==> InstallmentsConsistent(db')
    ensures LoanRefsValid(db) ==> LoanRefsValid(db')
  {
    var app := db.applications[applicationId - 1];
    var amount := form.disbursedAmount.value;
    var rate := form.interestRate.value;
    var tenure := app.requestedTenure;
    var emi := CalculateEMI(amount, rate, tenure);
    var totalPayable := UnroundedTotal(emi, tenure);
    var date := form.disbursedDate.value;
    var app' := app.(status := Approved, remarks := NullIfEmpty(form.remarks),
                     reviewedBy := Some(reviewer), reviewedAt := Some(now));
    var loan := Loan(applicationId, app.userId, app.productId, amount, rate, tenure, emi, totalPayable,
                     totalPayable, amount, date, Active);
    var loanId := |db.loans| + 1;
    var rows := StoredSchedule(loanId, GenerateRepaymentSchedule(amount, rate, tenure, emi, date));
    var db' := db.(applications := db.applications[applicationId - 1 := app'],
                   loans := db.loans + [loan],
                   installments := db.installments + rows);
    assert db'.installments[|db.installments|..] == rows;
    assert PendingSchedule(rows, loanId, date, emi) && (InstallmentsConsistent(db) ==> InstallmentsConsistent(db'))
           && (LoanRefsValid(db) ==> LoanRefsValid(db')) by {
      StoredScheduleIsPending(loanId, amount, rate, tenure, emi, date);
      AppendPendingSchedule(db, db', rows, date, emi);
    }
    db'
  }

  /** `approveApplication(applicationId, formData)` by the session's user at time `now`. */
  function ApproveApplication(db: Db, session: Option<SessionUser>, applicationId: int, form: ApprovalForm,
                              now: Timestamp): (resp: Response)
    ensures session.None? ==> resp == Response(Failure("Failed to approve application"), db)
    ensures session.Some? && !IsAdmin(session) ==> resp == Response(Failure("Unauthorized"), db)
    ensures IsAdmin(session) && !ApprovalComplete(form) ==>
              resp == Response(Failure("All fields are required"), db)
    ensures IsAdmin(session) && ApprovalComplete(form) && !HasRow(db.applications, applicationId) ==>
              resp == Response(Failure("Application not found"), db)
    ensures resp.result.Success? <==>
              IsAdmin(session) && ApprovalComplete(form) && HasRow(db.applications, applicationId)
    ensures resp.result.Failure? ==> resp.db == db
    ensures resp.result.Success? ==> resp.db == Approve(db, session.value.id, applicationId, form, now)
    ensures InstallmentsConsistent(db) ==> InstallmentsConsistent(resp.db)
    ensures LoanRefsValid(db) ==> LoanRefsValid(resp.db)
  {
    if session.None? then
      Response(Failure("Failed to approve application"), db)
    else if session.value.role != "admin" then
      Response(Failure("Unauthorized"), db)
    else if !ApprovalComplete(form) then
      Response(Failure("All fields are required"), db)
    else if !HasRow(db.applications, applicationId) then
      Response(Failure("Application not found"), db)
    else
      Response(Success, Approve(db, session.value.id, applicationId, form, now))
  }

  /** `rejectApplication(applicationId, formData)` by the session's user at time `now`. */
  function RejectApplication(db: Db, session: Option<SessionUser>, applicationId: int, remarks: string,
                             now: Timestamp): (resp: Response)
    ensures session.None? ==> resp == Response(Failure("Failed to reject application"), db)
    ensures session.Some? && !IsAdmin(session) ==> resp == Response(Failure("Unauthorized"), db)
    ensures IsAdmin(session) && remarks == "" ==>
              resp == Response(Failure("Reason for rejection is required"), db)
    ensures resp.result.Success? <==> IsAdmin(session) && remarks != ""
    ensures resp.result.Failure? ==> resp.db == db
    // only the named application changes, to rejected with the reason and the reviewer
    ensures resp.db.loans == db.loans && resp.db.installments == db.installments
    ensures resp.db.products == db.products && resp.db.payments == db.payments
    ensures |resp.db.applications| == |db.applications|
    ensures forall j :: 0 <= j < |db.applications| && j != applicationId - 1 ==>
              resp.db.applications[j] == db.applications[j]
    ensures resp.result.Success? && HasRow(db.applications, applicationId) ==>
              resp.db.applications[applicationId - 1]
              == db.applications[applicationId - 1].(status := Rejected, remarks := Some(remarks),
                                                     reviewedBy := Some(session.value.id), reviewedAt := Some(now))
    // an update that matches no row still answers success
    ensures !HasRow(db.applications, applicationId) ==> resp.db == db
  {
    if session.None? then
      Response(Failure("Failed to reject application"), db)
    else if session.value.role != "admin" then
      Response(Failure("Unauthorized"), db)
    else if remarks == "" then
      Response(Failure("Reason for rejection is required"), db)
    else if !HasRow(db.applications, applicationId) then
      Response(Success, db)
    else
      var app := db.applications[applicationId - 1];
      var app' := app.(status := Rejected, remarks := Some(remarks),
                       reviewedBy := Some(session.value.id), reviewedAt := Some(now));
      Response(Success, db.(applications := db.applications[applicationId - 1 := app']))
  }

  /** A zero interest rate is falsy, so a 0% loan can never be approved. */
  lemma ZeroRateNotApprovable(db: Db, session: Option<SessionUser>, applicationId: int, form: ApprovalForm,
                              now: Timestamp)
    requires IsAdmin(session) && form.interestRate == Some(0.0)
    ensures ApproveApplication(db, session, applicationId, form, now) == Response(Failure("All fields are required"), db)
  {
  }

  /** The prior status is not checked: a rejected (or already approved)
      application can be approved, which creates another loan for it. */
  lemma ApprovalIgnoresStatus(db: Db, session: Option<SessionUser>, applicationId: int, form: ApprovalForm,
                              now: Timestamp)
    requires IsAdmin(session) && ApprovalComplete(form) && HasRow(db.applications, applicationId)
    requires !db.applications[applicationId - 1].status.Pending?
    ensures var resp := ApproveApplication(db, session, applicationId, form, now);
            && resp.result == Success
            && resp.db.applications[applicationId - 1].status == Approved
            && |resp.db.loans| == |db.loans| + 1
  {
  }

  /** Rejecting an application a second time with the same reason, by the
      same reviewer at the same time, changes nothing more: the action is
      idempotent. */
  lemma RejectionIdempotent(db: Db, session: Option<SessionUser>, applicationId: int, remarks: string,
                            now: Timestamp)
    ensures var once := RejectApplication(db, session, applicationId, remarks, now);
            RejectApplication(once.db, session, applicationId, remarks, now) == once
  {
  }

  /** Rejection is not final: a rejected application can still be approved,
      which marks it approved and creates its loan. */
  lemma RejectedCanBeApproved(db: Db, session: Option<SessionUser>, applicationId: int, remarks: string,
                              form: ApprovalForm, now: Timestamp, later: Timestamp)
    requires IsAdmin(session) && remarks != "" && ApprovalComplete(form) && HasRow(db.applications, applicationId)
    ensures var rejected := RejectApplication(db, session, applicationId, remarks, now);
            var approved := ApproveApplication(rejected.db, session, applicationId, form, later);
            && rejected.result == Success
            && rejected.db.applications[applicationId - 1].status == Rejected
            && approved.result == Success
            && approved.db.applications[applicationId - 1].status == Approved
            && |approved.db.loans| == |db.loans| + 1
  {
  }
}
