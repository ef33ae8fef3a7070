/** Recording a repayment against a loan (`recordPayment` in
    `src/app/admin/loans/actions.ts`): the payment is allocated to the
    earliest pending schedule row of the loan, one ledger entry is appended,
    and the loan's outstanding balance and status are updated, all as one
    transition of the database. */
module LoanActions {
  import opened Schema
  import opened Dates
  import opened Money

  /** The fields of the payment form. */
  datatype PaymentForm = PaymentForm(
    amount: Parsed<real>,
    paymentMethod: string,
    transactionId: string,
    remarks: string)

  /** `!amount || amount <= 0` rejects the amount; this is its negation. */
  predicate ValidAmount(amount: Parsed<real>) {
    amount.Some? && amount.value > 0.0
  }

  /** A schedule row of loan `loanId` that is still pending. */
  predicate IsCandidate(inst: Installment, loanId: int) {
    inst.loanId == loanId && inst.status.Pending?
  }

  predicate NoPending(insts: seq<Installment>, loanId: int) {
    forall j :: 0 <= j < |insts| ==> !IsCandidate(insts[j], loanId)
  }

  /** Row `k` is a pending row of the loan and no pending row of the loan is
      due before it. */
  predicate IsEarliestPending(insts: seq<Installment>, loanId: int, k: int) {
    && 0 <= k < |insts|
    && IsCandidate(insts[k], loanId)
    && forall j :: 0 <= j < |insts| && IsCandidate(insts[j], loanId) ==> !Precedes(insts[j].dueDate, insts[k].dueDate)
  }

  /** The query `status = 'pending' AND loanId = ? ORDER BY dueDate LIMIT 1`:
      the position of the earliest-due pending row of the loan; among rows
      due on the same date, the one inserted first. */
  function EarliestPending(insts: seq<Installment>, loanId: int): (r: Option<nat>)
    ensures r.None? <==> NoPending(insts, loanId)
    ensures r.Some? ==> IsEarliestPending(insts, loanId, r.value)
    ensures r.Some? ==> forall j :: 0 <= j < r.value && IsCandidate(insts[j], loanId) ==>
                          Precedes(insts[r.value].dueDate, insts[j].dueDate)
  {
    if |insts| == 0 then None
    else
      var init := insts[..|insts| - 1];
      var last := |insts| - 1;
      var best := EarliestPending(init, loanId);
      assert forall j :: 0 <= j < last ==> insts[j] == init[j];
      if IsCandidate(insts[last], loanId) && (best.None? || Precedes(insts[last].dueDate, insts[best.value].dueDate)) then
        assert forall j :: 0 <= j < last && IsCandidate(insts[j], loanId) ==>
                 Precedes(insts[last].dueDate, insts[j].dueDate) by {
          forall j | 0 <= j < last && IsCandidate(insts[j], loanId)
            ensures Precedes(insts[last].dueDate, insts[j].dueDate)
          {
            PrecedesTotal(insts[j].dueDate, insts[best.value].dueDate);
            PrecedesTotal(insts[last].dueDate, insts[j].dueDate);
          }
        }
        Some(last)
      else
        assert best.Some? && IsCandidate(insts[last], loanId) ==> !Precedes(insts[last].dueDate, insts[best.value].dueDate);
        best
  }

  /** The allocation of one payment to its target row. */
  datatype Allocation = Allocation(updated: Installment, paymentType: PaymentType)

  /** A payment of at least the EMI marks the row paid at its EMI; a smaller
      one leaves it pending and overwrites its paid amount. The payment is
      typed "emi" when nothing is left over after the EMI is covered and
      "partial" otherwise: an underpayment leaves the whole amount over,
      an overpayment leaves the excess. */
  function Allocate(target: Installment, amount: real, now: Timestamp): (a: Allocation)
    ensures amount > 0.0 ==> (a.paymentType == Emi <==> amount == target.emiAmount)
    ensures a.paymentType != Advance
    ensures amount >= target.emiAmount ==>
              a.updated == target.(status := InstallmentStatus.Paid, paidAmount := target.emiAmount, paidDate := Some(now))
    ensures amount < target.emiAmount ==> a.updated == target.(paidAmount := amount)
  {
    var leftOver := if amount >= target.emiAmount then amount - target.emiAmount else amount;
    var paymentType := if leftOver > 0.0 then Partial else Emi;
    if amount >= target.emiAmount then
      Allocation(target.(status := InstallmentStatus.Paid, paidAmount := target.emiAmount, paidDate := Some(now)), paymentType)
    else
      Allocation(target.(paidAmount := amount), paymentType)
  }

  /** The loan after a payment of `amount`: nothing but its balance and status change. */
  predicate BalanceApplied(loan: Loan, loan': Loan, amount: real) {
    && loan' == loan.(outstandingBalance := loan'.outstandingBalance, status := loan'.status)
    && loan'.outstandingBalance == Max0(loan.outstandingBalance - amount)
    && (loan'.status == Closed <==> loan'.outstandingBalance <= 0.0)
    && (loan'.status != Closed ==> loan'.status == Active)
  }

  /** A loan whose balance is not negative and that is closed exactly when
      nothing is outstanding. */
  predicate Settled(loan: Loan) {
    loan.outstandingBalance >= 0.0 && (loan.status == Closed <==> loan.outstandingBalance == 0.0)
  }

  /** The loan after a payment of `amount`: `max(0, outstanding - amount)`
      is owed, and the loan is closed when that is zero and active otherwise,
      whatever its status was. */
  function ChargeLoan(loan: Loan, amount: real): (loan': Loan)
    ensures BalanceApplied(loan, loan', amount)
    ensures Settled(loan')
    ensures loan.outstandingBalance >= 0.0 && amount > 0.0 ==>
              loan'.outstandingBalance < loan.outstandingBalance || loan'.outstandingBalance == 0.0
  {
    var outstanding := Max0(loan.outstandingBalance - amount);
    loan.(outstandingBalance := outstanding, status := if outstanding <= 0.0 then Closed else Active)
  }

  /** The ledger gained exactly one entry, at its end, recording `amount`
      against the loan on behalf of its borrower. */
  predicate PaymentAppended(ledger: seq<Payment>, ledger': seq<Payment>, loan: Loan, loanId: int,
                            recordedBy: nat, amount: real, form: PaymentForm)
  {
    && |ledger'| == |ledger| + 1
    && ledger'[..|ledger|] == ledger
    && var p := ledger'[|ledger|];
    && p.amount == amount
    && p.loanId == loanId
    && p.userId == loan.userId
    && p.recordedBy == recordedBy
    && p.paymentMethod == form.paymentMethod
    && p.transactionId == NullIfEmpty(form.transactionId)
    && p.remarks == NullIfEmpty(form.remarks)
  }

  /** How the payment `p` of `amount` was allocated: with no pending row of
      the loan it is an advance and no row changes; otherwise it references
      the earliest pending row, which alone changes, paid in full or with
      its paid amount overwritten, and it is typed "emi" exactly when the
      amount equals that row's EMI. */
  predicate PaymentAllocated(insts: seq<Installment>, insts': seq<Installment>, p: Payment,
                             loanId: int, amount: real, now: Timestamp)
  {
    && |insts'| == |insts|
    && (p.scheduleId.None? <==> NoPending(insts, loanId))
    && (p.scheduleId.None? ==> p.paymentType == Advance && insts' == insts)
    && (p.scheduleId.Some? ==>
          var k := p.scheduleId.value - 1;
          && IsEarliestPending(insts, loanId, k)
          && (forall j :: 0 <= j < |insts| && j != k ==> insts'[j] == insts[j])
          && var target := insts[k];
          && (amount >= target.emiAmount ==>
                insts'[k] == target.(status := InstallmentStatus.Paid, paidAmount := target.emiAmount, paidDate := Some(now)))
          && (amount < target.emiAmount ==> insts'[k] == target.(paidAmount := amount))
          && (p.paymentType == Emi <==> amount == target.emiAmount)
          && p.paymentType != Advance)
  }

  /** Only the paid loan changed, and only as `ChargeLoan` says. */
  predicate LoanCharged(loans: seq<Loan>, loans': seq<Loan>, loanId: int, amount: real) {
    && HasRow(loans, loanId)
    && |loans'| == |loans|
    && (forall j :: 0 <= j < |loans| && j != loanId - 1 ==> loans'[j] == loans[j])
    && loans'[loanId - 1] == ChargeLoan(loans[loanId - 1], amount)
  }

  /** No row that was paid has changed. */
  predicate PaidRowsKept(insts: seq<Installment>, insts': seq<Installment>) {
    && |insts'| == |insts|
    && forall j :: 0 <= j < |insts| && insts[j].status.Paid? ==> insts'[j] == insts[j]
  }

  /** `recordPayment(loanId, formData)` by the session's user at time `now`. */
  function RecordPayment(db: Db, session: Option<SessionUser>, loanId: int, form: PaymentForm, now: Timestamp)
    : (resp: Response)
    ensures session.None? ==> resp == Response(Failure("Failed to record payment"), db)
    ensures session.Some? && !IsAdmin(session) ==> resp == Response(Failure("Unauthorized"), db)
    ensures IsAdmin(session) && !ValidAmount(form.amount) ==>
              resp == Response(Failure("Valid payment amount is required"), db)
    ensures IsAdmin(session) && ValidAmount(form.amount) && !HasRow(db.loans, loanId) ==>
              resp == Response(Failure("Loan not found"), db)
    ensures resp.result.Success? <==> IsAdmin(session) && ValidAmount(form.amount) && HasRow(db.loans, loanId)
    ensures resp.result.Failure? ==> resp.db == db
    ensures resp.result.Success? ==>
              && PaymentAppended(db.payments, resp.db.payments, db.loans[loanId - 1], loanId,
                                 session.value.id, form.amount.value, form)
              && PaymentAllocated(db.installments, resp.db.installments, resp.db.payments[|db.payments|],
                                  loanId, form.amount.value, now)
              && LoanCharged(db.loans, resp.db.loans, loanId, form.amount.value)
    ensures resp.db.products == db.products && resp.db.applications == db.applications
    ensures PaidRowsKept(db.installments, resp.db.installments)
    ensures InstallmentsConsistent(db) ==> InstallmentsConsistent(resp.db)
  {
    if session.None? then
      // `user.role` of a missing session throws; the catch block answers
      Response(Failure("Failed to record payment"), db)
    else if session.value.role != "admin" then
      Response(Failure("Unauthorized"), db)
    else if !ValidAmount(form.amount) then
      Response(Failure("Valid payment amount is required"), db)
    else if !HasRow(db.loans, loanId) then
      Response(Failure("Loan not found"), db)
    else
      var amount := form.amount.value;
      var loan := db.loans[loanId - 1];
      var entry := Payment(loanId, None, loan.userId, amount, form.paymentMethod,
                           NullIfEmpty(form.transactionId), Advance, NullIfEmpty(form.remarks), session.value.id);
      var target := EarliestPending(db.installments, loanId);
      var installments' :=
        if target.None? then db.installments
        else db.installments[target.value := Allocate(db.installments[target.value], amount, now).updated];
      var payment :=
        if target.None? then entry
        else entry.(scheduleId := Some(target.value + 1),
                    paymentType := Allocate(db.installments[target.value], amount, now).paymentType);
      Response(Success, db.(loans := db.loans[loanId - 1 := ChargeLoan(loan, amount)],
                            installments := installments',
                            payments := db.payments + [payment]))
  }

  /** The total of a sequence of amounts. */
  function Sum(amounts: seq<real>): real {
    if |amounts| == 0 then 0.0 else amounts[0] + Sum(amounts[1..])
  }

  predicate AllPositive(amounts: seq<real>) {
    forall i :: 0 <= i < |amounts| ==> amounts[i] > 0.0
  }

  /** The same admin records `amounts` against one loan, one call after the other. */
  function PayAll(db: Db, session: Option<SessionUser>, loanId: int, paymentMethod: string, amounts: seq<real>, now: Timestamp)
    : Db
    decreases |amounts|
  {
    if |amounts| == 0 then db
    else
      var next := RecordPayment(db, session, loanId, PaymentForm(Some(amounts[0]), paymentMethod, "", ""), now).db;
      PayAll(next, session, loanId, paymentMethod, amounts[1..], now)
  }

  lemma {:induction false} SumPositive(amounts: seq<real>)
    requires AllPositive(amounts)
    ensures Sum(amounts) >= 0.0
    ensures |amounts| > 0 ==> Sum(amounts) > 0.0
    decreases |amounts|
  {
    if |amounts| > 0 {
      SumPositive(amounts[1..]);
    }
  }

  /** Taking `a` and then a non-negative `s` off `x`, flooring at zero each
      time, is taking their total off and flooring once. */
  lemma Max0Shift(x: real, a: real, y: real, s: real, total: real)
    requires y == Max0(x - a) && s >= 0.0 && total == a + s
    ensures Max0(y - s) == Max0(x - total)
  {
  }

  /** What one accepted payment does to the loan and the ledger. */
  lemma OnePayment(db: Db, session: Option<SessionUser>, loanId: int, form: PaymentForm, now: Timestamp)
    requires IsAdmin(session) && HasRow(db.loans, loanId) && ValidAmount(form.amount)
    ensures var db' := RecordPayment(db, session, loanId, form, now).db;
            && |db'.loans| == |db.loans|
            && db'.loans[loanId - 1] == ChargeLoan(db.loans[loanId - 1], form.amount.value)
            && |db'.payments| == |db.payments| + 1
            && db'.payments[..|db.payments|] == db.payments
  {
  }

  /** `amounts` without its first element is still all positive. */
  lemma AllPositiveTail(amounts: seq<real>)
    requires |amounts| > 0 && AllPositive(amounts)
    ensures AllPositive(amounts[1..])
  {
  }

  /** The loan after being charged `amounts` one after the other. */
  function ChargeAll(loan: Loan, amounts: seq<real>): Loan
    decreases |amounts|
  {
    if |amounts| == 0 then loan else ChargeAll(ChargeLoan(loan, amounts[0]), amounts[1..])
  }

  /** Charging a run of payments takes their total off the balance, never
      below zero, and leaves the loan settled. */
  lemma {:induction false} ChargeAllBalance(loan: Loan, amounts: seq<real>)
    requires AllPositive(amounts) && loan.outstandingBalance >= 0.0
    ensures ChargeAll(loan, amounts).outstandingBalance == Max0(loan.outstandingBalance - Sum(amounts))
    ensures |amounts| > 0 ==> Settled(ChargeAll(loan, amounts))
    decreases |amounts|
  {
    if |amounts| > 0 {
      var next := ChargeLoan(loan, amounts[0]);
      AllPositiveTail(amounts);
      ChargeAllBalance(next, amounts[1..]);
      SumPositive(amounts[1..]);
      Max0Shift(loan.outstandingBalance, amounts[0], next.outstandingBalance, Sum(amounts[1..]), Sum(amounts));
    }
  }

  /** A run of accepted payments changes the loan as charging their amounts does. */
  lemma {:induction false} PaymentsCharge(db: Db, session: Option<SessionUser>, loanId: int, paymentMethod: string,
                                          amounts: seq<real>, now: Timestamp)
    requires IsAdmin(session) && HasRow(db.loans, loanId) && AllPositive(amounts)
    ensures var db' := PayAll(db, session, loanId, paymentMethod, amounts, now);
            && |db'.loans| == |db.loans|
            && db'.loans[loanId - 1] == ChargeAll(db.loans[loanId - 1], amounts)
    decreases |amounts|
  {
    if |amounts| > 0 {
      var form := PaymentForm(Some(amounts[0]), paymentMethod, "", "");
      AllPositiveTail(amounts);
      OnePayment(db, session, loanId, form, now);
      PaymentsCharge(RecordPayment(db, session, loanId, form, now).db, session, loanId, paymentMethod, amounts[1..], now);
    }
  }

  /** A run of payments brings the balance down by their total, never below
      zero, and leaves the loan settled. */
  lemma PaymentsAccumulate(db: Db, session: Option<SessionUser>, loanId: int, paymentMethod: string,
                           amounts: seq<real>, now: Timestamp)
    requires IsAdmin(session) && HasRow(db.loans, loanId) && AllPositive(amounts)
    requires db.loans[loanId - 1].outstandingBalance >= 0.0
    ensures var db' := PayAll(db, session, loanId, paymentMethod, amounts, now);
            && |db'.loans| == |db.loans|
            && db'.loans[loanId - 1].outstandingBalance == Max0(db.loans[loanId - 1].outstandingBalance - Sum(amounts))
            && (|amounts| > 0 ==> Settled(db'.loans[loanId - 1]))
  {
    PaymentsCharge(db, session, loanId, paymentMethod, amounts, now);
    ChargeAllBalance(db.loans[loanId - 1], amounts);
  }

  /** A run of payments appends one ledger entry per payment and keeps the
      entries already there. */
  lemma {:induction false} PaymentsLogged(db: Db, session: Option<SessionUser>, loanId: int, paymentMethod: string,
                                          amounts: seq<real>, now: Timestamp)
    requires IsAdmin(session) && HasRow(db.loans, loanId) && AllPositive(amounts)
    ensures var db' := PayAll(db, session, loanId, paymentMethod, amounts, now);
            && |db'.payments| == |db.payments| + |amounts|
            && db'.payments[..|db.payments|] == db.payments
    decreases |amounts|
  {
    if |amounts| > 0 {
      var form := PaymentForm(Some(amounts[0]), paymentMethod, "", "");
      var next := RecordPayment(db, session, loanId, form, now).db;
      var rest := amounts[1..];
      AllPositiveTail(amounts);
      OnePayment(db, session, loanId, form, now);
      PaymentsLogged(next, session, loanId, paymentMethod, rest, now);
      var db' := PayAll(next, session, loanId, paymentMethod, rest, now);
      assert db'.payments[..|db.payments|] == db.payments by {
        assert db'.payments[..|next.payments|][..|db.payments|] == next.payments[..|db.payments|];
      }
    }
  }

  /** Recording the same payment twice takes the amount off twice and writes
      two ledger entries: the action is not idempotent. */
  lemma RepeatedPaymentCountsTwice(db: Db, session: Option<SessionUser>, loanId: int, form: PaymentForm, now: Timestamp)
    requires IsAdmin(session) && HasRow(db.loans, loanId) && ValidAmount(form.amount)
    requires form.amount.value < db.loans[loanId - 1].outstandingBalance
    ensures var once := RecordPayment(db, session, loanId, form, now).db;
            var twice := RecordPayment(once, session, loanId, form, now).db;
            && twice != once
            && |twice.payments| == |db.payments| + 2
            && twice.loans[loanId - 1].outstandingBalance
               == Max0(db.loans[loanId - 1].outstandingBalance - 2.0 * form.amount.value)
            && twice.loans[loanId - 1].outstandingBalance < once.loans[loanId - 1].outstandingBalance
  {
  }

  /** The balance of a loan that is not overdrawn never grows. */
  lemma PaymentNeverRaisesBalance(db: Db, session: Option<SessionUser>, loanId: int, form: PaymentForm, now: Timestamp)
    requires HasRow(db.loans, loanId) && db.loans[loanId - 1].outstandingBalance >= 0.0
    ensures var db' := RecordPayment(db, session, loanId, form, now).db;
            db'.loans[loanId - 1].outstandingBalance <= db.loans[loanId - 1].outstandingBalance
  {
  }

  /** The selection depends only on which rows are pending rows of the loan
      and when they are due. */
  lemma SelectionStable(insts: seq<Installment>, insts': seq<Installment>, loanId: int)
    requires |insts'| == |insts|
    requires forall j :: 0 <= j < |insts| ==>
               && (IsCandidate(insts'[j], loanId) <==> IsCandidate(insts[j], loanId))
               && insts'[j].dueDate == insts[j].dueDate
    ensures EarliestPending(insts', loanId) == EarliestPending(insts, loanId)
  {
  }

  /** Partial payments do not add up on the row: a second underpayment
      overwrites the paid amount of the first, although the loan's balance
      went down by both. */
  lemma PartialPaymentsOverwrite(db: Db, session: Option<SessionUser>, loanId: int, first: PaymentForm,
                                 second: PaymentForm, now: Timestamp, k: nat)
    requires IsAdmin(session) && HasRow(db.loans, loanId)
    requires ValidAmount(first.amount) && ValidAmount(second.amount)
    requires EarliestPending(db.installments, loanId) == Some(k)
    requires first.amount.value < db.installments[k].emiAmount
    requires second.amount.value < db.installments[k].emiAmount
    requires db.loans[loanId - 1].outstandingBalance >= first.amount.value + second.amount.value
    ensures var db1 := RecordPayment(db, session, loanId, first, now).db;
            var db2 := RecordPayment(db1, session, loanId, second, now).db;
            && db2.installments[k].paidAmount == second.amount.value
            && db2.installments[k].status == InstallmentStatus.Pending
            && db2.loans[loanId - 1].outstandingBalance
               == db.loans[loanId - 1].outstandingBalance - first.amount.value - second.amount.value
  {
  }
}
