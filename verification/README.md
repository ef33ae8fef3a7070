# Lending system core, modelled in Dafny

A model of the loan engine of a small lending application (Next.js over SQLite).
It covers two layers.

The loan arithmetic in `src/lib/loans.ts`:
- the equated monthly installment (EMI) by the reducing-balance formula;
- the total payable;
- the repayment schedule;
- the daily late fee.

The administrator actions that change the database:
- recording a payment against a loan;
- approving a loan application, which disburses the loan and stores its schedule;
- rejecting an application;
- creating a loan product.

Modules:

- `Money` (`money.dfy`): exact currency amounts (`real`), and `Round2`, the program's `Math.round(x * 100) / 100`. That is round half up to the cent, `floor(100x + 1/2) / 100`. It also holds `Pow`.
- `Dates` (`dates.dfy`): due dates as a month index and a day, and "n months later".
- `Loans` (`loans.dfy`): `CalculateEMI`, `CalculateTotalPayable`, `GenerateRepaymentSchedule`, `CalculateLateFee`. It also holds independent references to check them against:
  - `ExactBalance`, which replays exact monthly interest and payments;
  - `OpeningBalance`, which replays the running balance the way the program does.
- `Schema` (`schema.dfy`): the tables of `src/db/schema.ts` as immutable records, a database value `Db`, the session user, and the `{ success, error }` result. No action deletes a row, so a row's AUTOINCREMENT id is its 1-based position in its table.
- `LoanActions` (`loan_actions.dfy`): `recordPayment`, as a pure transition from a database to a result and a database.
- `ApplicationActions` (`application_actions.dfy`): `approveApplication` and `rejectApplication`.
- `ProductActions` (`product_actions.dfy`): `createProduct`.
- `Lifecycle` (`lifecycle.dfy`): approval followed by payment.

Conventions shared by the actions:
- A missing session is `None`. The source reads `user.role` of a null user, which throws, and its catch block answers "Failed to …". The model returns that message and leaves the database unchanged.
- Form numbers are what `parseFloat`/`parseInt` return, with `None` for NaN. A number is truthy when it is neither NaN nor zero.
- Four optional text fields store NULL when the form leaves them empty: a payment's `transactionId` and `remarks`, the approval's `remarks`, and a product's `description`. A payment's `paymentMethod` is stored as given, empty or not.
- The server clock `new Date()` is the `now` parameter.

Where the code departs from what a reader might expect, the model follows the code:
- An underpayment is recorded with payment type "partial", not "emi". The type is "emi" only when the amount equals the EMI exactly.
- `totalPayable` at approval is `emi * tenure`, unrounded. It is not `calculateTotalPayable`, although the two agree when the rate is positive (`ApplicationActions.DisbursedLoanTotals`).
- After any payment the loan is "closed" or "active", whatever its status was before. A "defaulted" or "closed" loan still accepts payments.
- The EMI at a rate that is not positive is `principal / tenure`, unrounded.
- `createProduct` does not check the session.
- Rejecting an id that matches no application still answers success. Nothing changes.
- Approval does not look at the application's current status.
- A partial payment overwrites the paid amount of its row. It does not add to it.
- Approval checks only that the amount is truthy, so a negative amount is accepted. Its EMI is 0, and the loan is stored as active while owing nothing (`Lifecycle.NegativeDisbursementOwesNothing`). A non-positive tenure, or an EMI that rounds to 0, does the same. A payment then closes such a loan.
- The schedule's last row is not adjusted, so the balance it leaves drifts from zero. The drift is bounded by `0.01 * ((1+r)^n - 1) / r` (`Loans.ScheduleDriftBounded`). That bound grows faster than a cent per month, and for long or high-rate loans the drift does exceed a cent per month. For example, worked by hand and not executed: 39919 at 36% over 48 months ends at -0.52, and 100000 at 24% over 360 months leaves 298.86.

## Model

| member | source | states |
|---|---|---|
| Money.Round2 | src/lib/loans.ts:17 | The rounded amount is a whole number of cents within half a cent of the input, above it on a tie. |
| Loans.CalculateEMI | src/lib/loans.ts:5-18 | Invalid principal or tenure gives 0. A rate that is not positive gives the amount that repays the principal exactly over the tenure, unrounded. A positive rate gives a whole-cent amount within half a cent of the exact annuity payment. The EMI is never negative. |
| Loans.AnnuityClearsLoan | src/lib/loans.ts:13-15 | The exact annuity payment brings the exactly replayed balance to zero after n months, and it is the only level payment that does. |
| Loans.StraightLineClearsLoan | src/lib/loans.ts:11 | Without interest, paying principal / n for n months clears the loan exactly. |
| Loans.ExactBalanceClosedForm | src/lib/loans.ts:13-15 | The exactly replayed balance after k months equals the closed form `B(1+r)^k - E((1+r)^k - 1)/r` that the EMI formula is solved from. |
| Loans.ZeroRateExample | src/lib/loans.ts:11 | 12000 at 0% over 12 months gives an EMI of 1000. |
| Loans.ZeroRateUnrounded | src/lib/loans.ts:11 | 100 at 0% over 3 months gives 100/3, which is not a whole number of cents. |
| Loans.CalculateTotalPayable | src/lib/loans.ts:20-27 | The total is a whole number of cents within half a cent of EMI × tenure. It is 0 for invalid input. With a positive rate it is exactly EMI × tenure. |
| Loans.GenerateRepaymentSchedule | src/lib/loans.ts:29-64 | There are max(0, tenure) rows, numbered 1..n. Row i is due i months after the start and carries the given EMI. Each row's interest is the rounded interest on the running balance replayed as the program does, and its principal is the rounded rest of the EMI. When the EMI is whole cents, principal + interest equals the EMI in every row. |
| Loans.ScheduleRow | src/lib/loans.ts:46-61 | Row k of the recursive schedule carries number, due date, EMI, interest and principal as computed from the balance the earlier rows leave. |
| Loans.RunningBalance | src/lib/loans.ts:44-49 | For a whole-cent principal, the running balance before row k is exactly the principal minus the principal parts of rows 0..k-1, and it stays whole cents. |
| Loans.ScheduleRepaysPrincipal | src/lib/loans.ts:44-63 | The principal parts of a schedule add up to the principal minus the balance left after the last row, which is not forced to zero. |
| Loans.ScheduleTracksExactBalance | src/lib/loans.ts:44-49 | For a whole-cent principal and EMI at a positive rate, the balance replayed before row k is whole cents and within `0.005 * ((1+r)^k - 1) / r` of the exact balance after k months. Each month the gap grows by the factor 1+r plus at most half a cent from rounding the interest. |
| Loans.NearLevelPayment | src/lib/loans.ts:13-17 | A payment within half a cent of the exact annuity payment leaves, in exact arithmetic, at most `0.005 * ((1+r)^n - 1) / r` owing or overpaid after n months. |
| Loans.ScheduleDriftBounded | src/lib/loans.ts:5-63 | For a whole-cent principal, a positive rate and the EMI the program computes, the balance left after the last row is within `0.01 * ((1+r)^n - 1) / r` of zero, where r is the monthly rate and n the tenure. |
| Loans.ScheduleDriftExample | src/lib/loans.ts:46-49 | 100 at 12% over 3 months: the EMI is 34.00, the rows are 33.00+1.00, 33.33+0.67 and 33.66+0.34, and 0.01 of principal is left unscheduled. |
| Loans.CalculateLateFee | src/lib/loans.ts:84-94 | The fee is 0 when not overdue. Otherwise it is a whole-cent amount within half a cent of pct% of the EMI per 30 days, pro rata per day. It is non-negative for non-negative inputs. |
| Loans.LateFeeMonotone | src/lib/loans.ts:89-93 | For non-negative inputs the late fee never decreases as the days overdue grow. |
| Loans.LateFeeForMonth | src/lib/loans.ts:91-93 | Thirty days overdue cost exactly the monthly percentage of the EMI, rounded to the cent. |
| LoanActions.EarliestPending | src/app/admin/loans/actions.ts:46-57 | The query finds nothing exactly when the loan has no pending row. Otherwise it returns a pending row of the loan that no pending row of the loan is due before, and the first inserted among rows due on the same date. |
| LoanActions.SelectionStable | src/app/admin/loans/actions.ts:46-57 | The row selected depends only on which rows are pending rows of the loan and their due dates. |
| LoanActions.Allocate | src/app/admin/loans/actions.ts:62-95 | A payment of at least the EMI marks the row paid at exactly its EMI, stamped now. A smaller one overwrites the paid amount and leaves the row pending. The type is "emi" exactly when the amount equals the EMI, else "partial", never "advance". |
| LoanActions.ChargeLoan | src/app/admin/loans/actions.ts:125-135 | Only balance and status change. The new balance is max(0, old − amount). The loan is closed exactly when nothing is owed, and active otherwise. A positive payment on a non-negative balance lowers it or clears it. |
| LoanActions.RecordPayment | src/app/admin/loans/actions.ts:14-143 | These outcomes leave the database unchanged: a missing session, a non-admin ("Unauthorized"), an amount that is NaN, zero or negative, and a missing loan ("Loan not found"). Success happens exactly when none of these occurs. On success, one ledger entry with the amount, borrower, recorder and NULL-for-empty texts is appended. With no pending row it is an "advance" referencing no row, and no row changes. Otherwise only the earliest pending row changes, as `Allocate` says. The loan is charged as `ChargeLoan` says and no other loan changes. Paid rows never change, and "paid amount within the EMI" is preserved. |
| LoanActions.PaymentsAccumulate | src/app/admin/loans/actions.ts:125-135 | After any run of positive payments, the loan owes max(0, balance − their total) and is settled. |
| LoanActions.PaymentsCharge | src/app/admin/loans/actions.ts:125-135 | A run of accepted payments changes the loan exactly as charging their amounts one by one does. |
| LoanActions.ChargeAllBalance | src/app/admin/loans/actions.ts:126-127 | Charging a run of positive amounts takes their total off the balance, floored once at zero. |
| LoanActions.PaymentsLogged | src/app/admin/loans/actions.ts:97-122 | A run of payments appends exactly one ledger entry per payment and keeps the earlier entries. |
| LoanActions.RepeatedPaymentCountsTwice | src/app/admin/loans/actions.ts:97-135 | Submitting the same payment twice writes two entries and takes the amount off twice, so the action is not idempotent. |
| LoanActions.PaymentNeverRaisesBalance | src/app/admin/loans/actions.ts:126 | No call, accepted or not, raises a non-negative balance. |
| LoanActions.PartialPaymentsOverwrite | src/app/admin/loans/actions.ts:82-90 | After two underpayments on the same row, the row shows only the second amount and is still pending, while the balance went down by both. |
| ApplicationActions.ApproveApplication | src/app/admin/applications/actions.ts:14-117 | These outcomes leave the database unchanged: a missing session, a non-admin ("Unauthorized"), a falsy amount, rate or date ("All fields are required"), and a missing application ("Application not found"). Otherwise the effect is `Approve`. |
| ApplicationActions.Approve | src/app/admin/applications/actions.ts:44-110 | The application becomes approved with NULL-for-empty remarks, reviewer and time, and nothing else in it changes. One active loan is appended with principal = disbursed = amount, the EMI of `calculateEMI`, total payable = EMI × tenure, and outstanding = total payable. The generated schedule is appended as pending, unpaid rows of that loan. The row and loan-reference invariants are preserved. |
| ApplicationActions.DisbursedLoanTotals | src/app/admin/applications/actions.ts:47-48 | With a positive rate the stored EMI is whole cents and the unrounded total equals `calculateTotalPayable`. With a negative rate the loan owes exactly the amount disbursed. |
| ApplicationActions.ZeroRateNotApprovable | src/app/admin/applications/actions.ts:29-31 | A 0% rate is falsy, so approval answers "All fields are required". |
| ApplicationActions.ApprovalIgnoresStatus | src/app/admin/applications/actions.ts:55-65 | An application that was already approved or rejected is approved again, with another loan. |
| ApplicationActions.RejectApplication | src/app/admin/applications/actions.ts:119-151 | A missing session, a non-admin and empty remarks fail with their messages and change nothing. Otherwise it succeeds. The named application, if it exists, becomes rejected with the remarks, reviewer and time. Nothing else changes. |
| ApplicationActions.RejectionIdempotent | src/app/admin/applications/actions.ts:119-151 | Rejecting again with the same reason, reviewer and time returns the same result and the same database. |
| ApplicationActions.RejectedCanBeApproved | src/app/admin/applications/actions.ts:14-151 | A rejected application can still be approved: the rejection succeeds, then approval succeeds, marks it approved and adds one loan. |
| ProductActions.CreateProduct | src/app/admin/products/actions.ts:11-53 | A falsy required field, min amount > max amount, and min tenure > max tenure fail in that order and change nothing. Success happens exactly when all checks pass, and appends one active product with the form's values. Processing fee defaults to 0 and late fee to 2 when missing or zero. Every stored product has non-empty ranges. |
| ProductActions.ZeroLateFeeBecomesDefault | src/app/admin/products/actions.ts:21 | An explicit late fee of 0 is stored as 2. |
| ProductActions.ZeroRateProductRejected | src/app/admin/products/actions.ts:24-26 | A 0% rate is falsy, so the product is rejected as incomplete. |
| Lifecycle.EarliestOfAppendedSchedule | src/app/admin/applications/actions.ts:96-109 | Appending a pending schedule of a loan that had no pending rows makes the schedule's first row the earliest pending row. |
| Lifecycle.FirstInstallmentIsNext | src/app/admin/loans/actions.ts:46-57 | Right after approval, the next payment on the new loan targets its installment 1. |
| Lifecycle.ApprovalThenPayment | src/app/admin/loans/actions.ts:70-95 | Paying exactly the EMI right after approval pays installment 1 in full, recorded as "emi" against it. |
| Lifecycle.ApprovedLoanSettled | src/app/admin/applications/actions.ts:47-81 | The loan approval creates never owes a negative amount. It is settled (closed exactly when nothing is owed) if and only if its total payable is positive. |
| Lifecycle.NegativeDisbursementOwesNothing | src/app/admin/applications/actions.ts:24-81 | A negative disbursed amount passes the form check, gets EMI 0, and creates an active loan with nothing outstanding, which is not settled. |

## Left out

- Payment, loan and application numbers (`generatePaymentNumber`, `generateLoanNumber`, `generateApplicationNumber`) depend on the clock and `Math.random`. They are not stored in the model's rows.
- `formatCurrency` and `formatDate` are locale formatting through `Intl`.
- `Date.setMonth` overflow (31 January plus one month) is not modelled. A due date is the start date's day in the month n later.
- A non-empty date string that `new Date` cannot parse is not modelled. The date is either given or missing.
- IEEE-754 double rounding is not modelled. Amounts are exact reals, and `Math.pow` with an integer exponent is exact repeated multiplication.
- Database errors other than the missing session are not modelled: the constraint failures and I/O errors that land in the catch blocks, and "Failed to create product".
- Transactions and concurrency are not modelled. Each action is one atomic transition, so two payments on one loan cannot interleave.
- Timestamps (`createdAt`, `updatedAt`) and columns no core action reads or writes are not modelled.
- LoanActions.EarliestPending: SQLite does not fix the order of rows with equal due dates. The model picks the first inserted, so on such ties it is one admissible answer of the query, not the only one.
- Authentication, sessions, password hashing, the pages and the forms are not modelled. The borrower's application form and database seeding are not part of this model.
