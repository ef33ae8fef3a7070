/** The tables the lending actions read and write (`src/db/schema.ts`), as
    immutable values, and the conventions the actions share: form values,
    the `{ success, error }` result and the session user.

    Rows are never deleted by any action, so the AUTOINCREMENT id of a row is
    its 1-based position in its table; rows therefore carry the ids of the
    rows they reference, not their own. */
module Schema {
  import opened Dates

  datatype Option<T> = None | Some(value: T)

  /** `status` of a loan application: pending, approved, rejected. */
  datatype ApplicationStatus = Pending | Approved | Rejected

  /** `status` of a loan: active, closed, defaulted. */
  datatype LoanStatus = Active | Closed | Defaulted

  /** `status` of a repayment-schedule row: pending, paid, overdue. */
  datatype InstallmentStatus = Pending | Paid | Overdue

  /** `paymentType` of a payment: emi, partial, advance. */
  datatype PaymentType = Emi | Partial | Advance

  datatype Product = Product(
    name: string,
    description: Option<string>,
    minAmount: real,
    maxAmount: real,
    interestRate: real,
    minTenure: int,
    maxTenure: int,
    processingFee: real,
    lateFeePercentage: real,
    isActive: bool)

  datatype Application = Application(
    userId: nat,
    productId: nat,
    requestedAmount: real,
    requestedTenure: int,
    purpose: Option<string>,
    status: ApplicationStatus,
    remarks: Option<string>,
    reviewedBy: Option<nat>,
    reviewedAt: Option<Timestamp>)

  datatype Loan = Loan(
    applicationId: nat,
    userId: nat,
    productId: nat,
    principalAmount: real,
    interestRate: real,
    tenure: int,
    emiAmount: real,
    totalPayable: real,
    outstandingBalance: real,
    disbursedAmount: real,
    disbursedDate: Date,
    status: LoanStatus)

  /** A row of `repayment_schedules`. */
  datatype Installment = Installment(
    loanId: nat,
    installmentNumber: int,
    dueDate: Date,
    emiAmount: real,
    principalAmount: real,
    interestAmount: real,
    paidAmount: real,
    lateFee: real,
    status: InstallmentStatus,
    paidDate: Option<Timestamp>)

  datatype Payment = Payment(
    loanId: nat,
    scheduleId: Option<nat>,
    userId: nat,
    amount: real,
    paymentMethod: string,
    transactionId: Option<string>,
    paymentType: PaymentType,
    remarks: Option<string>,
    recordedBy: nat)

  /** The database the actions work on. */
  datatype Db = Db(
    products: seq<Product>,
    applications: seq<Application>,
    loans: seq<Loan>,
    installments: seq<Installment>,
    payments: seq<Payment>)

  /** True when `table` has a row with the given id. */
  predicate HasRow<T>(table: seq<T>, id: int) {
    1 <= id <= |table|
  }

  /** The user of the request's session; `role` is the name of the user's role. */
  datatype SessionUser = SessionUser(id: nat, role: string)

  predicate IsAdmin(session: Option<SessionUser>) {
    session.Some? && session.value.role == "admin"
  }

  /** What an action returns to the page: `{ success: true }` or
      `{ success: false, error }`. */
  datatype ActionResult = Success | Failure(error: string)

  /** The result of an action together with the database after it. */
  datatype Response = Response(result: ActionResult, db: Db)

  /** A number read from a form with `parseFloat`/`parseInt`; `None` is NaN. */
  type Parsed<T> = Option<T>

  /** JavaScript truthiness of a parsed number: neither NaN nor zero. */
  predicate Truthy(x: Parsed<real>) {
    x.Some? && x.value != 0.0
  }

  predicate TruthyInt(x: Parsed<int>) {
    x.Some? && x.value != 0
  }

  /** `s || null`: an empty or missing form text is stored as NULL. */
  function NullIfEmpty(s: string): (r: Option<string>)
    ensures r.None? <==> s == ""
    ensures r.Some? ==> r.value == s
  {
    if s == "" then None else Some(s)
  }

  /** Every schedule row has been paid at most its EMI, and a paid row exactly
      its EMI. */
  predicate InstallmentsConsistent(db: Db) {
    forall i :: 0 <= i < |db.installments| ==>
      && 0.0 <= db.installments[i].paidAmount <= db.installments[i].emiAmount
      && (db.installments[i].status.Paid? ==> db.installments[i].paidAmount == db.installments[i].emiAmount)
  }

  /** Every schedule row and every payment references a loan that exists. */
  predicate LoanRefsValid(db: Db) {
    && (forall i :: 0 <= i < |db.installments| ==> HasRow(db.loans, db.installments[i].loanId))
    && (forall i :: 0 <= i < |db.payments| ==> HasRow(db.loans, db.payments[i].loanId))
  }
}
