/** Creating a loan product (`createProduct` in
    `src/app/admin/products/actions.ts`): required-field and range checks,
    then one row with the fee defaults applied. */
module ProductActions {
  import opened Schema

  /** The fields of the product form; numbers as `parseFloat`/`parseInt` read them. */
  datatype ProductForm = ProductForm(
    name: string,
    description: string,
    minAmount: Parsed<real>,
    maxAmount: Parsed<real>,
    interestRate: Parsed<real>,
    minTenure: Parsed<int>,
    maxTenure: Parsed<int>,
    processingFee: Parsed<real>,
    lateFeePercentage: Parsed<real>)

  /** Every required field is truthy: a non-empty name and numbers that are
      neither NaN nor zero. */
  predicate RequiredFilled(form: ProductForm) {
    && form.name != ""
    && Truthy(form.minAmount) && Truthy(form.maxAmount) && Truthy(form.interestRate)
    && TruthyInt(form.minTenure) && TruthyInt(form.maxTenure)
  }

  /** `x || fallback` on a parsed number. */
  function OrDefault(x: Parsed<real>, fallback: real): (r: real)
    ensures Truthy(x) ==> r == x.value
    ensures !Truthy(x) ==> r == fallback
  {
    if Truthy(x) then x.value else fallback
  }

  /** A product whose amount and tenure ranges are not empty. */
  predicate ValidProduct(p: Product) {
    p.minAmount <= p.maxAmount && p.minTenure <= p.maxTenure
  }

  predicate ProductsValid(db: Db) {
    forall i :: 0 <= i < |db.products| ==> ValidProduct(db.products[i])
  }

  /** `createProduct(formData)`. The action reads no session. */
  function CreateProduct(db: Db, form: ProductForm): (resp: Response)
    ensures !RequiredFilled(form) ==> resp == Response(Failure("All required fields must be filled"), db)
    ensures RequiredFilled(form) && form.minAmount.value > form.maxAmount.value ==>
              resp == Response(Failure("Minimum amount cannot exceed maximum amount"), db)
    ensures RequiredFilled(form) && form.minAmount.value <= form.maxAmount.value
            && form.minTenure.value > form.maxTenure.value ==>
              resp == Response(Failure("Minimum tenure cannot exceed maximum tenure"), db)
    ensures resp.result.Success? <==>
              && RequiredFilled(form)
              && form.minAmount.value <= form.maxAmount.value
              && form.minTenure.value <= form.maxTenure.value
    ensures resp.result.Failure? ==> resp.db == db
    // exactly one product is added, with the form's values and the fee defaults
    ensures resp.result.Success? ==>
              && |resp.db.products| == |db.products| + 1
              && resp.db.products[..|db.products|] == db.products
              && var p := resp.db.products[|db.products|];
              && ValidProduct(p)
              && p.name == form.name
              && p.description == NullIfEmpty(form.description)
              && p.minAmount == form.minAmount.value && p.maxAmount == form.maxAmount.value
              && p.interestRate == form.interestRate.value
              && p.minTenure == form.minTenure.value && p.maxTenure == form.maxTenure.value
              && p.processingFee == (if Truthy(form.processingFee) then form.processingFee.value else 0.0)
              && p.lateFeePercentage == (if Truthy(form.lateFeePercentage) then form.lateFeePercentage.value else 2.0)
              && p.isActive
    ensures resp.db.applications == db.applications && resp.db.loans == db.loans
    ensures resp.db.installments == db.installments && resp.db.payments == db.payments
    ensures ProductsValid(db) ==> ProductsValid(resp.db)
  {
    var processingFee := OrDefault(form.processingFee, 0.0);
    var lateFeePercentage := OrDefault(form.lateFeePercentage, 2.0);
    if !RequiredFilled(form) then
      Response(Failure("All required fields must be filled"), db)
    else if form.minAmount.value > form.maxAmount.value then
      Response(Failure("Minimum amount cannot exceed maximum amount"), db)
    else if form.minTenure.value > form.maxTenure.value then
      Response(Failure("Minimum tenure cannot exceed maximum tenure"), db)
    else
      var p := Product(form.name, NullIfEmpty(form.description), form.minAmount.value, form.maxAmount.value,
                       form.interestRate.value, form.minTenure.value, form.maxTenure.value,
                       processingFee, lateFeePercentage, true);
      Response(Success, db.(products := db.products + [p]))
  }

  /** A late fee of 0 is falsy, so the stored percentage is the default 2. */
  lemma ZeroLateFeeBecomesDefault(db: Db, form: ProductForm)
    requires form.lateFeePercentage == Some(0.0)
    ensures var resp := CreateProduct(db, form);
            resp.result.Success? ==> resp.db.products[|db.products|].lateFeePercentage == 2.0
  {
  }

  /** A 0% interest rate is falsy, so such a product cannot be created. */
  lemma ZeroRateProductRejected(db: Db, form: ProductForm)
    requires form.interestRate == Some(0.0)
    ensures CreateProduct(db, form) == Response(Failure("All required fields must be filled"), db)
  {
  }
}
