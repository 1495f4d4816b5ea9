/** `LoanService`: submission of a loan against a plafond, and the three
    officer actions (review, approval, disbursement) that move it through
    its five statuses. Each action writes one audit record into its own
    table, keyed by the loan (`loan_id` is a unique column in all three).

    The operations are pure: a failing call returns `Err` and the caller
    keeps the store it had, which is what the service's exceptions inside
    one transaction amount to. The clock is the `now` parameter; e-mails
    are not modelled. */
module Loans {
  import opened Wrappers
  import Text
  import Users
  import Customers
  import Plafonds

  datatype LoanStatus = Submitted | UnderReview | Approved | Rejected | Disbursed

  /** The five legal status changes. */
  predicate Edge(from: LoanStatus, to: LoanStatus) {
    || (from == Submitted && (to == UnderReview || to == Rejected))
    || (from == UnderReview && (to == Approved || to == Rejected))
    || (from == Approved && to == Disbursed)
  }

  predicate Terminal(s: LoanStatus) {
    s == Rejected || s == Disbursed
  }

  /** A loan; money in cents, the interest rate in hundredths of a percent
      as copied from the plafond. */
  datatype Loan = Loan(
    id: nat,
    customerId: nat,
    plafondId: nat,
    amount: int,
    tenureMonths: int,
    interestRate: int,
    purpose: Option<string>,
    status: LoanStatus,
    submittedAt: int,
    updatedAt: Option<int>)

  datatype Review = Review(loanId: nat, reviewedBy: nat, reviewNotes: Option<string>, reviewStatus: string, reviewedAt: int)

  datatype Approval = Approval(loanId: nat, approvedBy: nat, approvalStatus: string, approvalNotes: Option<string>, approvedAt: int)

  datatype Disbursement = Disbursement(
    loanId: nat, disbursedBy: nat, disbursementAmount: int, disbursementDate: int, bankAccount: string, status: string)

  /** The `loans` table and the three stage tables, each keyed by loan id. */
  datatype Workflow = Workflow(
    loans: map<nat, Loan>,
    reviews: map<nat, Review>,
    approvals: map<nat, Approval>,
    disbursements: map<nat, Disbursement>,
    nextLoanId: nat)

  datatype LoanRequest = LoanRequest(
    plafondId: Option<int>, amount: Option<int>, tenureMonths: Option<int>, purpose: Option<string>)

  /** The officer's request body: `action` for review and disbursement,
      `approved` for approval. */
  datatype ActionRequest = ActionRequest(
    action: Option<string>, notes: Option<string>, approved: Option<bool>, bankAccount: Option<string>)

  datatype LoanError =
    | UserNotFound
    | CustomerProfileNotFound
    | PlafondIdRequired
    | PlafondNotFound(id: int)
    | PlafondNotActive
    | PlafondNotEligible
    /** A null amount or tenure: the comparison throws. */
    | AmountRequired
    | AmountExceedsMaximum(amount: int, maximum: int)
    | TenureRequired
    | TenureExceedsMaximum(tenure: int, maximum: int)
    | LoanNotFound
    | NotInStatus(expected: LoanStatus)
    | InvalidReviewAction
    | AlreadyDisbursed
    | InvalidDisburseAction
    | BankAccountRequired
    /** A second record for one loan in a stage table: the unique
        `loan_id` constraint fails the save. */
    | DuplicateStageRecord

  function StatusName(s: LoanStatus): string {
    match s
    case Submitted => "SUBMITTED"
    case UnderReview => "UNDER_REVIEW"
    case Approved => "APPROVED"
    case Rejected => "REJECTED"
    case Disbursed => "DISBURSED"
  }

  function ErrorMessage(e: LoanError): string {
    match e
    case UserNotFound => "User not found"
    case CustomerProfileNotFound => "Customer profile not found. Please create your profile first."
    case PlafondIdRequired => "Plafond ID is required. Please select a plafond."
    case PlafondNotFound(_) => "Plafond not found with ID: "
    case PlafondNotActive => "Selected plafond is not active"
    case PlafondNotEligible => "Selected plafond is not eligible for your income level"
    case AmountRequired => "Loan amount is required"
    case AmountExceedsMaximum(_, _) => "Loan amount exceeds maximum allowed for selected plafond"
    case TenureRequired => "Loan tenure is required"
    case TenureExceedsMaximum(_, _) => "Loan tenure exceeds maximum allowed for selected plafond"
    case LoanNotFound => "Loan not found"
    case NotInStatus(s) => "Loan is not in " + StatusName(s) + " status"
    case InvalidReviewAction => "Invalid action. Must be APPROVE or REJECT"
    case AlreadyDisbursed => "Loan has already been disbursed"
    case InvalidDisburseAction => "Invalid action. Must be DISBURSE"
    case BankAccountRequired => "Bank account is required for disbursement"
    case DuplicateStageRecord => "Duplicate loan_id in stage table"
  }

  // ---------------------------------------------------------------------
  // Submission
  // ---------------------------------------------------------------------

  /** `findByIncomeRange(income)` contains the plafond `id`; a null income
      matches no row, so nothing is eligible for it. */
  predicate Eligible(cat: Plafonds.Catalog, income: Option<int>, id: nat) {
    income.Some? && exists p :: p in Plafonds.FindByIncomeRange(cat, income.value) && p.id == id
  }

  /** In a catalog with unique ids, a plafond is eligible exactly when it
      is active and its minimum income is at most the customer's. */
  lemma EligibleIff(cat: Plafonds.Catalog, income: Option<int>, k: nat)
    requires Plafonds.WellFormed(cat)
    requires k < |cat.rows|
    ensures Eligible(cat, income, cat.rows[k].id) <==>
      income.Some? && cat.rows[k].isActive && cat.rows[k].minIncome <= income.value
  {
    var row := cat.rows[k];
    if Eligible(cat, income, row.id) {
      var p :| p in Plafonds.FindByIncomeRange(cat, income.value) && p.id == row.id;
      var j :| 0 <= j < |cat.rows| && cat.rows[j] == p;
      assert j == k;
    }
  }

  /** The plafond checks of `submitLoan`, in order. */
  function CheckPlafond(cat: Plafonds.Catalog, income: Option<int>, req: LoanRequest)
    : (r: Result<Plafonds.Plafond, LoanError>)
    ensures req.plafondId.None? ==> r == Err(PlafondIdRequired)
    ensures req.plafondId.Some? && Plafonds.IndexOf(cat, req.plafondId.value).None?
      ==> r == Err(PlafondNotFound(req.plafondId.value))
    ensures req.plafondId.Some? && Plafonds.IndexOf(cat, req.plafondId.value).Some? ==>
      var p := cat.rows[Plafonds.IndexOf(cat, req.plafondId.value).value];
      var eligible := p.isActive && Eligible(cat, income, p.id);
      var amountOk := eligible && req.amount.Some? && req.amount.value <= p.maxAmount;
      && (!p.isActive ==> r == Err(PlafondNotActive))
      && (p.isActive && !Eligible(cat, income, p.id) ==> r == Err(PlafondNotEligible))
      && (eligible && req.amount.None? ==> r == Err(AmountRequired))
      && (eligible && req.amount.Some? && req.amount.value > p.maxAmount ==> r == Err(AmountExceedsMaximum(req.amount.value, p.maxAmount)))
      && (amountOk && req.tenureMonths.None? ==> r == Err(TenureRequired))
      && (amountOk && req.tenureMonths.Some? && req.tenureMonths.value > p.tenorMonth ==> r == Err(TenureExceedsMaximum(req.tenureMonths.value, p.tenorMonth)))
    ensures r.Ok? ==>
      && req.plafondId.Some? && r.value in cat.rows && r.value.id == req.plafondId.value
      && r.value.isActive && Eligible(cat, income, r.value.id)
      && req.amount.Some? && req.amount.value <= r.value.maxAmount
      && req.tenureMonths.Some? && req.tenureMonths.value <= r.value.tenorMonth
  {
    if req.plafondId.None? then Err(PlafondIdRequired)
    else match Plafonds.IndexOf(cat, req.plafondId.value)
      case None => Err(PlafondNotFound(req.plafondId.value))
      case Some(k) =>
        var p := cat.rows[k];
        if !p.isActive then Err(PlafondNotActive)
        else if !Eligible(cat, income, p.id) then Err(PlafondNotEligible)
        else if req.amount.None? then Err(AmountRequired)
        else if req.amount.value > p.maxAmount then Err(AmountExceedsMaximum(req.amount.value, p.maxAmount))
        else if req.tenureMonths.None? then Err(TenureRequired)
        else if req.tenureMonths.value > p.tenorMonth then Err(TenureExceedsMaximum(req.tenureMonths.value, p.tenorMonth))
        else Ok(p)
  }

  /** The customer profile of the user signed in as `username`. */
  function Applicant(users: Users.Accounts, reg: Customers.Registry, username: string): (r: Option<Customers.Customer>)
    ensures r.Some? ==> Users.FindByUsername(users, username).Some?
    ensures r.Some? ==> r.value in reg.customers && r.value.userId == Users.FindByUsername(users, username).value.id
    ensures r.None? <==>
      (Users.FindByUsername(users, username).None?
       || forall c :: c in reg.customers ==> c.userId != Users.FindByUsername(users, username).value.id)
  {
    match Users.FindByUsername(users, username)
    case None => None
    case Some(user) =>
      match Customers.IndexOfUser(reg, user.id)
      case None => None
      case Some(ci) => Some(reg.customers[ci])
  }

  /** `submitLoan`: the applicant's user and customer profile, then the
      plafond checks; the new loan is SUBMITTED under the next identity and
      freezes the plafond's interest rate. */
  function SubmitLoan(w: Workflow, users: Users.Accounts, reg: Customers.Registry, cat: Plafonds.Catalog,
                      username: string, req: LoanRequest, now: int)
    : (r: Result<(Workflow, Loan), LoanError>)
    ensures Users.FindByUsername(users, username).None? ==> r == Err(UserNotFound)
    ensures Users.FindByUsername(users, username).Some? && Applicant(users, reg, username).None?
      ==> r == Err(CustomerProfileNotFound)
    ensures Applicant(users, reg, username).Some? ==>
      var customer := Applicant(users, reg, username).value;
      var check := CheckPlafond(cat, customer.monthlyIncome, req);
      && (check.Err? ==> r == Err(check.error))
      && (check.Ok? ==>
            r.Ok? && r.value.1 == Loan(w.nextLoanId, customer.id, check.value.id, req.amount.value,
                                       req.tenureMonths.value, check.value.interestRate, req.purpose, Submitted, now, None))
    ensures r.Ok? ==> var (w', loan) := r.value;
      && loan.id == w.nextLoanId && loan.status == Submitted
      && w'.loans == w.loans[loan.id := loan] && w'.nextLoanId == w.nextLoanId + 1
      && w'.reviews == w.reviews && w'.approvals == w.approvals && w'.disbursements == w.disbursements
  {
    if Users.FindByUsername(users, username).None? then Err(UserNotFound)
    else match Applicant(users, reg, username)
      case None => Err(CustomerProfileNotFound)
      case Some(customer) =>
        var p :- CheckPlafond(cat, customer.monthlyIncome, req);
        var loan := Loan(w.nextLoanId, customer.id, p.id, req.amount.value, req.tenureMonths.value,
                         p.interestRate, req.purpose, Submitted, now, None);
        Ok((w.(loans := w.loans[loan.id := loan], nextLoanId := w.nextLoanId + 1), loan))
  }

  /** A soft-deleted plafond is still found by `findById`, but its row is
      inactive, so submission against it stops at the activity check. */
  lemma DeletedPlafondRejected(cat: Plafonds.Catalog, income: Option<int>, req: LoanRequest)
    requires Plafonds.WellFormed(cat)
    requires req.plafondId.Some? && Plafonds.IndexOf(cat, req.plafondId.value).Some?
    requires cat.rows[Plafonds.IndexOf(cat, req.plafondId.value).value].isDeleted
    ensures CheckPlafond(cat, income, req) == Err(PlafondNotActive)
  {
    assert Plafonds.RowInvariant(cat.rows[Plafonds.IndexOf(cat, req.plafondId.value).value]);
  }

  /** Submission succeeds exactly when every rule holds: the plafond exists
      and is active, the customer's income reaches its minimum, and the
      amount and tenure are within its limits. */
  lemma SubmissionRules(cat: Plafonds.Catalog, income: Option<int>, req: LoanRequest)
    requires Plafonds.WellFormed(cat)
    ensures CheckPlafond(cat, income, req).Ok? <==>
      && req.plafondId.Some? && Plafonds.IndexOf(cat, req.plafondId.value).Some?
      && var p := cat.rows[Plafonds.IndexOf(cat, req.plafondId.value).value];
      && p.isActive && income.Some? && p.minIncome <= income.value
      && req.amount.Some? && req.amount.value <= p.maxAmount
      && req.tenureMonths.Some? && req.tenureMonths.value <= p.tenorMonth
  {
    if req.plafondId.Some? && Plafonds.IndexOf(cat, req.plafondId.value).Some? {
      EligibleIff(cat, income, Plafonds.IndexOf(cat, req.plafondId.value).value);
    }
  }

  // ---------------------------------------------------------------------
  // The officer actions
  // ---------------------------------------------------------------------

  /** `loanRepository.findById`. */
  function FindLoan(w: Workflow, id: int): (r: Option<Loan>)
    ensures r.Some? <==> id >= 0 && id as nat in w.loans
    ensures r.Some? ==> r.value == w.loans[id as nat]
  {
    if id >= 0 && id as nat in w.loans then Some(w.loans[id as nat]) else None
  }

  /** The review action: "APPROVE" (ignoring case) sends the loan on with
      an "APPROVED" record, "REJECT" rejects it; anything else, or none,
      is refused. */
  function ReviewDecision(action: Option<string>): (r: Option<(string, LoanStatus)>)
    ensures r.Some? ==> Edge(Submitted, r.value.1)
    ensures r == Some(("APPROVED", UnderReview)) <==> action.Some? && Text.MatchesKeyword(action.value, "APPROVE")
    ensures r == Some(("REJECTED", Rejected)) <==> action.Some? && Text.MatchesKeyword(action.value, "REJECT")
    ensures r.None? <==>
      (action.None? || (!Text.MatchesKeyword(action.value, "APPROVE") && !Text.MatchesKeyword(action.value, "REJECT")))
  {
    if action.Some? && Text.MatchesKeyword(action.value, "APPROVE") then Some(("APPROVED", UnderReview))
    else if action.Some? && Text.MatchesKeyword(action.value, "REJECT") then Some(("REJECTED", Rejected))
    else None
  }

  /** The action is compared ignoring case and nothing else: every
      spelling of the two keywords is accepted, a padded or inflected word
      is refused, and no action both approves and rejects. */
  lemma ReviewDecisionSpellings(action: string)
    ensures ReviewDecision(Some("approve")) == Some(("APPROVED", UnderReview))
    ensures ReviewDecision(Some("Reject")) == Some(("REJECTED", Rejected))
    ensures ReviewDecision(Some(" APPROVE")) == None
    ensures ReviewDecision(Some("APPROVED")) == None
    ensures ReviewDecision(None) == None
    ensures !(Text.MatchesKeyword(action, "APPROVE") && Text.MatchesKeyword(action, "REJECT"))
  {
    LowerCaseApproveMatches();
    MixedCaseRejectMatches();
    assert |" APPROVE"| == 8 && |"APPROVED"| == 8 && |"APPROVE"| == 7 && |"REJECT"| == 6;
  }

  lemma LowerCaseApproveMatches()
    ensures Text.MatchesKeyword("approve", "APPROVE")
  {
    var s, k := "approve", "APPROVE";
    assert s[0] == 'a' && s[1] == 'p' && s[2] == 'p' && s[3] == 'r' && s[4] == 'o' && s[5] == 'v' && s[6] == 'e';
    assert k[0] == 'A' && k[1] == 'P' && k[2] == 'P' && k[3] == 'R' && k[4] == 'O' && k[5] == 'V' && k[6] == 'E';
  }

  lemma MixedCaseRejectMatches()
    ensures Text.MatchesKeyword("Reject", "REJECT")
  {
    var s, k := "Reject", "REJECT";
    assert s[0] == 'R' && s[1] == 'e' && s[2] == 'j' && s[3] == 'e' && s[4] == 'c' && s[5] == 't';
    assert k[0] == 'R' && k[1] == 'E' && k[2] == 'J' && k[3] == 'E' && k[4] == 'C' && k[5] == 'T';
  }

  /** The approval decision: only an explicit `true` approves; `false`
      and a missing flag both reject. */
  function ApprovalDecision(approved: Option<bool>): (r: (string, LoanStatus))
    ensures Edge(UnderReview, r.1)
    ensures r.1 == Approved <==> approved == Some(true)
    ensures r.0 == "APPROVED" <==> r.1 == Approved
    ensures r.0 == "REJECTED" <==> r.1 == Rejected
  {
    if approved == Some(true) then ("APPROVED", Approved) else ("REJECTED", Rejected)
  }

  /** `reviewLoan`: the loan, its SUBMITTED status, the officer, then the
      action; on success one review record and the new status. */
  function ReviewLoan(w: Workflow, users: Users.Accounts, loanId: int, username: string, req: ActionRequest, now: int)
    : (r: Result<(Workflow, Loan), LoanError>)
    ensures FindLoan(w, loanId).None? ==> r == Err(LoanNotFound)
    ensures FindLoan(w, loanId).Some? && FindLoan(w, loanId).value.status != Submitted ==> r == Err(NotInStatus(Submitted))
    ensures FindLoan(w, loanId).Some? && FindLoan(w, loanId).value.status == Submitted ==>
      && (Users.FindByUsername(users, username).None? ==> r == Err(UserNotFound))
      && (Users.FindByUsername(users, username).Some? && ReviewDecision(req.action).None? ==> r == Err(InvalidReviewAction))
    ensures r.Ok? <==>
      && FindLoan(w, loanId).Some? && FindLoan(w, loanId).value.status == Submitted
      && Users.FindByUsername(users, username).Some? && ReviewDecision(req.action).Some?
      && loanId as nat !in w.reviews
    ensures r == Err(DuplicateStageRecord) <==>
      && FindLoan(w, loanId).Some? && FindLoan(w, loanId).value.status == Submitted
      && Users.FindByUsername(users, username).Some? && ReviewDecision(req.action).Some?
      && loanId as nat in w.reviews
    ensures r.Ok? ==> var (w', loan') := r.value; var loan := FindLoan(w, loanId).value;
      && loan.status == Submitted && ReviewDecision(req.action).Some?
      && Users.FindByUsername(users, username).Some?
      && Edge(loan.status, loan'.status)
      && loan' == loan.(status := ReviewDecision(req.action).value.1, updatedAt := Some(now))
      && w'.loans == w.loans[loanId as nat := loan']
      && loanId as nat !in w.reviews
      && w'.reviews == w.reviews[loanId as nat := Review(loanId as nat, Users.FindByUsername(users, username).value.id,
                                                   req.notes, ReviewDecision(req.action).value.0, now)]
      && w'.approvals == w.approvals && w'.disbursements == w.disbursements && w'.nextLoanId == w.nextLoanId
  {
    match FindLoan(w, loanId)
    case None => Err(LoanNotFound)
    case Some(loan) =>
      if loan.status != Submitted then Err(NotInStatus(Submitted))
      else match Users.FindByUsername(users, username)
        case None => Err(UserNotFound)
        case Some(user) =>
          match ReviewDecision(req.action)
          case None => Err(InvalidReviewAction)
          case Some((recordStatus, next)) =>
            if loanId as nat in w.reviews then Err(DuplicateStageRecord)
            else
              var loan' := loan.(status := next, updatedAt := Some(now));
              Ok((w.(loans := w.loans[loanId as nat := loan'],
                     reviews := w.reviews[loanId as nat := Review(loanId as nat, user.id, req.notes, recordStatus, now)]),
                  loan'))
  }

  /** `approveLoan`: the loan, its UNDER_REVIEW status, the officer; the
      decision itself cannot fail. */
  function ApproveLoan(w: Workflow, users: Users.Accounts, loanId: int, username: string, req: ActionRequest, now: int)
    : (r: Result<(Workflow, Loan), LoanError>)
    ensures FindLoan(w, loanId).None? ==> r == Err(LoanNotFound)
    ensures FindLoan(w, loanId).Some? && FindLoan(w, loanId).value.status != UnderReview ==> r == Err(NotInStatus(UnderReview))
    ensures FindLoan(w, loanId).Some? && FindLoan(w, loanId).value.status == UnderReview ==>
      (Users.FindByUsername(users, username).None? ==> r == Err(UserNotFound))
    ensures r.Ok? <==>
      && FindLoan(w, loanId).Some? && FindLoan(w, loanId).value.status == UnderReview
      && Users.FindByUsername(users, username).Some? && loanId as nat !in w.approvals
    ensures r == Err(DuplicateStageRecord) <==>
      && FindLoan(w, loanId).Some? && FindLoan(w, loanId).value.status == UnderReview
      && Users.FindByUsername(users, username).Some? && loanId as nat in w.approvals
    ensures r.Ok? ==> var (w', loan') := r.value; var loan := FindLoan(w, loanId).value;
      && loan.status == UnderReview && Users.FindByUsername(users, username).Some?
      && Edge(loan.status, loan'.status)
      && (loan'.status == Approved <==> req.approved == Some(true))
      && loan' == loan.(status := ApprovalDecision(req.approved).1, updatedAt := Some(now))
      && w'.loans == w.loans[loanId as nat := loan']
      && loanId as nat !in w.approvals
      && w'.approvals == w.approvals[loanId as nat := Approval(loanId as nat, Users.FindByUsername(users, username).value.id,
                                                       ApprovalDecision(req.approved).0, req.notes, now)]
      && w'.reviews == w.reviews && w'.disbursements == w.disbursements && w'.nextLoanId == w.nextLoanId
  {
    match FindLoan(w, loanId)
    case None => Err(LoanNotFound)
    case Some(loan) =>
      if loan.status != UnderReview then Err(NotInStatus(UnderReview))
      else match Users.FindByUsername(users, username)
        case None => Err(UserNotFound)
        case Some(user) =>
          var (recordStatus, next) := ApprovalDecision(req.approved);
          if loanId as nat in w.approvals then Err(DuplicateStageRecord)
          else
            var loan' := loan.(status := next, updatedAt := Some(now));
            Ok((w.(loans := w.loans[loanId as nat := loan'],
                   approvals := w.approvals[loanId as nat := Approval(loanId as nat, user.id, recordStatus, req.notes, now)]),
                loan'))
  }

  /** `bankAccount == null || bankAccount.trim().isEmpty()`. */
  predicate BlankAccount(bank: Option<string>)
    ensures BlankAccount(bank) <==> bank.None? || forall i :: 0 <= i < |bank.value| ==> Text.IsTrimmable(bank.value[i])
  {
    if bank.None? then true
    else Text.TrimBlankIff(bank.value); |Text.Trim(bank.value)| == 0
  }

  /** `disburseLoan`: the loan, its APPROVED status, no earlier
      disbursement, the "DISBURSE" action, a non-blank bank account, then
      the officer; on success one COMPLETED record for the loan's amount. */
  function DisburseLoan(w: Workflow, users: Users.Accounts, loanId: int, username: string, req: ActionRequest, now: int)
    : (r: Result<(Workflow, Loan), LoanError>)
    ensures FindLoan(w, loanId).None? ==> r == Err(LoanNotFound)
    ensures FindLoan(w, loanId).Some? ==>
      var loan := FindLoan(w, loanId).value;
      var pending := loan.status == Approved && loanId as nat !in w.disbursements;
      var actionOk := pending && req.action.Some? && Text.MatchesKeyword(req.action.value, "DISBURSE");
      && (loan.status != Approved ==> r == Err(NotInStatus(Approved)))
      && (loan.status == Approved && loanId as nat in w.disbursements ==> r == Err(AlreadyDisbursed))
      && (pending && !actionOk ==> r == Err(InvalidDisburseAction))
      && (actionOk && BlankAccount(req.bankAccount) ==> r == Err(BankAccountRequired))
      && (actionOk && !BlankAccount(req.bankAccount) && Users.FindByUsername(users, username).None? ==> r == Err(UserNotFound))
    ensures r.Ok? <==>
      && FindLoan(w, loanId).Some? && FindLoan(w, loanId).value.status == Approved
      && loanId as nat !in w.disbursements
      && req.action.Some? && Text.MatchesKeyword(req.action.value, "DISBURSE")
      && !BlankAccount(req.bankAccount)
      && Users.FindByUsername(users, username).Some?
    ensures r.Ok? ==> var (w', loan') := r.value; var loan := FindLoan(w, loanId).value;
      && loan.status == Approved && loanId as nat !in w.disbursements
      && req.bankAccount.Some? && !BlankAccount(req.bankAccount)
      && Users.FindByUsername(users, username).Some?
      && loan' == loan.(status := Disbursed, updatedAt := Some(now))
      && w'.loans == w.loans[loanId as nat := loan']
      && w'.disbursements == w.disbursements[loanId as nat := Disbursement(loanId as nat, Users.FindByUsername(users, username).value.id,
                                                                     loan.amount, now, req.bankAccount.value, "COMPLETED")]
      && w'.reviews == w.reviews && w'.approvals == w.approvals && w'.nextLoanId == w.nextLoanId
  {
    match FindLoan(w, loanId)
    case None => Err(LoanNotFound)
    case Some(loan) =>
      if loan.status != Approved then Err(NotInStatus(Approved))
      else if loanId as nat in w.disbursements then Err(AlreadyDisbursed)
      else if !(req.action.Some? && Text.MatchesKeyword(req.action.value, "DISBURSE")) then Err(InvalidDisburseAction)
      else if BlankAccount(req.bankAccount) then Err(BankAccountRequired)
      else match Users.FindByUsername(users, username)
        case None => Err(UserNotFound)
        case Some(user) =>
          var loan' := loan.(status := Disbursed, updatedAt := Some(now));
          Ok((w.(loans := w.loans[loanId as nat := loan'],
                 disbursements := w.disbursements[loanId as nat := Disbursement(loanId as nat, user.id, loan.amount, now,
                                                                          req.bankAccount.value, "COMPLETED")]),
              loan'))
  }
}
