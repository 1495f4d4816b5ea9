/** The read side of `LoanService`: the applicant's own loans, the
    officers' work queues, the stage details attached to each loan it
    returns, a single loan by id, and the reviewed, approved and disbursed
    reports. `findByStatus` and `findByCustomerId` have no ordering, so the
    lists are sets; the `updatedAt DESC` order of the two reports is not
    modelled. */
module LoanQueries {
  import opened Wrappers
  import opened Loans
  import LoanLifecycle
  import Users
  import Customers
  import Plafonds

  /** A loan with the stage details `populateLoanDetails` copies onto it:
      each stage's notes and time, and the acting officer's username. */
  datatype LoanView = LoanView(
    loan: Loan,
    reviewNotes: Option<string>,
    reviewedAt: Option<int>,
    reviewedBy: Option<string>,
    approvalNotes: Option<string>,
    approvedAt: Option<int>,
    approvedBy: Option<string>,
    disbursedAt: Option<int>,
    disbursedBy: Option<string>)

  /** The username of user `id`, when that user exists. */
  function UsernameOf(users: Users.Accounts, id: nat): (r: Option<string>)
    ensures r.Some? <==> Users.FindById(users, id).Some?
    ensures r.Some? ==> r.value == Users.FindById(users, id).value.username
  {
    match Users.FindById(users, id)
    case None => None
    case Some(u) => Some(u.username)
  }

  /** `populateLoanDetails`: each stage's details are filled only when that
      stage's record exists, and the officer's name only when the officer
      is still a user. */
  function PopulateLoanDetails(w: Workflow, users: Users.Accounts, loan: Loan): (v: LoanView)
    ensures v.loan == loan
    ensures loan.id !in w.reviews ==> v.reviewNotes.None? && v.reviewedAt.None? && v.reviewedBy.None?
    ensures loan.id in w.reviews ==> var rec := w.reviews[loan.id];
      v.reviewNotes == rec.reviewNotes && v.reviewedAt == Some(rec.reviewedAt)
      && v.reviewedBy == UsernameOf(users, rec.reviewedBy)
    ensures loan.id !in w.approvals ==> v.approvalNotes.None? && v.approvedAt.None? && v.approvedBy.None?
    ensures loan.id in w.approvals ==> var rec := w.approvals[loan.id];
      v.approvalNotes == rec.approvalNotes && v.approvedAt == Some(rec.approvedAt)
      && v.approvedBy == UsernameOf(users, rec.approvedBy)
    ensures loan.id !in w.disbursements ==> v.disbursedAt.None? && v.disbursedBy.None?
    ensures loan.id in w.disbursements ==> var rec := w.disbursements[loan.id];
      v.disbursedAt == Some(rec.disbursementDate) && v.disbursedBy == UsernameOf(users, rec.disbursedBy)
  {
    var id := loan.id;
    var review := if id in w.reviews then Some(w.reviews[id]) else None;
    var approval := if id in w.approvals then Some(w.approvals[id]) else None;
    var disbursement := if id in w.disbursements then Some(w.disbursements[id]) else None;
    LoanView(
      loan,
      if review.Some? then review.value.reviewNotes else None,
      if review.Some? then Some(review.value.reviewedAt) else None,
      if review.Some? then UsernameOf(users, review.value.reviewedBy) else None,
      if approval.Some? then approval.value.approvalNotes else None,
      if approval.Some? then Some(approval.value.approvedAt) else None,
      if approval.Some? then UsernameOf(users, approval.value.approvedBy) else None,
      if disbursement.Some? then Some(disbursement.value.disbursementDate) else None,
      if disbursement.Some? then UsernameOf(users, disbursement.value.disbursedBy) else None)
  }

  /** `findByStatus(status)`, each loan populated. */
  function LoansInStatus(w: Workflow, users: Users.Accounts, status: LoanStatus): (r: set<LoanView>)
    ensures forall v :: v in r ==> v.loan in w.loans.Values && v.loan.status == status
    ensures forall id :: id in w.loans && w.loans[id].status == status ==>
      PopulateLoanDetails(w, users, w.loans[id]) in r
  {
    set id | id in w.loans && w.loans[id].status == status :: PopulateLoanDetails(w, users, w.loans[id])
  }

  /** `getLoansForReview`: the SUBMITTED loans. */
  function LoansForReview(w: Workflow, users: Users.Accounts): (r: set<LoanView>)
    ensures forall v :: v in r ==> v.loan.status == Submitted
    ensures forall id :: id in w.loans && w.loans[id].status == Submitted ==> exists v :: v in r && v.loan == w.loans[id]
  {
    LoansInStatus(w, users, Submitted)
  }

  /** `getLoansForApproval`: the UNDER_REVIEW loans. */
  function LoansForApproval(w: Workflow, users: Users.Accounts): (r: set<LoanView>)
    ensures forall v :: v in r ==> v.loan.status == UnderReview
    ensures forall id :: id in w.loans && w.loans[id].status == UnderReview ==> exists v :: v in r && v.loan == w.loans[id]
  {
    LoansInStatus(w, users, UnderReview)
  }

  /** `getLoansForDisbursement`: the APPROVED loans. */
  function LoansForDisbursement(w: Workflow, users: Users.Accounts): (r: set<LoanView>)
    ensures forall v :: v in r ==> v.loan.status == Approved
    ensures forall id :: id in w.loans && w.loans[id].status == Approved ==> exists v :: v in r && v.loan == w.loans[id]
  {
    LoansInStatus(w, users, Approved)
  }

  /** No loan waits in two queues, and a consistent store shows each
      queue's loans with exactly the stage details of the stages behind
      them. */
  lemma QueuesDisjointAndDetailed(w: Workflow, users: Users.Accounts, v: LoanView)
    requires LoanLifecycle.Consistent(w)
    ensures v in LoansForReview(w, users) ==>
      && v !in LoansForApproval(w, users) && v !in LoansForDisbursement(w, users)
      && v.reviewedAt.None? && v.approvedAt.None? && v.disbursedAt.None?
    ensures v in LoansForApproval(w, users) ==>
      && v !in LoansForDisbursement(w, users)
      && v.reviewedAt.Some? && v.approvedAt.None? && v.disbursedAt.None?
    ensures v in LoansForDisbursement(w, users) ==>
      v.reviewedAt.Some? && v.approvedAt.Some? && v.disbursedAt.None?
  {
    if v in LoansForReview(w, users) {
      QueueMember(w, users, Submitted, v);
    }
    if v in LoansForApproval(w, users) {
      QueueMember(w, users, UnderReview, v);
    }
    if v in LoansForDisbursement(w, users) {
      QueueMember(w, users, Approved, v);
    }
  }

  lemma QueueMember(w: Workflow, users: Users.Accounts, status: LoanStatus, v: LoanView)
    requires LoanLifecycle.Consistent(w)
    requires v in LoansInStatus(w, users, status)
    ensures v == PopulateLoanDetails(w, users, v.loan) && LoanLifecycle.RecordsMatch(w, v.loan)
  {
    var id :| id in w.loans && w.loans[id].status == status && v == PopulateLoanDetails(w, users, w.loans[id]);
  }

  /** `getMyLoans`: the signed-in user, then their customer profile, must
      exist; the result is every loan of that customer. */
  function GetMyLoans(w: Workflow, users: Users.Accounts, reg: Customers.Registry, username: string)
    : (r: Result<set<LoanView>, LoanError>)
    ensures Users.FindByUsername(users, username).None? <==> r == Err(UserNotFound)
    ensures r == Err(CustomerProfileNotFound) <==>
      Users.FindByUsername(users, username).Some? && Applicant(users, reg, username).None?
    ensures r.Ok? ==> Applicant(users, reg, username).Some?
    ensures r.Ok? ==> var customer := Applicant(users, reg, username).value;
      && (forall v :: v in r.value ==> v.loan in w.loans.Values && v.loan.customerId == customer.id
                                       && v == PopulateLoanDetails(w, users, v.loan))
      && (forall id :: id in w.loans && w.loans[id].customerId == customer.id ==>
            PopulateLoanDetails(w, users, w.loans[id]) in r.value)
  {
    if Users.FindByUsername(users, username).None? then Err(UserNotFound)
    else match Applicant(users, reg, username)
      case None => Err(CustomerProfileNotFound)
      case Some(customer) =>
        Ok(set id | id in w.loans && w.loans[id].customerId == customer.id :: PopulateLoanDetails(w, users, w.loans[id]))
  }

  /** A submitted loan is listed among its applicant's loans at once. */
  lemma SubmittedLoanIsMine(w: Workflow, users: Users.Accounts, reg: Customers.Registry, cat: Plafonds.Catalog,
                            username: string, req: LoanRequest, now: int)
    requires SubmitLoan(w, users, reg, cat, username, req, now).Ok?
    ensures var (w', loan) := SubmitLoan(w, users, reg, cat, username, req, now).value;
      GetMyLoans(w', users, reg, username).Ok?
      && exists v :: v in GetMyLoans(w', users, reg, username).value && v.loan == loan
  {
    var (w', loan) := SubmitLoan(w, users, reg, cat, username, req, now).value;
    assert w'.loans[loan.id] == loan;
  }

  /** `getAllLoans`: every loan, populated. */
  function GetAllLoans(w: Workflow, users: Users.Accounts): (r: set<LoanView>)
    ensures forall v :: v in r ==> v.loan in w.loans.Values && v == PopulateLoanDetails(w, users, v.loan)
    ensures forall id :: id in w.loans ==> PopulateLoanDetails(w, users, w.loans[id]) in r
  {
    set id | id in w.loans :: PopulateLoanDetails(w, users, w.loans[id])
  }

  /** `getReviewedLoans` (`findAllReviewedLoans`): the loans with a review
      record, each with that record; the lookup inside cannot fail because
      the query selects exactly those loans. */
  function GetReviewedLoans(w: Workflow): (r: set<(Loan, Review)>)
    ensures forall x :: x in r ==> x.0 in w.loans.Values && x.0.id in w.reviews && x.1 == w.reviews[x.0.id]
    ensures forall id :: id in w.loans && w.loans[id].id == id && id in w.reviews ==> (w.loans[id], w.reviews[id]) in r
  {
    set id | id in w.loans && w.loans[id].id == id && id in w.reviews :: (w.loans[id], w.reviews[id])
  }

  /** `getApprovedLoansWithDetails` (`findAllApprovedLoans`): the loans
      with an approval record, each with that record. */
  function GetApprovedLoansWithDetails(w: Workflow): (r: set<(Loan, Approval)>)
    ensures forall x :: x in r ==> x.0 in w.loans.Values && x.0.id in w.approvals && x.1 == w.approvals[x.0.id]
    ensures forall id :: id in w.loans && w.loans[id].id == id && id in w.approvals ==> (w.loans[id], w.approvals[id]) in r
  {
    set id | id in w.loans && w.loans[id].id == id && id in w.approvals :: (w.loans[id], w.approvals[id])
  }

  /** In a consistent store the reviewed report lists exactly the loans
      past SUBMITTED, and the approval report exactly those that reached
      the approval stage: APPROVED, DISBURSED, or REJECTED by the approver. */
  lemma ReportsFollowStatus(w: Workflow, id: nat)
    requires LoanLifecycle.Consistent(w)
    requires id in w.loans
    ensures (exists x :: x in GetReviewedLoans(w) && x.0 == w.loans[id]) <==> w.loans[id].status != Submitted
    ensures (exists x :: x in GetApprovedLoansWithDetails(w) && x.0 == w.loans[id]) <==>
      (|| w.loans[id].status == Approved || w.loans[id].status == Disbursed
       || (w.loans[id].status == Rejected && LoanLifecycle.ApprovalSays(w, id, "REJECTED")))
  {
    var loan := w.loans[id];
    assert LoanLifecycle.RecordsMatch(w, loan);
    if id in w.reviews {
      assert (loan, w.reviews[id]) in GetReviewedLoans(w);
    }
    if id in w.approvals {
      assert (loan, w.approvals[id]) in GetApprovedLoansWithDetails(w);
    }
    forall x | x in GetReviewedLoans(w) && x.0 == loan
      ensures id in w.reviews
    {
    }
    forall x | x in GetApprovedLoansWithDetails(w) && x.0 == loan
      ensures id in w.approvals
    {
    }
  }

  /** `getLoanById`. */
  function GetLoanById(w: Workflow, users: Users.Accounts, loanId: int): (r: Result<LoanView, LoanError>)
    ensures FindLoan(w, loanId).None? <==> r == Err(LoanNotFound)
    ensures r.Ok? ==> r.value == PopulateLoanDetails(w, users, FindLoan(w, loanId).value)
  {
    match FindLoan(w, loanId)
    case None => Err(LoanNotFound)
    case Some(loan) => Ok(PopulateLoanDetails(w, users, loan))
  }

  /** One row of `getDisbursedLoansWithDetails`: the loan, its
      disbursement, and its approval when there is one. */
  datatype DisbursedView = DisbursedView(loan: Loan, disbursement: Disbursement, approval: Option<Approval>)

  /** `getDisbursedLoansWithDetails`: the DISBURSED loans that have a
      disbursement record; those without one are dropped. */
  function DisbursedLoansWithDetails(w: Workflow): (r: set<DisbursedView>)
    ensures forall d :: d in r ==>
      && d.loan.id in w.loans && w.loans[d.loan.id] == d.loan
      && d.loan.status == Disbursed && d.loan.id in w.disbursements
      && d.disbursement == w.disbursements[d.loan.id]
      && d.approval == (if d.loan.id in w.approvals then Some(w.approvals[d.loan.id]) else None)
    ensures forall id :: id in w.loans && w.loans[id].id == id && w.loans[id].status == Disbursed && id in w.disbursements ==>
      DisbursedView(w.loans[id], w.disbursements[id], if id in w.approvals then Some(w.approvals[id]) else None) in r
  {
    set id | id in w.loans && w.loans[id].id == id && w.loans[id].status == Disbursed && id in w.disbursements
      :: DisbursedView(w.loans[id], w.disbursements[id], if id in w.approvals then Some(w.approvals[id]) else None)
  }

  /** In a consistent store the filter drops nothing: every DISBURSED loan
      is listed, with a COMPLETED record of its amount and an APPROVED
      approval. */
  lemma DisbursedReportComplete(w: Workflow, id: nat)
    requires LoanLifecycle.Consistent(w)
    requires id in w.loans && w.loans[id].status == Disbursed
    ensures exists d :: (&& d in DisbursedLoansWithDetails(w) && d.loan == w.loans[id]
                         && d.disbursement.status == "COMPLETED" && d.disbursement.disbursementAmount == d.loan.amount
                         && d.approval.Some? && d.approval.value.approvalStatus == "APPROVED")
  {
    assert LoanLifecycle.RecordsMatch(w, w.loans[id]);
    var d := DisbursedView(w.loans[id], w.disbursements[id], Some(w.approvals[id]));
    assert d in DisbursedLoansWithDetails(w);
  }
}
