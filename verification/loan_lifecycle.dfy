/** The invariant that ties a loan's status to the stage records written
    for it, and the lifecycle facts that follow: every action keeps it,
    the unique-constraint and "already disbursed" failures cannot happen
    under it, and the terminal statuses have no way out. */
module LoanLifecycle {
  import opened Wrappers
  import opened Loans
  import Users
  import Customers
  import Plafonds

  predicate ReviewSays(w: Workflow, id: nat, s: string) {
    id in w.reviews && w.reviews[id].reviewStatus == s
  }

  predicate ApprovalSays(w: Workflow, id: nat, s: string) {
    id in w.approvals && w.approvals[id].approvalStatus == s
  }

  /** The stage records a loan in each status has: one record per stage it
      passed, each saying how that stage decided, and a COMPLETED
      disbursement of the full amount once disbursed. */
  predicate RecordsMatch(w: Workflow, loan: Loan) {
    var id := loan.id;
    match loan.status
    case Submitted => id !in w.reviews && id !in w.approvals && id !in w.disbursements
    case UnderReview => ReviewSays(w, id, "APPROVED") && id !in w.approvals && id !in w.disbursements
    case Approved => ReviewSays(w, id, "APPROVED") && ApprovalSays(w, id, "APPROVED") && id !in w.disbursements
    case Rejected =>
      && id !in w.disbursements
      && ((ReviewSays(w, id, "REJECTED") && id !in w.approvals)
          || (ReviewSays(w, id, "APPROVED") && ApprovalSays(w, id, "REJECTED")))
    case Disbursed =>
      && ReviewSays(w, id, "APPROVED") && ApprovalSays(w, id, "APPROVED")
      && id in w.disbursements && w.disbursements[id].status == "COMPLETED"
      && w.disbursements[id].disbursementAmount == loan.amount
  }

  ghost predicate Consistent(w: Workflow) {
    && (forall id :: id in w.loans ==> w.loans[id].id == id && id < w.nextLoanId)
    && (forall id :: id in w.reviews ==> id in w.loans && w.reviews[id].loanId == id)
    && (forall id :: id in w.approvals ==> id in w.loans && w.approvals[id].loanId == id)
    && (forall id :: id in w.disbursements ==> id in w.loans && w.disbursements[id].loanId == id)
    && (forall id :: id in w.loans ==> RecordsMatch(w, w.loans[id]))
  }

  /** The empty store is consistent. */
  lemma EmptyConsistent()
    ensures Consistent(Workflow(map[], map[], map[], map[], 0))
  {
  }

  /** Changing one loan and the stage records of that loan only leaves
      every other loan's records as they were. */
  /** `w'` differs from `w` at most in loan `id` and its stage records. */
  ghost predicate FramedExcept(w: Workflow, w': Workflow, id: nat) {
    && w'.loans.Keys == w.loans.Keys && w'.nextLoanId == w.nextLoanId
    && (forall j :: j in w.loans && j != id ==> w'.loans[j] == w.loans[j])
    && (forall j :: j != id ==> (j in w'.reviews <==> j in w.reviews))
    && (forall j :: j != id && j in w.reviews ==> w'.reviews[j] == w.reviews[j])
    && (forall j :: j != id ==> (j in w'.approvals <==> j in w.approvals))
    && (forall j :: j != id && j in w.approvals ==> w'.approvals[j] == w.approvals[j])
    && (forall j :: j != id ==> (j in w'.disbursements <==> j in w.disbursements))
    && (forall j :: j != id && j in w.disbursements ==> w'.disbursements[j] == w.disbursements[j])
  }

  /** The changed loan's own records name it. */
  predicate OwnRecordsNamed(w': Workflow, id: nat) {
    && (id in w'.reviews ==> w'.reviews[id].loanId == id)
    && (id in w'.approvals ==> w'.approvals[id].loanId == id)
    && (id in w'.disbursements ==> w'.disbursements[id].loanId == id)
  }

  lemma OthersUnaffected(w: Workflow, w': Workflow, id: nat)
    requires Consistent(w)
    requires FramedExcept(w, w', id)
    requires id in w.loans && w'.loans[id].id == id && RecordsMatch(w', w'.loans[id])
    requires OwnRecordsNamed(w', id)
    ensures Consistent(w')
  {
    TablesFramed(w, w', id);
    forall j | j in w'.loans
      ensures RecordsMatch(w', w'.loans[j])
    {
      if j != id {
        assert RecordsMatch(w, w.loans[j]) && w.loans[j].id == j;
        SameRecords(w, w', w.loans[j]);
      }
    }
  }

  /** The key and identity parts of the invariant survive a framed change. */
  lemma TablesFramed(w: Workflow, w': Workflow, id: nat)
    requires Consistent(w)
    requires FramedExcept(w, w', id)
    requires id in w.loans && w'.loans[id].id == id
    requires OwnRecordsNamed(w', id)
    ensures forall j :: j in w'.loans ==> w'.loans[j].id == j && j < w'.nextLoanId
    ensures forall j :: j in w'.reviews ==> j in w'.loans && w'.reviews[j].loanId == j
    ensures forall j :: j in w'.approvals ==> j in w'.loans && w'.approvals[j].loanId == j
    ensures forall j :: j in w'.disbursements ==> j in w'.loans && w'.disbursements[j].loanId == j
  {
  }

  /** A loan whose three stage records are untouched keeps its match. */
  lemma SameRecords(w: Workflow, w': Workflow, loan: Loan)
    requires RecordsMatch(w, loan)
    requires loan.id in w'.reviews <==> loan.id in w.reviews
    requires loan.id in w.reviews ==> w'.reviews[loan.id] == w.reviews[loan.id]
    requires loan.id in w'.approvals <==> loan.id in w.approvals
    requires loan.id in w.approvals ==> w'.approvals[loan.id] == w.approvals[loan.id]
    requires loan.id in w'.disbursements <==> loan.id in w.disbursements
    requires loan.id in w.disbursements ==> w'.disbursements[loan.id] == w.disbursements[loan.id]
    ensures RecordsMatch(w', loan)
  {
  }

  lemma SubmitKeepsConsistent(w: Workflow, users: Users.Accounts, reg: Customers.Registry, cat: Plafonds.Catalog,
                              username: string, req: LoanRequest, now: int)
    requires Consistent(w)
    ensures var r := SubmitLoan(w, users, reg, cat, username, req, now);
      r.Ok? ==> Consistent(r.value.0)
  {
    var r := SubmitLoan(w, users, reg, cat, username, req, now);
    if r.Ok? {
      var (w', loan) := r.value;
      assert loan.id !in w.reviews && loan.id !in w.approvals && loan.id !in w.disbursements;
      forall j | j in w'.loans
        ensures RecordsMatch(w', w'.loans[j])
      {
        if j != loan.id {
          assert RecordsMatch(w, w.loans[j]) && w.loans[j].id == j;
          SameRecords(w, w', w.loans[j]);
        }
      }
    }
  }

  /** Review keeps the invariant, and under it the review table never
      refuses the new record. */
  lemma ReviewKeepsConsistent(w: Workflow, users: Users.Accounts, loanId: int, username: string,
                              req: ActionRequest, now: int)
    requires Consistent(w)
    ensures ReviewLoan(w, users, loanId, username, req, now) != Err(DuplicateStageRecord)
    ensures var r := ReviewLoan(w, users, loanId, username, req, now);
      r.Ok? ==> Consistent(r.value.0)
  {
    var r := ReviewLoan(w, users, loanId, username, req, now);
    var found := FindLoan(w, loanId);
    if found.Some? && found.value.status == Submitted {
      assert RecordsMatch(w, found.value);
    }
    if r.Ok? {
      var (w', loan') := r.value;
      OthersUnaffected(w, w', loan'.id);
    }
  }

  /** Approval keeps the invariant, and under it the approval table never
      refuses the new record. */
  lemma ApproveKeepsConsistent(w: Workflow, users: Users.Accounts, loanId: int, username: string,
                               req: ActionRequest, now: int)
    requires Consistent(w)
    ensures ApproveLoan(w, users, loanId, username, req, now) != Err(DuplicateStageRecord)
    ensures var r := ApproveLoan(w, users, loanId, username, req, now);
      r.Ok? ==> Consistent(r.value.0)
  {
    var r := ApproveLoan(w, users, loanId, username, req, now);
    var found := FindLoan(w, loanId);
    if found.Some? && found.value.status == UnderReview {
      assert RecordsMatch(w, found.value);
    }
    if r.Ok? {
      var (w', loan') := r.value;
      OthersUnaffected(w, w', loan'.id);
    }
  }

  /** Disbursement keeps the invariant. Under it an APPROVED loan has no
      disbursement record yet, so the "already disbursed" check never
      fires: the status guard before it catches every repeat. */
  lemma DisburseKeepsConsistent(w: Workflow, users: Users.Accounts, loanId: int, username: string,
                                req: ActionRequest, now: int)
    requires Consistent(w)
    ensures DisburseLoan(w, users, loanId, username, req, now) != Err(AlreadyDisbursed)
    ensures var r := DisburseLoan(w, users, loanId, username, req, now);
      r.Ok? ==> Consistent(r.value.0)
  {
    var r := DisburseLoan(w, users, loanId, username, req, now);
    var found := FindLoan(w, loanId);
    if found.Some? && found.value.status == Approved {
      assert RecordsMatch(w, found.value);
    }
    if r.Ok? {
      var (w', loan') := r.value;
      OthersUnaffected(w, w', loan'.id);
    }
  }

  /** A rejected or disbursed loan refuses every officer action with the
      status error. */
  lemma TerminalIsFinal(w: Workflow, users: Users.Accounts, loanId: int, username: string,
                        req: ActionRequest, now: int)
    requires FindLoan(w, loanId).Some? && Terminal(FindLoan(w, loanId).value.status)
    ensures ReviewLoan(w, users, loanId, username, req, now) == Err(NotInStatus(Submitted))
    ensures ApproveLoan(w, users, loanId, username, req, now) == Err(NotInStatus(UnderReview))
    ensures DisburseLoan(w, users, loanId, username, req, now) == Err(NotInStatus(Approved))
  {
  }

  /** Disbursing twice: the second attempt, whatever its request, fails at
      the status guard and the one COMPLETED record stays. */
  lemma DisburseOnce(w: Workflow, users: Users.Accounts, loanId: int, username: string, req: ActionRequest, now: int,
                     username2: string, req2: ActionRequest, now2: int)
    requires DisburseLoan(w, users, loanId, username, req, now).Ok?
    ensures var w' := DisburseLoan(w, users, loanId, username, req, now).value.0;
      && DisburseLoan(w', users, loanId, username2, req2, now2) == Err(NotInStatus(Approved))
      && loanId as nat in w'.disbursements && w'.disbursements[loanId as nat].status == "COMPLETED"
      && w'.disbursements[loanId as nat].disbursementAmount == w.loans[loanId as nat].amount
  {
    var (w', loan') := DisburseLoan(w, users, loanId, username, req, now).value;
    assert FindLoan(w', loanId) == Some(loan');
  }
}
