# Genggamin loan back end, modelled in Dafny

Genggamin is a Spring Boot back end for consumer loans. A customer
registers and fills in a profile (NIK, income, identity documents). The
customer then applies for a loan under a *plafond*, a credit rule that
fixes the minimum income, the maximum amount, the tenor and the interest
rate. Three kinds of officer move the application through its life:
marketing reviews it, the branch manager approves it, and back office
disburses it. Along the way the system sends e-mail, push and in-app
notifications. It also offers a password reset by single-use token, and a
loan simulation that picks the cheapest plafond.

This project models the services that carry those rules:

- `LoanService`: submission, review, approval, disbursement, the
  officer queues and the reports.
- The plafond engine: `PlafondService`, `PlafondRepository` and
  `PlafondRequest.validate`, including the simulation arithmetic.
- `NotificationService`.
- `PasswordResetService` and the token's `isExpired`/`isValid`.
- `UserService`: register, authenticate, create and fetch.
- `CustomerService`: the profile upsert, NIK uniqueness, document file
  names and the emergency contact.

Each service operation is a pure function from the stores it touches to a
`Result`. A failed call returns `Err`, and the caller keeps the store it
had. That is the effect of the service's exceptions inside one
transaction.

Stores are modelled as follows:

- Plafonds, users, customers, tokens and notifications are sequences of
  rows. Lookups return the first row that matches.
- The three loan stage tables (review, approval, disbursement) are maps
  keyed by loan id, because `loan_id` is a unique column in each of them.

Inputs from outside the model become parameters:

- the clock is a `now` parameter;
- the generated UUID is a parameter;
- the password encoder is a function parameter;
- the file store is a function parameter, and the model records the calls
  made to it.

Money is held in integer cents. Interest rates are held in hundredths of
a percent. The simulation's `BigDecimal` steps are modelled as integer
fixed-point at scale 8 with HALF_UP rounding (module `FixedPoint`).

Modules:

- `Wrappers`: `Option` and `Result`.
- `Seqs`: filtering, counting, first match and a stable sort by key.
- `Text`: the Java string operations the services use:
  - `trim`;
  - `length()`, counted in UTF-16 units;
  - `equalsIgnoreCase` against an ASCII keyword, with the JDK's case folding;
  - `replaceAll("\\s+", "_")`;
  - decimal rendering of ids.
- `FixedPoint`: division with HALF_UP rounding.
- `Plafonds` and `Simulation`.
- `Users` and `Customers`.
- `Loans`, `LoanLifecycle` and `LoanQueries`.
- `Notifications` and `PasswordReset`.

The loan workflow has these invariants (`LoanLifecycle.Consistent`):

- only five status changes are possible: SUBMITTED → UNDER_REVIEW or
  REJECTED, UNDER_REVIEW → APPROVED or REJECTED, APPROVED → DISBURSED;
- every status carries exactly the stage records of the stages it passed;
- REJECTED and DISBURSED are final.

Where the code and the behaviour it evidently aims at differ, the model follows the code:

- A second disbursement of one loan fails at the status guard with "Loan
  is not in APPROVED status". It never reaches the "already disbursed"
  check that was written for this case. `DisburseKeepsConsistent`
  shows that check can never fire.
- The plafond repository queries filter on `isActive` only, not on the
  soft-delete marker. A soft-deleted row is still excluded, because
  deletion also clears `isActive` (`DeletedNeverMatched`).
- `Plafond.java` as shown has no soft-delete fields, although
  `PlafondService` uses `isDeleted`, `deletedBy` and `softDelete()`. The
  model gives the plafond those fields, with the meaning the service
  gives them.
- `CreateUserRequest.java` as shown has no `phone` field, although
  `UserService` calls `req.getPhone()` (UserService.java:155, :201). The
  model gives the request an optional phone, copied onto the new user.
- `authenticate` does not reject an inactive user. The user tests expect
  it to, but the model follows the code.

## Model

| member | source | states |
|---|---|---|
| Plafonds.Validate | src/main/java/com/example/genggamin/dto/PlafondRequest.java:26-45 | No error exactly when the request is valid: income and amount positive, tenor in 1..360 months, rate in 0..100 %. Otherwise the error is a rule the request breaks, and no earlier rule is broken. |
| Plafonds.ValidateBoundaries | src/main/java/com/example/genggamin/dto/PlafondRequest.java:33-44 | The edge values: tenor 360 and rates 0 % and 100 % pass; tenor 0 or 361 and rates -0.5 % or 100.01 % fail, each with its own message. |
| Plafonds.FindAllSorted | src/main/java/com/example/genggamin/repository/PlafondRepository.java:21-22 | Every plafond exactly once (same multiset), in ascending order of minimum income. |
| Plafonds.FindAllActive | src/main/java/com/example/genggamin/repository/PlafondRepository.java:27-28 | Exactly the active plafonds, with their multiplicity, in ascending order of minimum income. |
| Plafonds.FindByIncomeRange | src/main/java/com/example/genggamin/repository/PlafondRepository.java:34-35 | Exactly the active plafonds whose minimum income is at most the given income, with their multiplicity, in ascending order of minimum income. |
| Plafonds.IncomeRangeMonotone | src/main/java/com/example/genggamin/repository/PlafondRepository.java:34-35 | A higher income matches every plafond a lower one matches (as sub-multiset). |
| Plafonds.DeletedNeverMatched | src/main/java/com/example/genggamin/repository/PlafondRepository.java:27-41 | In a well-formed catalog, no soft-deleted plafond is returned by the active, income or tenor query. |
| Plafonds.FindByTenor | src/main/java/com/example/genggamin/repository/PlafondRepository.java:40-41 | Exactly the active plafonds with the given tenor. |
| Plafonds.ExistsDuplicate | src/main/java/com/example/genggamin/repository/PlafondRepository.java:47-52 | True exactly when some plafond, deleted or not, has the same minimum income, maximum amount and tenor. |
| Plafonds.ExistsDuplicateExcluding | src/main/java/com/example/genggamin/repository/PlafondRepository.java:58-64 | The same, restricted to plafonds with a different id. |
| Plafonds.IndexOf | src/main/java/com/example/genggamin/service/PlafondService.java:217-219 | The position of a plafond with that id, deleted or not, or none exactly when no plafond has it. |
| Plafonds.IndexOfLive | src/main/java/com/example/genggamin/service/PlafondService.java:174-177 | The active-id lookup: a position holding that id and not deleted. When it finds nothing, every live row with that id comes after an earlier row with the same id. |
| Plafonds.LiveLookupExact | src/main/java/com/example/genggamin/service/PlafondService.java:174-177 | With unique ids, the active-id lookup fails exactly when every plafond with that id is soft-deleted. |
| Plafonds.CreatePlafond | src/main/java/com/example/genggamin/service/PlafondService.java:141-165 | A validation error first, then the duplicate-rule error. Succeeds exactly when the request is valid and no plafond has its income, amount and tenor. On success a new row is appended with the next id, the request's values, active unless the request says otherwise, and not deleted. The catalog stays well-formed. |
| Plafonds.DuplicateCreateFails | src/main/java/com/example/genggamin/service/PlafondService.java:145-150 | Creating a second plafond with the same income, amount and tenor right after a successful create fails with the duplicate error. |
| Plafonds.UpdatePlafond | src/main/java/com/example/genggamin/service/PlafondService.java:169-198 | A validation error, then not found (a missing or deleted id), then a duplicate among the other ids. Succeeds exactly when none of these occurs. On success only that row changes: its id and deletion markers are kept, the four rule fields come from the request, and the active flag changes only when the request carries one. |
| Plafonds.ToggleActiveStatus | src/main/java/com/example/genggamin/service/PlafondService.java:232-241 | Succeeds exactly when the id belongs to a live plafond; otherwise not found. On success only that row's active flag flips. |
| Plafonds.ToggleTwice | src/main/java/com/example/genggamin/service/PlafondService.java:232-241 | Toggling twice gives back the original catalog. |
| Plafonds.DeletePlafond | src/main/java/com/example/genggamin/service/PlafondService.java:202-211 | Succeeds exactly when the id belongs to a live plafond; otherwise not found. On success the row is marked deleted with actor and time and becomes inactive; nothing else changes. |
| Plafonds.RestorePlafond | src/main/java/com/example/genggamin/service/PlafondService.java:215-228 | Not found exactly when no row has the id; "not deleted" exactly when the row is live. On success the deletion markers are cleared and the row stays inactive. |
| Plafonds.RestoreUndoesDelete | src/main/java/com/example/genggamin/service/PlafondService.java:202-228 | Restoring right after a delete gives the original row back, except that it is now inactive. |
| Simulation.RateFactor | src/main/java/com/example/genggamin/service/PlafondService.java:121 | The annual rate divided by 100 at scale 8 is exact: a rate in hundredths of a percent becomes that rate times 10,000 at scale 8, with no rounding. |
| Simulation.YearsFactor | src/main/java/com/example/genggamin/service/PlafondService.java:121-123 | The tenor in years at scale 8, HALF_UP rounded: the closest value to tenor/12, rounding ties away from zero. |
| Simulation.TotalInterest | src/main/java/com/example/genggamin/service/PlafondService.java:121-124 | The principal times the rate factor times the years factor, HALF_UP rounded to cents. It is never negative for non-negative inputs, and zero when the rate, principal or tenor is zero. |
| Simulation.TotalPayment | src/main/java/com/example/genggamin/service/PlafondService.java:125 | Principal plus total interest; never below the principal. |
| Simulation.MonthlyInstallment | src/main/java/com/example/genggamin/service/PlafondService.java:126 | Undefined exactly for tenor 0 (division by zero). Otherwise the HALF_UP quotient, within half a cent of total / tenor. |
| Simulation.InstallmentWithinHalfCentPerMonth | src/main/java/com/example/genggamin/service/PlafondService.java:125-126 | Installment times tenor differs from the total payment by at most half a cent per month. |
| Simulation.InterestMonotoneInPrincipal | src/main/java/com/example/genggamin/service/PlafondService.java:121-125 | For a non-negative rate and tenor, a larger principal never gives less interest or a smaller total. |
| Simulation.WorkedExample | src/main/java/com/example/genggamin/service/PlafondService.java:121-126 | 10,000,000.00 at 1.50 % for 12 months: interest 150,000.00, total 10,150,000.00, installment 845,833.33. |
| Simulation.FirstMinRate | src/main/java/com/example/genggamin/service/PlafondService.java:93-100 | The first candidate with the lowest interest rate. |
| Simulation.Candidates | src/main/java/com/example/genggamin/service/PlafondService.java:93-98 | Exactly the active plafonds with the requested tenor and a maximum amount covering the requested amount. |
| Simulation.SelectPlafond | src/main/java/com/example/genggamin/service/PlafondService.java:80-100 | With an id: the live plafond with that id, or not found, or refused when the requested tenor exceeds its tenor. Without an id: "no suitable plafond" exactly when there are no candidates, and success exactly when there is one; the result is then a candidate with the lowest rate. |
| Simulation.SimulateLoan | src/main/java/com/example/genggamin/service/PlafondService.java:76-137 | Selection errors first, then an amount above the plafond's maximum. Division by zero happens exactly for tenor 0. Succeeds exactly when the selection succeeds, the amount is within its maximum and the tenor is not 0. On success the result carries the plafond's rate and id and the computed interest, total and installment. |
| Simulation.AutoSelectionCoversAmount | src/main/java/com/example/genggamin/service/PlafondService.java:93-109 | An automatically chosen plafond never fails the amount check; only tenor 0 can still fail. |
| Users.FindByUsername | src/main/java/com/example/genggamin/service/UserService.java:110-111 | Some user with that username, or none exactly when no user has it. |
| Users.FindById | src/main/java/com/example/genggamin/service/UserService.java:252-253 | Some user with that id, or none exactly when no user has it. |
| Users.FindByEmail | src/main/java/com/example/genggamin/service/PasswordResetService.java:51-57 | Some user with that e-mail, or none exactly when no user has it. |
| Users.AssignRoles | src/main/java/com/example/genggamin/service/UserService.java:158-172 | Requested roles: success exactly when all of them exist. No request: the CUSTOMER role, which is created when missing. |
| Users.CreateAccount | src/main/java/com/example/genggamin/service/UserService.java:139-183 | Missing credentials first, then a taken username, then a taken e-mail, then role errors. On success one user is appended with the next id, the encoded password and the given active flag. |
| Users.Register | src/main/java/com/example/genggamin/service/UserService.java:139-183 | A registered user is active, stores the encoded password, and has the CUSTOMER role when no role was asked for. |
| Users.CreateUserFromRequest | src/main/java/com/example/genggamin/service/UserService.java:185-224 | The admin path: the same account, active unless the request says false. |
| Users.CreationPathsAgree | src/main/java/com/example/genggamin/service/UserService.java:139-224 | Register and the admin path fail in the same cases with the same error, and otherwise build the same user apart from the active flag. |
| Users.CreateAccountKeepsUnique | src/main/java/com/example/genggamin/service/UserService.java:143-148 | Creating an account keeps usernames, e-mails, ids and role names unique. |
| Users.Authenticate | src/main/java/com/example/genggamin/service/UserService.java:106-118 | "User not found" exactly when the username is unknown; "wrong password" exactly when the encoder rejects the password. No other error occurs, and on success the result is the user with that username. |
| Users.RegisterThenAuthenticate | src/main/java/com/example/genggamin/service/UserService.java:106-183 | A freshly registered user can sign in with the password they registered with. |
| Users.GetUserById | src/main/java/com/example/genggamin/service/UserService.java:241-257 | The caller must exist; a caller asking for another user's id is refused. On success the result is the view of the user with that id. |
| Users.GetOwnUser | src/main/java/com/example/genggamin/service/UserService.java:241-257 | With unique ids, every caller can fetch their own record. |
| Customers.IndexOfUser | src/main/java/com/example/genggamin/service/CustomerService.java:44 | The position of a profile owned by the user, or none exactly when the user has no profile. |
| Customers.FindByNik | src/main/java/com/example/genggamin/service/CustomerService.java:114-115 | A profile with that NIK; a missing NIK matches nothing. |
| Customers.HasCustomerData | src/main/java/com/example/genggamin/service/CustomerService.java:109-111 | True exactly when the user owns a profile. |
| Customers.ValidateNikUniqueness | src/main/java/com/example/genggamin/service/CustomerService.java:113-123 | Refused exactly when another user's profile holds the NIK. |
| Customers.NikTakenUnique | src/main/java/com/example/genggamin/service/CustomerService.java:113-123 | With unique NIKs, the profile holding a NIK is the only one. |
| Customers.DocumentName | src/main/java/com/example/genggamin/service/CustomerService.java:147-148 | The stored name ends in `-`, the NIK, `_` and the document type. The part before that suffix holds no white space and is no longer than the full name. |
| Customers.DocumentNamesDistinct | src/main/java/com/example/genggamin/service/CustomerService.java:147-166 | The KTP, selfie and payslip file names of one customer always differ. |
| Customers.TwoWordName | src/main/java/com/example/genggamin/service/CustomerService.java:147-148 | A two-word name with any run of white space between the words is stored as `first_last-<nik>_<doc>`. |
| Customers.UploadOne | src/main/java/com/example/genggamin/service/CustomerService.java:150-167 | A present, non-empty file is stored under its name, and that path is kept. Otherwise the old path stays and nothing is stored. |
| Customers.HandleFileUploads | src/main/java/com/example/genggamin/service/CustomerService.java:140-168 | Fails, with the missing-name error, exactly when the user has no full name. Otherwise it succeeds, and each uploaded document gets its own path under its own name; the other fields are unchanged. |
| Customers.ContactsNotOf | src/main/java/com/example/genggamin/service/CustomerService.java:170-182 | Exactly the contacts of other customers. |
| Customers.UpdateEmergencyContact | src/main/java/com/example/genggamin/service/CustomerService.java:170-182 | No contact in the request leaves everything as it was. A null name fails its column, then a null phone. Succeeds exactly when neither column is null. Then the customer has exactly the one new contact under the next contact id, and other customers' contacts are kept. |
| Customers.SaveCustomer | src/main/java/com/example/genggamin/service/CustomerService.java:67 | A new profile is appended with the next id; an existing one is overwritten in place. |
| Customers.CreateOrUpdateCustomer | src/main/java/com/example/genggamin/service/CustomerService.java:32-72 | Errors in order: unknown user, then a new profile without both KTP and selfie, then a NIK taken by another user, then a missing full name, then a null NIK, then a null contact name or phone. Succeeds exactly when none of these occurs. |
| Customers.UpsertStoresRequest | src/main/java/com/example/genggamin/service/CustomerService.java:32-72 | After a successful upsert the profile holds the request's values, appended with the next id or overwritten in place under its old id. Each uploaded KTP, selfie or payslip is stored under its own document name and its path kept; in an existing profile a document not uploaded keeps its old path. There is one store call per uploaded document. A supplied contact becomes the customer's only contact under the next contact id, and other customers' contacts are kept; without one the contacts are unchanged. |
| Customers.UpsertGivesCustomerData | src/main/java/com/example/genggamin/service/CustomerService.java:32-72 | After a successful upsert the user has customer data, held by the returned profile; the number of profiles stays the same exactly when the user already had one. |
| Customers.UpsertKeepsUnique | src/main/java/com/example/genggamin/service/CustomerService.java:32-72 | A successful upsert keeps one profile per user and one profile per NIK. |
| Loans.ReviewDecision | src/main/java/com/example/genggamin/service/LoanService.java:235-243 | "APPROVE" (any case) gives UNDER_REVIEW with an APPROVED record, "REJECT" gives REJECTED, and anything else is refused. Both outcomes are legal changes from SUBMITTED. |
| Loans.ReviewDecisionSpellings | src/main/java/com/example/genggamin/service/LoanService.java:235-243 | The action is compared ignoring case only: "approve" and "Reject" are accepted, " APPROVE", "APPROVED" and a missing action are refused, and no action both approves and rejects. |
| Loans.ApprovalDecision | src/main/java/com/example/genggamin/service/LoanService.java:335-341 | Only an explicit `true` approves; false or missing rejects. Both are legal changes from UNDER_REVIEW. |
| Loans.FindLoan | src/main/java/com/example/genggamin/service/LoanService.java:218-219 | The loan with that id, or none exactly when there is none. |
| Loans.EligibleIff | src/main/java/com/example/genggamin/service/LoanService.java:92-102 | With unique plafond ids, a plafond is eligible for an income exactly when it is active and its minimum income is at most that income. |
| Loans.CheckPlafond | src/main/java/com/example/genggamin/service/LoanService.java:77-122 | The checks in source order: plafond id, existence, activity, income eligibility, amount present and within the maximum, tenure present and within the tenor. On success the plafond satisfies them all. |
| Loans.Applicant | src/main/java/com/example/genggamin/service/LoanService.java:63-74 | The profile of the signed-in user, or none exactly when the user or the profile is missing. |
| Loans.SubmitLoan | src/main/java/com/example/genggamin/service/LoanService.java:62-138 | User, then profile, then the plafond checks. On success exactly one SUBMITTED loan is added under the next id, with the plafond's interest rate frozen into it; the stage tables are untouched. |
| Loans.DeletedPlafondRejected | src/main/java/com/example/genggamin/service/LoanService.java:87-90 | Applying under a soft-deleted plafond stops at "not active". |
| Loans.SubmissionRules | src/main/java/com/example/genggamin/service/LoanService.java:77-122 | The plafond checks pass exactly when the plafond exists and is active, the income reaches its minimum, and the amount and tenure are present and within its limits. |
| Loans.BlankAccount | src/main/java/com/example/genggamin/service/LoanService.java:440-442 | A bank account is blank exactly when it is missing or every character is a control character or a space. |
| Loans.ReviewLoan | src/main/java/com/example/genggamin/service/LoanService.java:217-285 | Not found, then not SUBMITTED, then unknown officer, then an invalid action, then an existing review record. Succeeds exactly when none of these occurs. On success the loan moves along a legal change, its update time is set, and exactly one review record is written by that officer. |
| Loans.ApproveLoan | src/main/java/com/example/genggamin/service/LoanService.java:317-388 | Not found, then not UNDER_REVIEW, then unknown officer, then an existing approval record. Succeeds exactly when none of these occurs. On success the loan is APPROVED exactly when the request approves it, and exactly one approval record is written. |
| Loans.DisburseLoan | src/main/java/com/example/genggamin/service/LoanService.java:421-491 | Not found, not APPROVED, already disbursed, not a DISBURSE action, a blank bank account, unknown officer, in that order. Succeeds exactly when none of these occurs. On success the loan is DISBURSED and one COMPLETED record for the full amount is written. |
| LoanLifecycle.EmptyConsistent | src/main/java/com/example/genggamin/entity/LoanReview.java:11-22 | The empty store satisfies the workflow invariant. |
| LoanLifecycle.OthersUnaffected | src/main/java/com/example/genggamin/entity/LoanReview.java:22 | Changing one loan and its own stage records keeps the invariant for every other loan. |
| LoanLifecycle.SubmitKeepsConsistent | src/main/java/com/example/genggamin/service/LoanService.java:124-137 | Submission keeps the workflow invariant. |
| LoanLifecycle.ReviewKeepsConsistent | src/main/java/com/example/genggamin/service/LoanService.java:217-285 | Review keeps the invariant, and under it the unique `loan_id` of the review table never rejects the save. |
| LoanLifecycle.ApproveKeepsConsistent | src/main/java/com/example/genggamin/service/LoanService.java:317-388 | Approval keeps the invariant, and under it the approval table never rejects the save. |
| LoanLifecycle.DisburseKeepsConsistent | src/main/java/com/example/genggamin/service/LoanService.java:421-491 | Disbursement keeps the invariant, and under it the "already disbursed" error never occurs. |
| LoanLifecycle.TerminalIsFinal | src/main/java/com/example/genggamin/service/LoanService.java:221-223 | A REJECTED or DISBURSED loan refuses review, approval and disbursement with the status error. |
| LoanLifecycle.DisburseOnce | src/main/java/com/example/genggamin/service/LoanService.java:425-442 | After a disbursement, any second attempt fails with "not in APPROVED status", and the one COMPLETED record for the full amount stays. |
| LoanQueries.UsernameOf | src/main/java/com/example/genggamin/service/LoanService.java:153-155 | The officer's username when the user exists, and nothing otherwise. |
| LoanQueries.PopulateLoanDetails | src/main/java/com/example/genggamin/service/LoanService.java:144-182 | The loan's view carries the notes, times and officers of exactly the stage records that exist for it; missing stages leave their fields empty. |
| LoanQueries.LoansInStatus | src/main/java/com/example/genggamin/service/LoanService.java:206-214 | Exactly the loans in the given status, each with its details. |
| LoanQueries.LoansForReview | src/main/java/com/example/genggamin/service/LoanService.java:206-214 | Exactly the SUBMITTED loans. |
| LoanQueries.LoansForApproval | src/main/java/com/example/genggamin/service/LoanService.java:306-314 | Exactly the UNDER_REVIEW loans. |
| LoanQueries.LoansForDisbursement | src/main/java/com/example/genggamin/service/LoanService.java:410-418 | Exactly the APPROVED loans. |
| LoanQueries.QueuesDisjointAndDetailed | src/main/java/com/example/genggamin/service/LoanService.java:206-418 | Under the invariant the review queue shows no stage detail, the approval queue shows only the review, and the disbursement queue shows review and approval. |
| LoanQueries.QueueMember | src/main/java/com/example/genggamin/service/LoanService.java:144-182 | Every queue entry is the full view of a loan whose records match its status. |
| LoanQueries.GetMyLoans | src/main/java/com/example/genggamin/service/LoanService.java:185-203 | An unknown user and a missing profile are errors. Otherwise the result is exactly the signed-in customer's loans. |
| LoanQueries.SubmittedLoanIsMine | src/main/java/com/example/genggamin/service/LoanService.java:62-203 | A loan just submitted appears among the applicant's own loans. |
| LoanQueries.GetAllLoans | src/main/java/com/example/genggamin/service/LoanService.java:549-557 | Every loan, each with its details. |
| LoanQueries.GetReviewedLoans | src/main/java/com/example/genggamin/repository/LoanRepository.java:16-20 | Exactly the loans with a review record, each paired with it. |
| LoanQueries.GetApprovedLoansWithDetails | src/main/java/com/example/genggamin/repository/LoanRepository.java:22-26 | Exactly the loans with an approval record, each paired with it. |
| LoanQueries.ReportsFollowStatus | src/main/java/com/example/genggamin/service/LoanService.java:288-407 | Under the invariant a loan is in the reviewed report exactly when it has left SUBMITTED. It is in the approval report exactly when it is APPROVED or DISBURSED, or was REJECTED by the manager. |
| LoanQueries.GetLoanById | src/main/java/com/example/genggamin/service/LoanService.java:560-566 | Not found exactly when there is no such loan; otherwise its full view. |
| LoanQueries.DisbursedLoansWithDetails | src/main/java/com/example/genggamin/service/LoanService.java:493-547 | Exactly the stored DISBURSED loans that have a disbursement record, each with its disbursement record, and its approval record when there is one. |
| LoanQueries.DisbursedReportComplete | src/main/java/com/example/genggamin/service/LoanService.java:493-547 | Under the invariant every DISBURSED loan appears in the disbursement report. |
| Notifications.DetermineChannels | src/main/java/com/example/genggamin/service/NotificationService.java:104-157 | Every type goes in-app, without repeats. E-mail exactly for register, forgot password, approved, rejected and disbursed. Push exactly for approved, disbursed, new loan, ready for approval and ready for disbursement. |
| Notifications.InAppLastExceptRejection | src/main/java/com/example/genggamin/service/NotificationService.java:109-154 | In-app comes last in the channel list, except for a rejection, where it comes first; when both e-mail and push are sent, e-mail comes first and push second. Together with the membership facts this fixes the list of every event. |
| Notifications.GenerateTitle | src/main/java/com/example/genggamin/service/NotificationService.java:159-175 | A non-empty headline for each event; it ends in `!` exactly for the welcome and loan-approved notices. |
| Notifications.TitleIdentifiesEvent | src/main/java/com/example/genggamin/service/NotificationService.java:159-175 | Two events have the same headline exactly when they are the same event. |
| Notifications.BaseMessage | src/main/java/com/example/genggamin/service/NotificationService.java:179-197 | Every message text ends in a full stop. |
| Notifications.GenerateMessage | src/main/java/com/example/genggamin/service/NotificationService.java:177-198 | The message starts with the event's sentence, and is longer than it exactly when a loan event is given a loan. |
| Notifications.MessageCarriesLoanId | src/main/java/com/example/genggamin/service/NotificationService.java:177-198 | A loan event with a loan id ends in `(ID: n)`, and the id can be read back from the digits. Account events give the bare text. |
| Notifications.Deliveries | src/main/java/com/example/genggamin/service/NotificationService.java:62-85 | An e-mail exactly when the channels include e-mail. A push exactly when they include push and the user has a device token. Each delivery carries the notification's title and message. |
| Notifications.SendNotification | src/main/java/com/example/genggamin/service/NotificationService.java:62-101 | A missing user sends nothing. Otherwise one unread in-app row is stored with the next id, title and message, plus the e-mail and push deliveries above. |
| Notifications.CountUnread | src/main/java/com/example/genggamin/service/NotificationService.java:234-237 | Zero exactly when the user has no unread notification. |
| Notifications.MarkAsRead | src/main/java/com/example/genggamin/service/NotificationService.java:211-223 | Not found exactly when no row has the id; another user's row is refused. On success that row alone becomes read. |
| Notifications.MarkAsReadCountsDown | src/main/java/com/example/genggamin/service/NotificationService.java:211-237 | Marking one unread row read lowers the user's unread count by one. |
| Notifications.MarkAllAsRead | src/main/java/com/example/genggamin/service/NotificationService.java:226-232 | Afterwards the user has no unread row; other users' rows and every field except the read flag are unchanged. |
| Notifications.MarkAllThenCount | src/main/java/com/example/genggamin/service/NotificationService.java:226-237 | After marking all read, the user's count is zero and every other user's count is unchanged. |
| Notifications.CountOthersUnchanged | src/main/java/com/example/genggamin/service/NotificationService.java:234-237 | Changes confined to one user's rows leave another user's unread count unchanged. |
| Notifications.SendCountsUp | src/main/java/com/example/genggamin/service/NotificationService.java:87-101 | Sending to a user raises that user's unread count by one. |
| Notifications.CountAppend | src/main/java/com/example/genggamin/service/NotificationService.java:234-237 | Appending a row adds one to the count exactly when the row is unread and the user's. |
| Notifications.SendKeepsUnique | src/main/java/com/example/genggamin/service/NotificationService.java:87-101 | Sending keeps notification ids unique. |
| PasswordReset.FindByToken | src/main/java/com/example/genggamin/repository/PasswordResetTokenRepository.java:17 | A row with that token, or none exactly when no row has it. |
| PasswordReset.FindUnique | src/main/java/com/example/genggamin/entity/PasswordResetToken.java:27-28 | With unique tokens, looking up a row's token finds that row. |
| PasswordReset.InvalidateAllUserTokens | src/main/java/com/example/genggamin/repository/PasswordResetTokenRepository.java:30-32 | All of the user's tokens become used; other users' rows and every other field are unchanged. |
| PasswordReset.IssueToken | src/main/java/com/example/genggamin/service/PasswordResetService.java:65-77 | Old tokens are retired and one unused token is appended, expiring one hour after `now`; it is then the user's only unused token. |
| PasswordReset.ProcessForgotPassword | src/main/java/com/example/genggamin/service/PasswordResetService.java:49-101 | Unregistered e-mail, then an inactive user, then a colliding token. On success the token is the UUID, the e-mail is addressed to the user, and a forgot-password notification is sent. |
| PasswordReset.ForgotThenValidate | src/main/java/com/example/genggamin/service/PasswordResetService.java:49-152 | After a request, the new token validates exactly until its hour is up, and the user's earlier tokens never validate again. |
| PasswordReset.IssueThenValidate | src/main/java/com/example/genggamin/service/PasswordResetService.java:65-77 | Issuing keeps tokens unique, and the new token validates up to and including its expiry instant and not after; earlier tokens are dead. |
| PasswordReset.IssueKeepsUnique | src/main/java/com/example/genggamin/entity/PasswordResetToken.java:27-28 | Retiring and appending a fresh token keeps tokens and ids unique. |
| PasswordReset.SetPassword | src/main/java/com/example/genggamin/service/PasswordResetService.java:133-135 | Only the token owner's password hash changes. |
| PasswordReset.ResetPassword | src/main/java/com/example/genggamin/service/PasswordResetService.java:110-142 | Too short (fewer than six UTF-16 units, or null), then unknown token, then used, then expired. Success exactly when the password is long enough and the token is valid. On success the owner gets the encoded password and the token becomes used. |
| PasswordReset.ValidateToken | src/main/java/com/example/genggamin/service/PasswordResetService.java:150-152 | True exactly when the token's row is found and is neither used nor expired. |
| PasswordReset.ValidateAgreesWithReset | src/main/java/com/example/genggamin/service/PasswordResetService.java:110-152 | For a long enough password, a reset succeeds exactly when the token validates. |
| PasswordReset.ResetIsOneTime | src/main/java/com/example/genggamin/service/PasswordResetService.java:123-139 | A token that was used once is refused as used on every later attempt. |
| PasswordReset.ResetThenAuthenticate | src/main/java/com/example/genggamin/service/PasswordResetService.java:133-135 | After a reset, the owner signs in with the new password. |
| PasswordReset.CleanupExpiredTokens | src/main/java/com/example/genggamin/repository/PasswordResetTokenRepository.java:24-27 | Exactly the rows that are neither used nor expired stay. |
| PasswordReset.CleanupPreservesValidity | src/main/java/com/example/genggamin/service/PasswordResetService.java:158-164 | Cleanup keeps tokens unique and changes no token's validity. |
| PasswordReset.SupplementaryCharsCountTwice | src/main/java/com/example/genggamin/service/PasswordResetService.java:112 | The length rule counts UTF-16 units: three emoji are long enough, two are not, and a password within the Basic Multilingual Plane needs six characters. |
| Text.Utf16Length | src/main/java/com/example/genggamin/service/PasswordResetService.java:112 | `String.length()`: at least the character count and at most twice it, and equal to it exactly when no character lies outside the Basic Multilingual Plane. |
| Text.Utf16LengthAppend | src/main/java/com/example/genggamin/service/PasswordResetService.java:112 | The length of a concatenation is the sum of the lengths. |
| Text.Trim | src/main/java/com/example/genggamin/service/LoanService.java:440-442 | `String.trim()`: never longer than its input, neither starts nor ends with a control character or space, and leaves a string without any such character unchanged. |
| Text.CollapseSpaces | src/main/java/com/example/genggamin/service/CustomerService.java:147 | `replaceAll("\\s+", "_")`: never longer than its input. |
| Text.CollapseHasNoSpaces | src/main/java/com/example/genggamin/service/CustomerService.java:147 | The result of the replacement contains no white space. |
| Text.CollapseIdentity | src/main/java/com/example/genggamin/service/CustomerService.java:147 | A string without white space is left unchanged. |
| Text.TrimBlankIff | src/main/java/com/example/genggamin/service/LoanService.java:440-442 | A string trims to empty exactly when all its characters are control characters or spaces. |
| Text.NatToStringRoundTrip | src/main/java/com/example/genggamin/service/NotificationService.java:179-197 | The decimal text of an id is all digits and reads back as the id. |
| FixedPoint.DivHalfUp | src/main/java/com/example/genggamin/service/PlafondService.java:121-126 | The HALF_UP quotient: within half a unit of the exact quotient, with ties away from zero. |
| FixedPoint.DivHalfUpExact | src/main/java/com/example/genggamin/service/PlafondService.java:121-126 | Dividing an exact multiple gives the factor back. |
| FixedPoint.DivHalfUpMonotone | src/main/java/com/example/genggamin/service/PlafondService.java:121-125 | HALF_UP division by a positive divisor is monotone in the dividend. |
| Seqs.SortBy | src/main/java/com/example/genggamin/repository/PlafondRepository.java:21-35 | The stable ascending sort of the query results: sorted by key and a permutation of its input. |

## Left out

- Caching (`@Cacheable`, `@CacheEvict`) is left out. The plafond caches are cleared by every plafond write (create, update, delete, restore, toggle). The `users` and `userByUsername` caches are cleared when a user is created; they serve only the getters left out below. The `userById` cache is never cleared and does change behaviour; see the `Users.GetUserById` line.
- The plafond getters `getAllPlafonds` and `getPlafondsByIncome` are left out as members of their own. They return the repository queries modelled above, mapped to responses.
- `getActivePlafonds` and `getPlafondById` are left out. They call `findAllActiveAndNotDeleted` and `findByIdActive`, which `PlafondRepository` does not declare. `Plafonds.IndexOfLive` stands in for the active-id lookup.
- The response DTO mapping is left out. Views keep the entity fields.
- `UserService.createUser`, `getAllUsers`, `findByUsername` (the cached DTO) and `getUserIdByUsername` are left out. They are plain repository pass-throughs.
- `CustomerService.getCustomerByUserId` and `getCustomerById` are left out. They are lookups with response mapping; `Customers.IndexOfUser` covers the lookup.
- `User.java`, `UserRepository.java` and the role entity are not part of this model. User fields are taken from the service code. The user's push token is a field of `Notifications.Recipient`.
- All e-mails are left out: the loan e-mails, the reset e-mail and the e-mail channel. The model records which deliveries would be made, not the sending. Failures of e-mail and push are caught and logged by the source, so they never change a result.
- Firebase push delivery is left out beyond the decision to push.
- File storage is left out beyond the calls made. A file already written before a later save fails is not undone, and the model does not show that.
- Concurrency and transaction isolation are left out.
- Stage record ids and `createdAt` columns are left out. Records are keyed by loan id.
- The ordering of the loan reports is left out: `updatedAt DESC`, and the orders of `findAllReviewedLoans` and `findAllApprovedLoans`. The reports are modelled as sets.
- `PasswordResetTokenRepository.findValidTokenByUser` is left out, because no service calls it.
- The customer-limit stored procedure and `CustomerLimit` are left out, because no core operation calls them.
- LoanQueries.GetMyLoans: returns the customer's loans as a set. `findByCustomerId` has no ORDER BY, so the source returns them in the repository's unspecified order; the model does not fix one.
- Users.GetUserById: `getUserById` is cached by user id (`@Cacheable`, UserService.java:240). Once a view is cached, a later call for the same id returns it without running the caller lookup or the ownership check. The model always runs both checks, so it refuses calls that the cached source would answer.
- Simulation.TotalPayment: amounts finer than a cent are not modelled. The request's `amount` is only checked to be at least 1.0 (LoanSimulationRequest.java:16-17), so it may carry more decimals; the source then rounds principal plus interest HALF_UP to cents (PlafondService.java:124-125), while the model takes the amount in whole cents and adds exactly.
- Users.Authenticate: the matching of the password encoder is a function parameter. BCrypt itself is left out.
