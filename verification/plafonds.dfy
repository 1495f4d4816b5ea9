/** The plafond catalog: lending-rule rows, the request validation that
    guards them, the repository queries over them, and the administrative
    operations (create, update, toggle, soft delete, restore).

    Units: `minIncome` and `maxAmount` are in cents (the columns have
    scale 2); `interestRate` is an annual percentage in hundredths of a
    percent (scale 2), so `150` is 1.5% and `10000` is 100%. */
module Plafonds {
  import opened Wrappers
  import Seqs

  datatype Plafond = Plafond(
    id: nat,
    minIncome: int,
    maxAmount: int,
    tenorMonth: int,
    interestRate: int,
    isActive: bool,
    isDeleted: bool,
    deletedBy: Option<string>,
    deletedAt: Option<int>)

  /** The `plafonds` table, in insertion order, with the next identity value. */
  datatype Catalog = Catalog(rows: seq<Plafond>, nextId: nat)

  /** A row's delete markers agree with its flag, and a deleted row is
      never active. */
  predicate RowInvariant(p: Plafond) {
    && (p.isDeleted ==> !p.isActive)
    && (!p.isDeleted ==> p.deletedBy.None? && p.deletedAt.None?)
  }

  ghost predicate WellFormed(c: Catalog) {
    && (forall i, j :: 0 <= i < j < |c.rows| ==> c.rows[i].id != c.rows[j].id)
    && (forall i :: 0 <= i < |c.rows| ==> c.rows[i].id < c.nextId)
    && (forall i :: 0 <= i < |c.rows| ==> RowInvariant(c.rows[i]))
  }

  // ---------------------------------------------------------------------
  // PlafondRequest.validate()
  // ---------------------------------------------------------------------

  /** Create/update payload; `None` is a JSON null or a missing field. */
  datatype PlafondRequest = PlafondRequest(
    minIncome: Option<int>,
    maxAmount: Option<int>,
    tenorMonth: Option<int>,
    interestRate: Option<int>,
    isActive: Option<bool>)

  datatype ValidationError =
    | MinIncomeNotPositive
    | MaxAmountNotPositive
    | TenorNotPositive
    | TenorTooLong
    | RateNegative
    | RateAbove100
  {
    function Message(): string {
      match this
      case MinIncomeNotPositive => "Min income must be greater than 0"
      case MaxAmountNotPositive => "Max amount must be greater than 0"
      case TenorNotPositive => "Tenor month must be greater than 0"
      case TenorTooLong => "Tenor month cannot exceed 360 months (30 years)"
      case RateNegative => "Interest rate must be 0 or greater"
      case RateAbove100 => "Interest rate cannot exceed 100%"
    }

    /** Position of the check in `validate()`. */
    function Rank(): nat {
      match this
      case MinIncomeNotPositive => 0
      case MaxAmountNotPositive => 1
      case TenorNotPositive => 2
      case TenorTooLong => 3
      case RateNegative => 4
      case RateAbove100 => 5
    }
  }

  const MaxTenorMonths := 360
  /** 100% in hundredths of a percent. */
  const MaxInterestRate := 10000

  /** The business rules a stored rule row satisfies. */
  predicate ValidRequest(req: PlafondRequest) {
    && req.minIncome.Some? && req.minIncome.value > 0
    && req.maxAmount.Some? && req.maxAmount.value > 0
    && req.tenorMonth.Some? && 1 <= req.tenorMonth.value <= MaxTenorMonths
    && req.interestRate.Some? && 0 <= req.interestRate.value <= MaxInterestRate
  }

  /** The condition each check of `validate()` rejects, taken on its own. */
  predicate Violates(req: PlafondRequest, e: ValidationError) {
    match e
    case MinIncomeNotPositive => !(req.minIncome.Some? && req.minIncome.value > 0)
    case MaxAmountNotPositive => !(req.maxAmount.Some? && req.maxAmount.value > 0)
    case TenorNotPositive => !(req.tenorMonth.Some? && req.tenorMonth.value > 0)
    case TenorTooLong => req.tenorMonth.Some? && req.tenorMonth.value > MaxTenorMonths
    case RateNegative => !(req.interestRate.Some? && req.interestRate.value >= 0)
    case RateAbove100 => req.interestRate.Some? && req.interestRate.value > MaxInterestRate
  }

  /** `validate()`: `None` when it returns normally, otherwise the
      exception it throws. The reported error is the first violated rule
      in field order, and validation passes exactly for valid requests. */
  function Validate(req: PlafondRequest): (r: Option<ValidationError>)
    ensures r.None? <==> ValidRequest(req)
    ensures r.None? <==> forall e: ValidationError :: !Violates(req, e)
    ensures r.Some? ==> Violates(req, r.value)
    ensures r.Some? ==> forall e: ValidationError :: e.Rank() < r.value.Rank() ==> !Violates(req, e)
  {
    var r :=
      if !(req.minIncome.Some? && req.minIncome.value > 0) then Some(MinIncomeNotPositive)
      else if !(req.maxAmount.Some? && req.maxAmount.value > 0) then Some(MaxAmountNotPositive)
      else if !(req.tenorMonth.Some? && req.tenorMonth.value > 0) then Some(TenorNotPositive)
      else if req.tenorMonth.value > MaxTenorMonths then Some(TenorTooLong)
      else if !(req.interestRate.Some? && req.interestRate.value >= 0) then Some(RateNegative)
      else if req.interestRate.value > MaxInterestRate then Some(RateAbove100)
      else None;
    assert r.Some? ==> Violates(req, r.value);
    r
  }

  /** The boundary values: a tenor of 360 months and rates of 0% and 100%
      pass; a tenor of 0 or 361, and rates of -0.5% and 100.01% fail. */
  lemma ValidateBoundaries(minIncome: int, maxAmount: int)
    requires minIncome > 0 && maxAmount > 0
    ensures Validate(PlafondRequest(Some(minIncome), Some(maxAmount), Some(360), Some(500), None)).None?
    ensures Validate(PlafondRequest(Some(minIncome), Some(maxAmount), Some(0), Some(500), None)) == Some(TenorNotPositive)
    ensures Validate(PlafondRequest(Some(minIncome), Some(maxAmount), Some(361), Some(500), None)) == Some(TenorTooLong)
    ensures Validate(PlafondRequest(Some(minIncome), Some(maxAmount), Some(12), Some(0), None)).None?
    ensures Validate(PlafondRequest(Some(minIncome), Some(maxAmount), Some(12), Some(10000), None)).None?
    ensures Validate(PlafondRequest(Some(minIncome), Some(maxAmount), Some(12), Some(-50), None)) == Some(RateNegative)
    ensures Validate(PlafondRequest(Some(minIncome), Some(maxAmount), Some(12), Some(10001), None)) == Some(RateAbove100)
  {
  }

  // ---------------------------------------------------------------------
  // PlafondRepository queries
  // ---------------------------------------------------------------------

  function MinIncomeKey(p: Plafond): int {
    p.minIncome
  }

  predicate IsActive(p: Plafond) {
    p.isActive
  }

  /** `findAllSorted`: every row, ascending by `minIncome`. */
  function FindAllSorted(c: Catalog): (r: seq<Plafond>)
    ensures Seqs.SortedBy(r, MinIncomeKey)
    ensures multiset(r) == multiset(c.rows)
  {
    Seqs.SortBy(c.rows, MinIncomeKey)
  }

  /** `findAllActive`: the active rows, ascending by `minIncome`. */
  function FindAllActive(c: Catalog): (r: seq<Plafond>)
    ensures Seqs.SortedBy(r, MinIncomeKey)
    ensures forall p :: p in r <==> p in c.rows && p.isActive
    ensures forall p :: multiset(r)[p] == if p.isActive then multiset(c.rows)[p] else 0
  {
    Seqs.SortBy(Seqs.Filter(c.rows, IsActive), MinIncomeKey)
  }

  /** `findByIncomeRange(income)`: the active rows whose minimum income is
      at most `income`, ascending by `minIncome`. */
  function FindByIncomeRange(c: Catalog, income: int): (r: seq<Plafond>)
    ensures Seqs.SortedBy(r, MinIncomeKey)
    ensures forall p :: p in r <==> p in c.rows && p.isActive && p.minIncome <= income
    ensures forall p :: multiset(r)[p] == if p.isActive && p.minIncome <= income then multiset(c.rows)[p] else 0
  {
    Seqs.SortBy(Seqs.Filter(c.rows, (p: Plafond) => p.isActive && p.minIncome <= income), MinIncomeKey)
  }

  /** A higher income is eligible for every plafond a lower one is. */
  lemma IncomeRangeMonotone(c: Catalog, i: int, j: int)
    requires i <= j
    ensures forall p :: p in FindByIncomeRange(c, i) ==> p in FindByIncomeRange(c, j)
    ensures multiset(FindByIncomeRange(c, i)) <= multiset(FindByIncomeRange(c, j))
  {
    var a := FindByIncomeRange(c, i);
    var b := FindByIncomeRange(c, j);
    assert forall p :: multiset(a)[p] <= multiset(b)[p];
  }

  /** The matching queries test only `isActive`; in a well-formed catalog
      that already excludes every soft-deleted row. */
  lemma DeletedNeverMatched(c: Catalog, income: int, tenor: int, p: Plafond)
    requires WellFormed(c)
    requires p in FindByIncomeRange(c, income) || p in FindByTenor(c, tenor) || p in FindAllActive(c)
    ensures !p.isDeleted
  {
    var k :| 0 <= k < |c.rows| && c.rows[k] == p;
    assert RowInvariant(c.rows[k]);
  }

  /** `findByTenor(tenor)`: the active rows with exactly that tenor, in
      table order (the query has no ORDER BY). */
  function FindByTenor(c: Catalog, tenor: int): (r: seq<Plafond>)
    ensures forall p :: p in r <==> p in c.rows && p.isActive && p.tenorMonth == tenor
    ensures forall i :: 0 <= i < |r| ==> r[i].isActive && r[i].tenorMonth == tenor
  {
    Seqs.Filter(c.rows, (p: Plafond) => p.isActive && p.tenorMonth == tenor)
  }

  predicate SameRule(p: Plafond, minIncome: int, maxAmount: int, tenor: int) {
    p.minIncome == minIncome && p.maxAmount == maxAmount && p.tenorMonth == tenor
  }

  /** `existsByMinIncomeAndMaxAmountAndTenor`: some row, active, inactive
      or deleted, has the same rule triple. */
  function ExistsDuplicate(c: Catalog, minIncome: int, maxAmount: int, tenor: int): (b: bool)
    ensures b <==> exists p :: p in c.rows && SameRule(p, minIncome, maxAmount, tenor)
  {
    Seqs.FindFirst(c.rows, (p: Plafond) => SameRule(p, minIncome, maxAmount, tenor)).Some?
  }

  /** `existsByMinIncomeAndMaxAmountAndTenorAndIdNot`: as above, ignoring
      the row with identity `id`. */
  function ExistsDuplicateExcluding(c: Catalog, minIncome: int, maxAmount: int, tenor: int, id: int): (b: bool)
    ensures b <==> exists p :: p in c.rows && p.id != id && SameRule(p, minIncome, maxAmount, tenor)
  {
    Seqs.FindFirst(c.rows, (p: Plafond) => p.id != id && SameRule(p, minIncome, maxAmount, tenor)).Some?
  }

  /** Position of the row with identity `id` (`findById`). */
  function IndexOf(c: Catalog, id: int): (r: Option<nat>)
    ensures r.Some? ==> r.value < |c.rows| && c.rows[r.value].id == id
    ensures r.None? <==> forall p :: p in c.rows ==> p.id != id
  {
    Seqs.FindFirst(c.rows, (p: Plafond) => p.id == id)
  }

  /** `findByIdActive`: the row with that identity unless it is soft-deleted. */
  function IndexOfLive(c: Catalog, id: int): (r: Option<nat>)
    ensures r.Some? ==> r.value < |c.rows| && c.rows[r.value].id == id && !c.rows[r.value].isDeleted
    ensures r.None? ==> forall k :: 0 <= k < |c.rows| && c.rows[k].id == id && !c.rows[k].isDeleted ==>
      exists j :: 0 <= j < k && c.rows[j].id == id
  {
    match IndexOf(c, id)
    case None => None
    case Some(k) => if c.rows[k].isDeleted then None else Some(k)
  }

  /** In a catalog with unique identities, `findByIdActive` finds exactly
      the live row with that identity. */
  lemma LiveLookupExact(c: Catalog, id: int)
    requires WellFormed(c)
    ensures IndexOfLive(c, id).None? <==> forall p :: p in c.rows && p.id == id ==> p.isDeleted
  {
    if IndexOfLive(c, id).None? {
      forall p | p in c.rows && p.id == id
        ensures p.isDeleted
      {
        var k :| 0 <= k < |c.rows| && c.rows[k] == p;
      }
    }
  }

  // ---------------------------------------------------------------------
  // PlafondService administrative operations
  // ---------------------------------------------------------------------

  datatype PlafondError =
    | Invalid(reason: ValidationError)
    | NotFound(id: int)
    | DuplicateRule
    | NotDeleted

  function ErrorMessage(e: PlafondError): string {
    match e
    case Invalid(v) => v.Message()
    case NotFound(_) => "Plafond not found with id"
    case DuplicateRule => "Plafond with same min income, max amount, and tenor already exists"
    case NotDeleted => "Plafond is not deleted"
  }

  /** The catalog with row `k` replaced. */
  function SetRow(c: Catalog, k: nat, p: Plafond): (r: Catalog)
    requires k < |c.rows|
    ensures |r.rows| == |c.rows| && r.rows[k] == p && r.nextId == c.nextId
    ensures forall j :: 0 <= j < |c.rows| && j != k ==> r.rows[j] == c.rows[j]
  {
    c.(rows := c.rows[k := p])
  }

  /** Replacing a row by one with the same identity that keeps the row
      invariant keeps the catalog well formed. */
  lemma SetRowWellFormed(c: Catalog, k: nat, p: Plafond)
    requires WellFormed(c) && k < |c.rows|
    requires p.id == c.rows[k].id && RowInvariant(p)
    ensures WellFormed(SetRow(c, k, p))
  {
  }

  /** `createPlafond`: validate, then reject a duplicate rule triple
      whatever its rate or state, then append a live row under the next
      identity, active unless the request says otherwise. */
  function CreatePlafond(c: Catalog, req: PlafondRequest): (r: Result<(Catalog, Plafond), PlafondError>)
    ensures Validate(req).Some? ==> r == Err(Invalid(Validate(req).value))
    ensures ValidRequest(req) && ExistsDuplicate(c, req.minIncome.value, req.maxAmount.value, req.tenorMonth.value)
      ==> r == Err(DuplicateRule)
    ensures r.Ok? <==> ValidRequest(req) && !ExistsDuplicate(c, req.minIncome.value, req.maxAmount.value, req.tenorMonth.value)
    ensures r.Ok? ==> var (c', p) := r.value;
      && c'.rows == c.rows + [p]
      && c'.nextId == c.nextId + 1
      && p.id == c.nextId
      && SameRule(p, req.minIncome.value, req.maxAmount.value, req.tenorMonth.value)
      && p.interestRate == req.interestRate.value
      && p.isActive == req.isActive.GetOr(true)
      && !p.isDeleted && RowInvariant(p)
    ensures WellFormed(c) && r.Ok? ==> WellFormed(r.value.0)
  {
    match Validate(req)
    case Some(e) => Err(Invalid(e))
    case None =>
      if ExistsDuplicate(c, req.minIncome.value, req.maxAmount.value, req.tenorMonth.value) then Err(DuplicateRule)
      else
        var p := Plafond(c.nextId, req.minIncome.value, req.maxAmount.value, req.tenorMonth.value,
                         req.interestRate.value, req.isActive.GetOr(true), false, None, None);
        Ok((Catalog(c.rows + [p], c.nextId + 1), p))
  }

  /** After a create, the same rule triple can never be created again,
      whatever rate or state the second request asks for. */
  lemma DuplicateCreateFails(c: Catalog, req: PlafondRequest, req2: PlafondRequest)
    requires CreatePlafond(c, req).Ok?
    requires ValidRequest(req2)
    requires req2.minIncome == req.minIncome && req2.maxAmount == req.maxAmount && req2.tenorMonth == req.tenorMonth
    ensures CreatePlafond(CreatePlafond(c, req).value.0, req2) == Err(DuplicateRule)
  {
    var (c', p) := CreatePlafond(c, req).value;
    assert p in c'.rows;
  }

  /** `updatePlafond`: validate before the lookup, find the live row,
      reject a duplicate held by another row, then overwrite the four rule
      fields, and `isActive` only when the request carries one. */
  function UpdatePlafond(c: Catalog, id: int, req: PlafondRequest): (r: Result<(Catalog, Plafond), PlafondError>)
    ensures Validate(req).Some? ==> r == Err(Invalid(Validate(req).value))
    ensures ValidRequest(req) && IndexOfLive(c, id).None? ==> r == Err(NotFound(id))
    ensures ValidRequest(req) && IndexOfLive(c, id).Some?
      && ExistsDuplicateExcluding(c, req.minIncome.value, req.maxAmount.value, req.tenorMonth.value, id)
      ==> r == Err(DuplicateRule)
    ensures r.Ok? <==>
      && ValidRequest(req) && IndexOfLive(c, id).Some?
      && !ExistsDuplicateExcluding(c, req.minIncome.value, req.maxAmount.value, req.tenorMonth.value, id)
    ensures r.Ok? ==> var (c', p) := r.value; var k := IndexOfLive(c, id).value; var old_ := c.rows[k];
      && c' == SetRow(c, k, p)
      && p.id == old_.id
      && SameRule(p, req.minIncome.value, req.maxAmount.value, req.tenorMonth.value)
      && p.interestRate == req.interestRate.value
      && p.isActive == req.isActive.GetOr(old_.isActive)
      && p.isDeleted == old_.isDeleted && p.deletedBy == old_.deletedBy && p.deletedAt == old_.deletedAt
    ensures WellFormed(c) && r.Ok? ==> WellFormed(r.value.0)
  {
    match Validate(req)
    case Some(e) => Err(Invalid(e))
    case None =>
      match IndexOfLive(c, id)
      case None => Err(NotFound(id))
      case Some(k) =>
        if ExistsDuplicateExcluding(c, req.minIncome.value, req.maxAmount.value, req.tenorMonth.value, id) then
          Err(DuplicateRule)
        else
          var old_ := c.rows[k];
          var p := old_.(minIncome := req.minIncome.value, maxAmount := req.maxAmount.value,
                         tenorMonth := req.tenorMonth.value, interestRate := req.interestRate.value,
                         isActive := req.isActive.GetOr(old_.isActive));
          Ok((SetRow(c, k, p), p))
  }

  /** `toggleActiveStatus`: flips `isActive` of the live row and nothing else. */
  function ToggleActiveStatus(c: Catalog, id: int): (r: Result<(Catalog, Plafond), PlafondError>)
    ensures IndexOfLive(c, id).None? <==> r == Err(NotFound(id))
    ensures r.Ok? <==> IndexOfLive(c, id).Some?
    ensures r.Ok? ==> var (c', p) := r.value; var k := IndexOfLive(c, id).value;
      && c' == SetRow(c, k, p)
      && p == c.rows[k].(isActive := !c.rows[k].isActive)
    ensures WellFormed(c) && r.Ok? ==> WellFormed(r.value.0)
  {
    match IndexOfLive(c, id)
    case None => Err(NotFound(id))
    case Some(k) =>
      var p := c.rows[k].(isActive := !c.rows[k].isActive);
      Ok((SetRow(c, k, p), p))
  }

  /** Toggling the same plafond twice gives back the original catalog. */
  lemma ToggleTwice(c: Catalog, id: int)
    requires ToggleActiveStatus(c, id).Ok?
    ensures ToggleActiveStatus(ToggleActiveStatus(c, id).value.0, id).Ok?
    ensures ToggleActiveStatus(ToggleActiveStatus(c, id).value.0, id).value.0 == c
  {
    var k := IndexOfLive(c, id).value;
    var c1 := ToggleActiveStatus(c, id).value.0;
    assert IndexOf(c1, id) == IndexOf(c, id) by {
      assert forall j :: 0 <= j < |c.rows| ==> c1.rows[j].id == c.rows[j].id;
      SameIdsSameIndex(c, c1, id);
    }
    assert c1.rows[k := c.rows[k]] == c.rows;
  }

  /** Lookups by identity only look at identities. */
  lemma SameIdsSameIndex(c: Catalog, d: Catalog, id: int)
    requires |c.rows| == |d.rows|
    requires forall j :: 0 <= j < |c.rows| ==> c.rows[j].id == d.rows[j].id
    ensures IndexOf(c, id) == IndexOf(d, id)
  {
  }

  /** `deletePlafond`: soft delete of the live row, recording who and when
      and forcing it inactive. */
  function DeletePlafond(c: Catalog, id: int, deletedBy: Option<string>, now: int): (r: Result<Catalog, PlafondError>)
    ensures IndexOfLive(c, id).None? <==> r == Err(NotFound(id))
    ensures r.Ok? <==> IndexOfLive(c, id).Some?
    ensures r.Ok? ==> var k := IndexOfLive(c, id).value;
      && r.value == SetRow(c, k, c.rows[k].(isDeleted := true, isActive := false,
                                            deletedBy := deletedBy, deletedAt := Some(now)))
    ensures WellFormed(c) && r.Ok? ==> WellFormed(r.value)
  {
    match IndexOfLive(c, id)
    case None => Err(NotFound(id))
    case Some(k) =>
      var p := c.rows[k].(isDeleted := true, isActive := false, deletedBy := deletedBy, deletedAt := Some(now));
      Ok(SetRow(c, k, p))
  }

  /** `restorePlafond`: the row is looked up whether or not it is deleted;
      a live row is refused, a deleted one loses its delete markers and
      stays inactive. */
  function RestorePlafond(c: Catalog, id: int): (r: Result<(Catalog, Plafond), PlafondError>)
    ensures IndexOf(c, id).None? <==> r == Err(NotFound(id))
    ensures IndexOf(c, id).Some? && !c.rows[IndexOf(c, id).value].isDeleted <==> r == Err(NotDeleted)
    ensures r.Ok? <==> IndexOf(c, id).Some? && c.rows[IndexOf(c, id).value].isDeleted
    ensures r.Ok? ==> var (c', p) := r.value; var k := IndexOf(c, id).value;
      && c.rows[k].isDeleted
      && c' == SetRow(c, k, p)
      && p == c.rows[k].(isDeleted := false, deletedBy := None, deletedAt := None)
    ensures WellFormed(c) && r.Ok? ==> WellFormed(r.value.0) && !r.value.1.isActive
  {
    match IndexOf(c, id)
    case None => Err(NotFound(id))
    case Some(k) =>
      if !c.rows[k].isDeleted then Err(NotDeleted)
      else
        var p := c.rows[k].(isDeleted := false, deletedBy := None, deletedAt := None);
        Ok((SetRow(c, k, p), p))
  }

  /** Restoring right after a delete succeeds and gives back the original
      row, except that it is now inactive; deleting it again is refused
      until then. */
  lemma RestoreUndoesDelete(c: Catalog, id: int, actor: Option<string>, now: int)
    requires WellFormed(c)
    requires DeletePlafond(c, id, actor, now).Ok?
    ensures var c1 := DeletePlafond(c, id, actor, now).value;
      && DeletePlafond(c1, id, actor, now) == Err(NotFound(id))
      && RestorePlafond(c1, id).Ok?
      && RestorePlafond(c1, id).value.0 == SetRow(c, IndexOf(c, id).value, c.rows[IndexOf(c, id).value].(isActive := false))
  {
    var k := IndexOf(c, id).value;
    var c1 := DeletePlafond(c, id, actor, now).value;
    SameIdsSameIndex(c, c1, id);
    assert RowInvariant(c.rows[k]);
    assert c1.rows[k := c.rows[k].(isActive := false)] == c.rows[k := c.rows[k].(isActive := false)];
  }
}
