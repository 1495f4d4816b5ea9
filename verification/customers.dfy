/** `CustomerService`: the customer-profile upsert with NIK uniqueness,
    mandatory KYC documents on create, document-name derivation, and
    emergency-contact replacement.

    File storage is not modelled: `store(file, targetName)` is a function
    parameter returning the stored path, and the upsert returns the list
    of storage calls it makes. */
module Customers {
  import opened Wrappers
  import Seqs
  import Text
  import Users

  /** An uploaded multipart file; it `isEmpty()` when it has no bytes. */
  datatype Upload = Upload(originalName: string, size: nat)

  /** A file argument that is neither null nor empty. */
  predicate Present(f: Option<Upload>) {
    f.Some? && f.value.size > 0
  }

  /** The fields the upsert copies verbatim from the request. */
  datatype Profile = Profile(
    dateOfBirth: Option<string>,
    placeOfBirth: Option<string>,
    address: Option<string>,
    currentAddress: Option<string>,
    phone: Option<string>,
    occupation: Option<string>,
    motherMaidenName: Option<string>,
    accountNumber: Option<string>,
    accountHolderName: Option<string>)

  datatype EmergencyContactRequest = EmergencyContactRequest(
    name: Option<string>, phone: Option<string>, relationship: Option<string>)

  datatype CustomerRequest = CustomerRequest(
    nik: Option<string>,
    monthlyIncome: Option<int>,
    profile: Profile,
    emergencyContact: Option<EmergencyContactRequest>)

  datatype Customer = Customer(
    id: nat,
    userId: nat,
    nik: string,
    /** In cents; `None` is a null income. */
    monthlyIncome: Option<int>,
    profile: Profile,
    ktpImagePath: Option<string>,
    selfieImagePath: Option<string>,
    payslipImagePath: Option<string>)

  datatype EmergencyContact = EmergencyContact(
    id: nat, customerId: nat, contactName: string, contactPhone: string, relationship: Option<string>)

  /** The `customers` and `emergency_contacts` tables with their next identities. */
  datatype Registry = Registry(
    customers: seq<Customer>, contacts: seq<EmergencyContact>, nextCustomerId: nat, nextContactId: nat)

  /** `user_id` and `nik` are unique columns; identities are unique and
      below the next one. */
  ghost predicate UniqueKeys(r: Registry) {
    && (forall i, j :: 0 <= i < j < |r.customers| ==> r.customers[i].userId != r.customers[j].userId)
    && (forall i, j :: 0 <= i < j < |r.customers| ==> r.customers[i].nik != r.customers[j].nik)
    && (forall i, j :: 0 <= i < j < |r.customers| ==> r.customers[i].id != r.customers[j].id)
    && (forall i :: 0 <= i < |r.customers| ==> r.customers[i].id < r.nextCustomerId)
  }

  datatype CustomerError =
    | UserNotFound(userId: int)
    | MandatoryDocumentsMissing
    | NikTaken(nik: string)
    | MissingFullName
    | UploadFailed
    /** A NOT NULL column left null: the save fails and the transaction
        rolls back. */
    | NullColumn(column: string)

  function ErrorMessage(e: CustomerError): string {
    match e
    case UserNotFound(_) => "User not found with id"
    case MandatoryDocumentsMissing => "KTP and Selfie photos are mandatory for new customer profile."
    case NikTaken(_) => "NIK is already registered by another customer"
    case MissingFullName => "User full name is null"
    case UploadFailed => "Failed to upload mandatory documents."
    case NullColumn(_) => "Column cannot be null"
  }

  // ---------------------------------------------------------------------
  // CustomerRepository lookups
  // ---------------------------------------------------------------------

  /** Position of the customer row of `userId` (`findByUserId`). */
  function IndexOfUser(reg: Registry, userId: int): (r: Option<nat>)
    ensures r.Some? ==> r.value < |reg.customers| && reg.customers[r.value].userId == userId
    ensures r.None? <==> forall c :: c in reg.customers ==> c.userId != userId
  {
    Seqs.FindFirst(reg.customers, (c: Customer) => c.userId == userId)
  }

  /** `findByNik`; no row has a null NIK, so a null NIK finds nothing. */
  function FindByNik(reg: Registry, nik: Option<string>): (r: Option<Customer>)
    ensures r.Some? ==> nik.Some? && r.value in reg.customers && r.value.nik == nik.value
    ensures r.None? <==> nik.None? || forall c :: c in reg.customers ==> c.nik != nik.value
  {
    match nik
    case None => None
    case Some(n) =>
      match Seqs.FindFirst(reg.customers, (c: Customer) => c.nik == n)
      case None => None
      case Some(k) => Some(reg.customers[k])
  }

  /** `hasCustomerData` (`existsByUserId`). */
  function HasCustomerData(reg: Registry, userId: int): (b: bool)
    ensures b <==> exists c :: c in reg.customers && c.userId == userId
  {
    IndexOfUser(reg, userId).Some?
  }

  /** `validateNikUniqueness`: a NIK is refused only when it belongs to
      another user's customer; re-using one's own NIK is allowed. */
  function ValidateNikUniqueness(reg: Registry, nik: Option<string>, userId: int): (r: Option<CustomerError>)
    ensures r.Some? ==> nik.Some? && r.value == NikTaken(nik.value)
    ensures r.Some? <==> FindByNik(reg, nik).Some? && FindByNik(reg, nik).value.userId != userId
    ensures UniqueKeys(reg) ==>
      (r.Some? <==> nik.Some? && exists c :: c in reg.customers && c.nik == nik.value && c.userId != userId)
  {
    match FindByNik(reg, nik)
    case None => None
    case Some(c) =>
      if c.userId != userId then
        NikTakenUnique(reg, c);
        Some(NikTaken(nik.value))
      else
        NikTakenUnique(reg, c);
        None
  }

  /** With unique NIKs, the row `findByNik` returns is the only one with
      that NIK. */
  lemma NikTakenUnique(reg: Registry, c: Customer)
    requires c in reg.customers
    ensures UniqueKeys(reg) ==> forall d :: d in reg.customers && d.nik == c.nik ==> d == c
  {
    if UniqueKeys(reg) {
      forall d | d in reg.customers && d.nik == c.nik
        ensures d == c
      {
        var i :| 0 <= i < |reg.customers| && reg.customers[i] == c;
        var j :| 0 <= j < |reg.customers| && reg.customers[j] == d;
      }
    }
  }

  // ---------------------------------------------------------------------
  // Document names
  // ---------------------------------------------------------------------

  datatype DocumentType = Ktp | Selfie | Payslip {
    function Name(): string {
      match this
      case Ktp => "KTP"
      case Selfie => "SELFIE"
      case Payslip => "PAYSLIP"
    }
  }

  /** The stored name of a document: the full name with each whitespace
      run replaced by `_`, then `-`, the NIK, `_` and the document type.
      The part before that suffix is no longer than the full name and holds
      no white space, so the name is safe as a file name stem. */
  function DocumentName(fullName: string, nik: string, doc: DocumentType): (r: string)
    ensures var tail := "-" + nik + "_" + doc.Name();
      |tail| <= |r| <= |fullName| + |tail| && r[|r| - |tail|..] == tail
    ensures var tail := "-" + nik + "_" + doc.Name();
      forall i :: 0 <= i < |r| - |tail| ==> !Text.IsRegexSpace(r[i])
  {
    var stem := Text.CollapseSpaces(fullName);
    Text.CollapseHasNoSpaces(fullName);
    stem + ("-" + nik + "_" + doc.Name())
  }

  /** The NIK as string concatenation renders it: a null one reads "null". */
  function NikText(nik: Option<string>): string {
    nik.GetOr("null")
  }

  /** Two different document types never get the same stored name. */
  lemma DocumentNamesDistinct(fullName: string, nik: string, d1: DocumentType, d2: DocumentType)
    requires d1 != d2
    ensures DocumentName(fullName, nik, d1) != DocumentName(fullName, nik, d2)
  {
    var n := |Text.CollapseSpaces(fullName)| + |nik| + 2;
    assert |DocumentName(fullName, nik, d1)| == n + |d1.Name()|;
    assert |DocumentName(fullName, nik, d2)| == n + |d2.Name()|;
    assert |d1.Name()| != |d2.Name()|;
  }

  /** A full name of two words separated by any whitespace run is stored
      with one underscore between them. */
  lemma TwoWordName(first: string, gap: string, last: string, nik: string, doc: DocumentType)
    requires forall i :: 0 <= i < |first| ==> !Text.IsRegexSpace(first[i])
    requires |gap| > 0 && forall i :: 0 <= i < |gap| ==> Text.IsRegexSpace(gap[i])
    requires forall i :: 0 <= i < |last| ==> !Text.IsRegexSpace(last[i])
    ensures DocumentName(first + gap + last, nik, doc) == first + "_" + last + "-" + nik + "_" + doc.Name()
  {
    var fullName := first + gap + last;
    assert fullName == first + (gap + last);
    Text.CollapseTwoWords(first, gap, last);
    NameOfCollapsed(fullName, first + ("_" + last), nik, doc);
  }

  lemma NameOfCollapsed(fullName: string, collapsed: string, nik: string, doc: DocumentType)
    requires Text.CollapseSpaces(fullName) == collapsed
    ensures DocumentName(fullName, nik, doc) == collapsed + "-" + nik + "_" + doc.Name()
  {
  }

  // ---------------------------------------------------------------------
  // handleFileUploads
  // ---------------------------------------------------------------------

  datatype StoreCall = StoreCall(file: Upload, targetName: string)

  /** One document: stored and its path replaced when present, otherwise
      the old path kept and no storage call made. */
  function UploadOne(path: Option<string>, file: Option<Upload>, name: string, store: (Upload, string) -> string)
    : (r: (Option<string>, seq<StoreCall>))
    ensures Present(file) ==> r == (Some(store(file.value, name)), [StoreCall(file.value, name)])
    ensures !Present(file) ==> r == (path, [])
  {
    if Present(file) then (Some(store(file.value, name)), [StoreCall(file.value, name)]) else (path, [])
  }

  /** `handleFileUploads`: KTP, selfie and payslip in that order; a null
      full name is the `NullPointerException` of `replaceAll`. */
  function HandleFileUploads(c: Customer, fullName: Option<string>, nik: string,
                             ktp: Option<Upload>, selfie: Option<Upload>, payslip: Option<Upload>,
                             store: (Upload, string) -> string)
    : (r: Result<(Customer, seq<StoreCall>), CustomerError>)
    ensures fullName.None? <==> r == Err(MissingFullName)
    ensures r.Ok? <==> fullName.Some?
    ensures r.Ok? ==> var (c', calls) := r.value;
      && c' == c.(ktpImagePath := UploadOne(c.ktpImagePath, ktp, DocumentName(fullName.value, nik, Ktp), store).0,
                  selfieImagePath := UploadOne(c.selfieImagePath, selfie, DocumentName(fullName.value, nik, Selfie), store).0,
                  payslipImagePath := UploadOne(c.payslipImagePath, payslip, DocumentName(fullName.value, nik, Payslip), store).0)
      && |calls| == (if Present(ktp) then 1 else 0) + (if Present(selfie) then 1 else 0) + (if Present(payslip) then 1 else 0)
      && (!Present(ktp) && !Present(selfie) && !Present(payslip) ==> calls == [] && c' == c)
  {
    match fullName
    case None => Err(MissingFullName)
    case Some(name) =>
      var (k, kc) := UploadOne(c.ktpImagePath, ktp, DocumentName(name, nik, Ktp), store);
      var (s, sc) := UploadOne(c.selfieImagePath, selfie, DocumentName(name, nik, Selfie), store);
      var (p, pc) := UploadOne(c.payslipImagePath, payslip, DocumentName(name, nik, Payslip), store);
      Ok((c.(ktpImagePath := k, selfieImagePath := s, payslipImagePath := p), kc + sc + pc))
  }

  // ---------------------------------------------------------------------
  // updateEmergencyContact
  // ---------------------------------------------------------------------

  /** The contacts of every other customer. */
  function ContactsNotOf(contacts: seq<EmergencyContact>, customerId: nat): (r: seq<EmergencyContact>)
    ensures forall e :: e in r <==> e in contacts && e.customerId != customerId
  {
    Seqs.Filter(contacts, (e: EmergencyContact) => e.customerId != customerId)
  }

  /** No contact at all, or one with both NOT NULL columns filled. */
  predicate ContactComplete(ec: Option<EmergencyContactRequest>) {
    ec.None? || (ec.value.name.Some? && ec.value.phone.Some?)
  }

  /** `updateEmergencyContact`: a supplied contact replaces all of the
      customer's contacts with exactly one; none supplied leaves them.
      Name and phone are NOT NULL columns. */
  function UpdateEmergencyContact(reg: Registry, customerId: nat, ec: Option<EmergencyContactRequest>)
    : (r: Result<Registry, CustomerError>)
    ensures ec.None? ==> r == Ok(reg)
    ensures ec.Some? && ec.value.name.None? ==> r == Err(NullColumn("contact_name"))
    ensures ec.Some? && ec.value.name.Some? && ec.value.phone.None? ==> r == Err(NullColumn("contact_phone"))
    ensures r.Ok? <==> ContactComplete(ec)
    ensures r.Ok? && ec.Some? ==>
      && r.value.customers == reg.customers
      && r.value.nextCustomerId == reg.nextCustomerId
      && r.value.nextContactId == reg.nextContactId + 1
      && (forall e :: e in r.value.contacts && e.customerId != customerId <==> e in reg.contacts && e.customerId != customerId)
      && (forall e :: e in r.value.contacts && e.customerId == customerId <==>
            e == EmergencyContact(reg.nextContactId, customerId, ec.value.name.value, ec.value.phone.value,
                                  ec.value.relationship))
  {
    match ec
    case None => Ok(reg)
    case Some(req) =>
      if req.name.None? then Err(NullColumn("contact_name"))
      else if req.phone.None? then Err(NullColumn("contact_phone"))
      else
        var e := EmergencyContact(reg.nextContactId, customerId, req.name.value, req.phone.value, req.relationship);
        Ok(reg.(contacts := ContactsNotOf(reg.contacts, customerId) + [e], nextContactId := reg.nextContactId + 1))
  }

  // ---------------------------------------------------------------------
  // createOrUpdateCustomer
  // ---------------------------------------------------------------------

  /** `updateCustomerEntity`: the request's fields over the current row. */
  function WithRequest(c: Customer, userId: nat, nik: string, req: CustomerRequest): Customer {
    c.(userId := userId, nik := nik, monthlyIncome := req.monthlyIncome, profile := req.profile)
  }

  /** The row a new profile starts from, under the next identity. */
  function Blank(reg: Registry, userId: nat): Customer {
    Customer(reg.nextCustomerId, userId, "", None,
             Profile(None, None, None, None, None, None, None, None, None), None, None, None)
  }

  /** Inserts a new row or overwrites the existing one. */
  function SaveCustomer(reg: Registry, existing: Option<nat>, c: Customer): (r: Registry)
    requires existing.Some? ==> existing.value < |reg.customers|
    ensures existing.None? ==> r.customers == reg.customers + [c] && r.nextCustomerId == reg.nextCustomerId + 1
    ensures existing.Some? ==> r.customers == reg.customers[existing.value := c] && r.nextCustomerId == reg.nextCustomerId
    ensures r.contacts == reg.contacts && r.nextContactId == reg.nextContactId
  {
    match existing
    case None => reg.(customers := reg.customers + [c], nextCustomerId := reg.nextCustomerId + 1)
    case Some(k) => reg.(customers := reg.customers[k := c])
  }

  /** `createOrUpdateCustomer`, in the source's order: the user, the
      mandatory documents of a new profile, NIK uniqueness, the uploads,
      the save, then the emergency contact. Returns the stores, the saved
      row and the storage calls made. */
  function CreateOrUpdateCustomer(reg: Registry, users: Users.Accounts, userId: int, req: CustomerRequest,
                                  ktp: Option<Upload>, selfie: Option<Upload>, payslip: Option<Upload>,
                                  store: (Upload, string) -> string)
    : (r: Result<(Registry, Customer, seq<StoreCall>), CustomerError>)
    ensures Users.FindById(users, userId).None? ==> r == Err(UserNotFound(userId))
    ensures Users.FindById(users, userId).Some? && IndexOfUser(reg, userId).None? && !(Present(ktp) && Present(selfie))
      ==> r == Err(MandatoryDocumentsMissing)
    ensures Users.FindById(users, userId).Some? && !(IndexOfUser(reg, userId).None? && !(Present(ktp) && Present(selfie))) ==>
      var user := Users.FindById(users, userId).value;
      var nikFree := ValidateNikUniqueness(reg, req.nik, userId).None?;
      && (!nikFree ==> r == Err(NikTaken(req.nik.value)))
      && (nikFree && user.fullName.None? ==> r == Err(MissingFullName))
      && (nikFree && user.fullName.Some? && req.nik.None? ==> r == Err(NullColumn("nik")))
      && (nikFree && user.fullName.Some? && req.nik.Some? && !ContactComplete(req.emergencyContact) ==>
            r == Err(if req.emergencyContact.value.name.None? then NullColumn("contact_name") else NullColumn("contact_phone")))
    ensures r != Err(UploadFailed)
    ensures r.Ok? <==>
      && Users.FindById(users, userId).Some?
      && (IndexOfUser(reg, userId).None? ==> Present(ktp) && Present(selfie))
      && ValidateNikUniqueness(reg, req.nik, userId).None?
      && Users.FindById(users, userId).value.fullName.Some?
      && req.nik.Some?
      && ContactComplete(req.emergencyContact)
    ensures r.Ok? ==> Users.FindById(users, userId).Some? && userId >= 0

  {
    match Users.FindById(users, userId)
    case None => Err(UserNotFound(userId))
    case Some(user) =>
      var existing := IndexOfUser(reg, userId);
      var isNew := existing.None?;
      if isNew && !(Present(ktp) && Present(selfie)) then Err(MandatoryDocumentsMissing)
      else match ValidateNikUniqueness(reg, req.nik, userId)
        case Some(e) => Err(e)
        case None =>
          var base := if isNew then Blank(reg, user.id) else reg.customers[existing.value];
          var filled := WithRequest(base, user.id, NikText(req.nik), req);
          var (uploaded, calls) :- HandleFileUploads(filled, user.fullName, NikText(req.nik), ktp, selfie, payslip, store);
          if isNew && (uploaded.ktpImagePath.None? || uploaded.selfieImagePath.None?) then Err(UploadFailed)
          else if req.nik.None? then Err(NullColumn("nik"))
          else
            var reg1 := SaveCustomer(reg, existing, uploaded);
            var reg2 :- UpdateEmergencyContact(reg1, uploaded.id, req.emergencyContact);
            Ok((reg2, uploaded, calls))
  }

  /** What a successful upsert writes: the request's values in the
      profile, each uploaded document under its own name, the profile
      appended or overwritten in place, and the supplied contact. */
  lemma UpsertStoresRequest(reg: Registry, users: Users.Accounts, userId: int, req: CustomerRequest,
                            ktp: Option<Upload>, selfie: Option<Upload>, payslip: Option<Upload>,
                            store: (Upload, string) -> string)
    requires CreateOrUpdateCustomer(reg, users, userId, req, ktp, selfie, payslip, store).Ok?
    ensures var (reg', c, calls) := CreateOrUpdateCustomer(reg, users, userId, req, ktp, selfie, payslip, store).value;
      var fullName := Users.FindById(users, userId).value.fullName.value;
      && (Present(ktp) ==> c.ktpImagePath == Some(store(ktp.value, DocumentName(fullName, req.nik.value, Ktp))))
      && (Present(selfie) ==> c.selfieImagePath == Some(store(selfie.value, DocumentName(fullName, req.nik.value, Selfie))))
      && (Present(payslip) ==> c.payslipImagePath == Some(store(payslip.value, DocumentName(fullName, req.nik.value, Payslip))))
      && (Present(ktp) ==> StoreCall(ktp.value, DocumentName(fullName, req.nik.value, Ktp)) in calls)
      && (Present(selfie) ==> StoreCall(selfie.value, DocumentName(fullName, req.nik.value, Selfie)) in calls)
      && (Present(payslip) ==> StoreCall(payslip.value, DocumentName(fullName, req.nik.value, Payslip)) in calls)
    ensures req.emergencyContact.Some? ==>
      var (reg', c, _) := CreateOrUpdateCustomer(reg, users, userId, req, ktp, selfie, payslip, store).value;
      var ec := req.emergencyContact.value;
      && reg'.nextContactId == reg.nextContactId + 1
      && (forall e :: e in reg'.contacts && e.customerId != c.id <==> e in reg.contacts && e.customerId != c.id)
      && (forall e :: e in reg'.contacts && e.customerId == c.id <==>
            e == EmergencyContact(reg.nextContactId, c.id, ec.name.value, ec.phone.value, ec.relationship))
    ensures var (reg', c, calls) := CreateOrUpdateCustomer(reg, users, userId, req, ktp, selfie, payslip, store).value;
      && c.userId == userId && c.nik == req.nik.value
      && c.monthlyIncome == req.monthlyIncome && c.profile == req.profile
      && (IndexOfUser(reg, userId).None? ==>
            && reg'.customers == reg.customers + [c] && c.id == reg.nextCustomerId
            && reg'.nextCustomerId == reg.nextCustomerId + 1
            && c.ktpImagePath.Some? && c.selfieImagePath.Some?)
      && (IndexOfUser(reg, userId).Some? ==>
            var k := IndexOfUser(reg, userId).value;
            && reg'.customers == reg.customers[k := c] && reg'.nextCustomerId == reg.nextCustomerId
            && c.id == reg.customers[k].id
            && (!Present(ktp) ==> c.ktpImagePath == reg.customers[k].ktpImagePath)
            && (!Present(selfie) ==> c.selfieImagePath == reg.customers[k].selfieImagePath)
            && (!Present(payslip) ==> c.payslipImagePath == reg.customers[k].payslipImagePath))
      && |calls| == (if Present(ktp) then 1 else 0) + (if Present(selfie) then 1 else 0) + (if Present(payslip) then 1 else 0)
      && (req.emergencyContact.None? ==> reg'.contacts == reg.contacts && reg'.nextContactId == reg.nextContactId)
  {
  }

  /** The upsert keeps one profile per user, one per NIK and fresh
      identities. */
  lemma UpsertKeepsUnique(reg: Registry, users: Users.Accounts, userId: int, req: CustomerRequest,
                          ktp: Option<Upload>, selfie: Option<Upload>, payslip: Option<Upload>,
                          store: (Upload, string) -> string)
    requires UniqueKeys(reg)
    ensures var r := CreateOrUpdateCustomer(reg, users, userId, req, ktp, selfie, payslip, store);
      r.Ok? ==> UniqueKeys(r.value.0)
  {
    var r := CreateOrUpdateCustomer(reg, users, userId, req, ktp, selfie, payslip, store);
    if r.Ok? {
      UpsertStoresRequest(reg, users, userId, req, ktp, selfie, payslip, store);
      var (reg', c, _) := r.value;
      var nik := req.nik.value;
      // No row of another user holds the NIK.
      assert forall d :: d in reg.customers && d.nik == nik ==> d.userId == userId;
      match IndexOfUser(reg, userId)
      case None =>
        assert forall d :: d in reg.customers ==> d.userId != userId;
        AppendKeepsUnique(reg, reg', c);
      case Some(k) =>
        OverwriteKeepsUnique(reg, reg', k, c);
    }
  }

  /** After a successful upsert the user has customer data, held by the
      returned profile, and a user who had a profile still has one: the
      upsert never adds a second row for them. */
  lemma {:induction false} UpsertGivesCustomerData(reg: Registry, users: Users.Accounts, userId: int, req: CustomerRequest,
                                  ktp: Option<Upload>, selfie: Option<Upload>, payslip: Option<Upload>,
                                  store: (Upload, string) -> string)
    ensures var r := CreateOrUpdateCustomer(reg, users, userId, req, ktp, selfie, payslip, store);
      r.Ok? ==>
        && HasCustomerData(r.value.0, userId)
        && r.value.1 in r.value.0.customers
        && (HasCustomerData(reg, userId) <==> |r.value.0.customers| == |reg.customers|)
  {
    var r := CreateOrUpdateCustomer(reg, users, userId, req, ktp, selfie, payslip, store);
    if r.Ok? {
      UpsertStoresRequest(reg, users, userId, req, ktp, selfie, payslip, store);
      var (reg', c, _) := r.value;
      match IndexOfUser(reg, userId)
      case None =>
        assert reg'.customers[|reg.customers|] == c;
      case Some(k) =>
        assert reg'.customers[k] == c;
    }
  }

  lemma AppendKeepsUnique(reg: Registry, reg': Registry, c: Customer)
    requires UniqueKeys(reg)
    requires reg'.customers == reg.customers + [c] && c.id == reg.nextCustomerId
    requires reg'.nextCustomerId == reg.nextCustomerId + 1
    requires forall d :: d in reg.customers ==> d.userId != c.userId && d.nik != c.nik
    ensures UniqueKeys(reg')
  {
    var n := |reg.customers|;
    assert forall i :: 0 <= i < n ==> reg'.customers[i] == reg.customers[i] && reg.customers[i] in reg.customers;
  }

  lemma OverwriteKeepsUnique(reg: Registry, reg': Registry, k: nat, c: Customer)
    requires UniqueKeys(reg)
    requires k < |reg.customers| && reg'.customers == reg.customers[k := c]
    requires reg'.nextCustomerId == reg.nextCustomerId
    requires c.id == reg.customers[k].id && c.userId == reg.customers[k].userId
    requires forall d :: d in reg.customers && d.nik == c.nik ==> d.userId == c.userId
    ensures UniqueKeys(reg')
  {
    forall i | 0 <= i < |reg.customers| && i != k
      ensures reg'.customers[i].nik != c.nik
    {
      assert reg.customers[i] in reg.customers;
      assert reg.customers[i].userId != reg.customers[k].userId;
    }
  }
}
