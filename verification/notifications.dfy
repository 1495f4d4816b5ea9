/** `NotificationService`: which channels each business event uses, the
    title and message it carries, the in-app inbox rows it saves, and the
    read/unread rules of that inbox.

    E-mail and push delivery are side effects outside the model: sending
    returns the list of deliveries it would make, in channel order. A push
    goes out only to a user with a non-empty device token. */
module Notifications {
  import opened Wrappers
  import Seqs
  import Text

  datatype NotificationType =
    | Register | ForgotPassword
    | LoanSubmission | LoanApproved | LoanRejected | LoanDisbursed
    | LoanNew | ReviewCompleted
    | ReadyForApproval | ApprovalCompleted
    | ReadyForDisbursement | DisbursementCompleted

  datatype Channel = Email | Push | InApp

  /** The user a notification is for, with what delivery needs. */
  datatype Recipient = Recipient(id: nat, username: string, email: string, fcmToken: Option<string>)

  /** One row of the `notifications` table. */
  datatype Notification = Notification(
    id: nat,
    userId: nat,
    loanId: Option<nat>,
    kind: NotificationType,
    channel: Channel,
    title: string,
    message: string,
    isRead: bool)

  datatype Inbox = Inbox(rows: seq<Notification>, nextId: nat)

  ghost predicate UniqueIds(b: Inbox) {
    && (forall i, j :: 0 <= i < j < |b.rows| ==> b.rows[i].id != b.rows[j].id)
    && (forall i :: 0 <= i < |b.rows| ==> b.rows[i].id < b.nextId)
  }

  // ---------------------------------------------------------------------
  // The channel table and the texts
  // ---------------------------------------------------------------------

  /** `determineChannels`: the delivery channels of an event, in order. */
  function DetermineChannels(t: NotificationType): (r: seq<Channel>)
    ensures InApp in r
    ensures forall i, j :: 0 <= i < j < |r| ==> r[i] != r[j]
    ensures Email in r <==> t in {Register, ForgotPassword, LoanApproved, LoanRejected, LoanDisbursed}
    ensures Push in r <==> t in {LoanApproved, LoanDisbursed, LoanNew, ReadyForApproval, ReadyForDisbursement}
  {
    match t
    case Register => [Email, InApp]
    case ForgotPassword => [Email, InApp]
    case LoanSubmission => [InApp]
    case LoanRejected => [InApp, Email]
    case LoanApproved => [Email, Push, InApp]
    case LoanDisbursed => [Email, Push, InApp]
    case LoanNew => [Push, InApp]
    case ReviewCompleted => [InApp]
    case ReadyForApproval => [Push, InApp]
    case ApprovalCompleted => [InApp]
    case ReadyForDisbursement => [Push, InApp]
    case DisbursementCompleted => [InApp]
  }

  /** The rejection notice is the only event whose e-mail follows the
      in-app row; everywhere else e-mail and push go first, e-mail ahead
      of push. With the membership facts above this fixes every list. */
  lemma InAppLastExceptRejection(t: NotificationType)
    ensures var r := DetermineChannels(t);
      && (t != LoanRejected <==> r[|r| - 1] == InApp)
      && (t == LoanRejected ==> r[0] == InApp)
      && (Email in r && Push in r ==> r[0] == Email && r[1] == Push)
  {
  }

  /** `generateTitle`: a fixed, non-empty headline per event. */
  function GenerateTitle(t: NotificationType): (r: string)
    ensures |r| > 0
    ensures r[|r| - 1] == '!' <==> t == Register || t == LoanApproved
  {
    match t
    case Register => "Welcome to Genggamin!"
    case ForgotPassword => "Reset Your Password"
    case LoanSubmission => "Loan Submitted"
    case LoanApproved => "Loan Approved!"
    case LoanRejected => "Loan Application Update"
    case LoanDisbursed => "Funds Disbursed"
    case LoanNew => "New Loan Application"
    case ReviewCompleted => "Review Completed"
    case ReadyForApproval => "Loan Ready for Approval"
    case ApprovalCompleted => "Approval Done"
    case ReadyForDisbursement => "Loan Ready for Disbursement"
    case DisbursementCompleted => "Disbursement Completed"
  }

  /** No two events share a headline, so the title alone tells the
      reader which event the row is about. */
  lemma TitleIdentifiesEvent(t1: NotificationType, t2: NotificationType)
    ensures GenerateTitle(t1) == GenerateTitle(t2) <==> t1 == t2
  {
  }

  /** The two account events say nothing about a loan. */
  predicate IsLoanEvent(t: NotificationType) {
    t != Register && t != ForgotPassword
  }

  /** The fixed text of each event (`generateMessage`'s switch), every
      one ending in a full stop. */
  function BaseMessage(t: NotificationType): (r: string)
    ensures |r| > 0 && r[|r| - 1] == '.'
  {
    Sentence(t) + "."
  }

  /** The event's text up to its closing full stop. */
  function Sentence(t: NotificationType): string {
    match t
    case Register => "Silakan konfirmasi email Anda untuk mengaktifkan akun"
    case ForgotPassword => "Klik tautan di email untuk mengatur ulang kata sandi Anda"
    case LoanSubmission => "Permohonan pinjaman Anda telah diterima dan sedang dalam proses peninjauan"
    case LoanApproved => "Kabar baik! Permohonan pinjaman Anda telah disetujui"
    case LoanRejected => "Mohon maaf, permohonan pinjaman Anda belum dapat disetujui saat ini"
    case LoanDisbursed => "Dana telah dikirimkan ke rekening bank yang Anda daftarkan"
    case LoanNew => "Ada permohonan pinjaman baru yang perlu ditinjau"
    case ReviewCompleted => "Anda telah menyelesaikan proses peninjauan"
    case ReadyForApproval => "Aplikasi pinjaman siap untuk mendapatkan persetujuan Anda"
    case ApprovalCompleted => "Anda telah menyelesaikan proses persetujuan"
    case ReadyForDisbursement => "Pinjaman telah disetujui dan siap untuk dicairkan"
    case DisbursementCompleted => "Pencairan dana telah berhasil dicatat"
  }

  /** `" (ID: " + loan.getId() + ")"`. */
  function LoanSuffix(loanId: nat): string {
    " (ID: " + Text.NatToString(loanId) + ")"
  }

  /** `generateMessage`: loan events append the loan's id when there is a
      loan. */
  function GenerateMessage(t: NotificationType, loanId: Option<nat>): (r: string)
    ensures |r| >= |BaseMessage(t)| && r[..|BaseMessage(t)|] == BaseMessage(t)
    ensures |r| == |BaseMessage(t)| <==> !(IsLoanEvent(t) && loanId.Some?)
  {
    if IsLoanEvent(t) && loanId.Some? then BaseMessage(t) + LoanSuffix(loanId.value) else BaseMessage(t)
  }

  /** For a loan event the message ends in `)` exactly when a loan is
      given, and then the digits before it read back as that loan's id.
      An account event's message never mentions a loan. */
  lemma MessageCarriesLoanId(t: NotificationType, loanId: Option<nat>)
    ensures var m := GenerateMessage(t, loanId);
      m[|m| - 1] == ')' <==> IsLoanEvent(t) && loanId.Some?
    ensures IsLoanEvent(t) && loanId.Some? ==>
      exists digits :: (&& (forall i :: 0 <= i < |digits| ==> Text.IsDigit(digits[i]))
                        && GenerateMessage(t, loanId) == BaseMessage(t) + " (ID: " + digits + ")"
                        && Text.DigitsToNat(digits) == loanId.value)
    ensures !IsLoanEvent(t) ==> GenerateMessage(t, loanId) == BaseMessage(t)
  {
    var base := BaseMessage(t);
    var m := GenerateMessage(t, loanId);
    if IsLoanEvent(t) && loanId.Some? {
      assert m == base + LoanSuffix(loanId.value);
      SuffixCarriesId(base, loanId.value);
    } else {
      assert m == base;
    }
  }

  /** Any text followed by the loan suffix ends in `)`, and the digits of
      the suffix read back as the id. */
  lemma SuffixCarriesId(base: string, loanId: nat)
    ensures var m := base + LoanSuffix(loanId); m[|m| - 1] == ')'
    ensures exists digits :: (&& (forall i :: 0 <= i < |digits| ==> Text.IsDigit(digits[i]))
                              && base + LoanSuffix(loanId) == base + " (ID: " + digits + ")"
                              && Text.DigitsToNat(digits) == loanId)
  {
    var digits := Text.NatToString(loanId);
    Text.NatToStringRoundTrip(loanId);
    var suffix := LoanSuffix(loanId);
    assert suffix == " (ID: " + digits + ")";
    assert (base + suffix)[|base + suffix| - 1] == suffix[|suffix| - 1] == ')';
    assert base + suffix == base + " (ID: " + digits + ")";
  }

  // ---------------------------------------------------------------------
  // Sending
  // ---------------------------------------------------------------------

  /** A delivery made outside the inbox. */
  datatype Delivery = EmailTo(address: string, title: string, message: string)
                    | PushTo(token: string, title: string, message: string)

  /** The user has a device token that push can use. */
  predicate CanPush(u: Recipient) {
    u.fcmToken.Some? && |u.fcmToken.value| > 0
  }

  /** The deliveries made over `channels`, in order; the in-app channel
      delivers nothing outside the inbox. */
  function Deliveries(u: Recipient, title: string, message: string, channels: seq<Channel>): (r: seq<Delivery>)
    ensures |r| <= |channels|
    ensures (exists d :: d in r && d.EmailTo?) <==> Email in channels
    ensures (exists d :: d in r && d.PushTo?) <==> Push in channels && CanPush(u)
    ensures forall d :: d in r ==> d.title == title && d.message == message
  {
    if |channels| == 0 then []
    else
      var rest := Deliveries(u, title, message, channels[1..]);
      assert forall c :: c in channels <==> c == channels[0] || c in channels[1..];
      match channels[0]
      case Email =>
        var e := EmailTo(u.email, title, message);
        assert forall d :: d in [e] + rest <==> d == e || d in rest;
        [e] + rest
      case Push =>
        if CanPush(u) then
          var p := PushTo(u.fcmToken.value, title, message);
          assert forall d :: d in [p] + rest <==> d == p || d in rest;
          [p] + rest
        else rest
      case InApp => rest
  }

  /** `sendNotification`: a null user gets nothing; otherwise the event's
      channels are used in order and its one in-app row is saved unread. */
  function SendNotification(b: Inbox, user: Option<Recipient>, t: NotificationType, loanId: Option<nat>)
    : (r: (Inbox, seq<Delivery>))
    ensures user.None? ==> r == (b, [])
    ensures user.Some? ==>
      && r.0.rows == b.rows + [Notification(b.nextId, user.value.id, loanId, t, InApp,
                                            GenerateTitle(t), GenerateMessage(t, loanId), false)]
      && r.0.nextId == b.nextId + 1
      && ((exists d :: d in r.1 && d.EmailTo?) <==> Email in DetermineChannels(t))
      && ((exists d :: d in r.1 && d.PushTo?) <==> Push in DetermineChannels(t) && CanPush(user.value))
  {
    match user
    case None => (b, [])
    case Some(u) =>
      var title := GenerateTitle(t);
      var message := GenerateMessage(t, loanId);
      var row := Notification(b.nextId, u.id, loanId, t, InApp, title, message, false);
      (Inbox(b.rows + [row], b.nextId + 1), Deliveries(u, title, message, DetermineChannels(t)))
  }

  // ---------------------------------------------------------------------
  // Reading
  // ---------------------------------------------------------------------

  /** An in-app row of `userId` not yet read. */
  predicate UnreadOf(userId: nat, n: Notification) {
    n.userId == userId && n.channel == InApp && !n.isRead
  }

  /** `countUnread` (`countByUserIdAndChannelAndIsReadFalse`). */
  function CountUnread(b: Inbox, userId: nat): (n: nat)
    ensures n == 0 <==> forall i :: 0 <= i < |b.rows| ==> !UnreadOf(userId, b.rows[i])
  {
    Seqs.Count(b.rows, (x: Notification) => UnreadOf(userId, x))
  }

  datatype NotificationError = NotificationNotFound | Unauthorized

  function ErrorMessage(e: NotificationError): string {
    match e
    case NotificationNotFound => "Notification not found"
    case Unauthorized => "Unauthorized"
  }

  /** `markAsRead`: the row must exist and belong to the caller; only its
      read flag changes. */
  function MarkAsRead(b: Inbox, notificationId: int, user: Recipient): (r: Result<Inbox, NotificationError>)
    ensures (forall n :: n in b.rows ==> n.id != notificationId) <==> r == Err(NotificationNotFound)
    ensures r.Ok? || r == Err(NotificationNotFound) || r == Err(Unauthorized)
    ensures r.Ok? ==>
      var k := Seqs.FindFirst(b.rows, (n: Notification) => n.id == notificationId).value;
      && b.rows[k].id == notificationId && b.rows[k].userId == user.id
      && r.value == b.(rows := b.rows[k := b.rows[k].(isRead := true)])
    ensures r == Err(Unauthorized) ==>
      exists n :: n in b.rows && n.id == notificationId && n.userId != user.id
  {
    match Seqs.FindFirst(b.rows, (n: Notification) => n.id == notificationId)
    case None => Err(NotificationNotFound)
    case Some(k) =>
      if b.rows[k].userId != user.id then Err(Unauthorized)
      else Ok(b.(rows := b.rows[k := b.rows[k].(isRead := true)]))
  }

  /** Marking one's own unread notification read lowers the unread count
      by exactly one. */
  lemma {:induction false} MarkAsReadCountsDown(rows: seq<Notification>, k: nat, userId: nat)
    requires k < |rows| && UnreadOf(userId, rows[k])
    ensures Seqs.Count(rows[k := rows[k].(isRead := true)], (x: Notification) => UnreadOf(userId, x))
         == Seqs.Count(rows, (x: Notification) => UnreadOf(userId, x)) - 1
    decreases k
  {
    var f := (x: Notification) => UnreadOf(userId, x);
    var s := rows[k := rows[k].(isRead := true)];
    assert s[1..] == if k == 0 then rows[1..] else rows[1..][k - 1 := rows[k].(isRead := true)];
    if k > 0 {
      MarkAsReadCountsDown(rows[1..], k - 1, userId);
    }
  }

  /** The row `markAllAsRead` leaves: read if it is the user's, else as it was. */
  function MarkedRead(userId: nat, n: Notification): Notification {
    if UnreadOf(userId, n) then n.(isRead := true) else n
  }

  /** `markAllAsRead`: every unread in-app row of the user becomes read;
      nothing else changes. */
  function MarkAllAsRead(b: Inbox, userId: nat): (r: Inbox)
    ensures |r.rows| == |b.rows| && r.nextId == b.nextId
    ensures forall i :: 0 <= i < |b.rows| && b.rows[i].userId != userId ==> r.rows[i] == b.rows[i]
    ensures forall i :: 0 <= i < |b.rows| ==> !UnreadOf(userId, r.rows[i])
    ensures forall i :: 0 <= i < |b.rows| ==> r.rows[i] == b.rows[i].(isRead := r.rows[i].isRead)
  {
    Inbox(seq(|b.rows|, i requires 0 <= i < |b.rows| => MarkedRead(userId, b.rows[i])), b.nextId)
  }

  /** After `markAllAsRead(u)` the user has no unread notification, and
      every other user's count is what it was. */
  lemma MarkAllThenCount(b: Inbox, userId: nat, other: nat)
    requires other != userId
    ensures CountUnread(MarkAllAsRead(b, userId), userId) == 0
    ensures CountUnread(MarkAllAsRead(b, userId), other) == CountUnread(b, other)
  {
    var r := MarkAllAsRead(b, userId);
    assert r.rows == b.rows[..0] + r.rows[0..];
    CountOthersUnchanged(b.rows, r.rows, userId, other);
  }

  lemma {:induction false} CountOthersUnchanged(s: seq<Notification>, t: seq<Notification>, userId: nat, other: nat)
    requires other != userId && |s| == |t|
    requires forall i :: 0 <= i < |s| ==> (t[i].userId == other <==> s[i].userId == other)
    requires forall i :: 0 <= i < |s| && s[i].userId == other ==> t[i] == s[i]
    ensures Seqs.Count(t, (x: Notification) => UnreadOf(other, x)) == Seqs.Count(s, (x: Notification) => UnreadOf(other, x))
  {
    if |s| > 0 {
      CountOthersUnchanged(s[1..], t[1..], userId, other);
    }
  }

  /** Sending to a user raises that user's unread count by one. */
  lemma SendCountsUp(b: Inbox, u: Recipient, t: NotificationType, loanId: Option<nat>)
    ensures CountUnread(SendNotification(b, Some(u), t, loanId).0, u.id) == CountUnread(b, u.id) + 1
  {
    var row := Notification(b.nextId, u.id, loanId, t, InApp, GenerateTitle(t), GenerateMessage(t, loanId), false);
    CountAppend(b.rows, row, u.id);
  }

  lemma {:induction false} CountAppend(s: seq<Notification>, x: Notification, userId: nat)
    ensures Seqs.Count(s + [x], (n: Notification) => UnreadOf(userId, n))
         == Seqs.Count(s, (n: Notification) => UnreadOf(userId, n)) + (if UnreadOf(userId, x) then 1 else 0)
  {
    if |s| > 0 {
      assert (s + [x])[1..] == s[1..] + [x];
      CountAppend(s[1..], x, userId);
    } else {
      assert s + [x] == [x];
    }
  }

  /** Sending keeps the row identities unique. */
  lemma SendKeepsUnique(b: Inbox, user: Option<Recipient>, t: NotificationType, loanId: Option<nat>)
    requires UniqueIds(b)
    ensures UniqueIds(SendNotification(b, user, t, loanId).0)
  {
    var b' := SendNotification(b, user, t, loanId).0;
    if user.Some? {
      var row := b'.rows[|b.rows|];
      assert b'.rows == b.rows + [row] && row.id == b.nextId;
      AppendKeepsUniqueIds(b, b', row);
    }
  }

  lemma AppendKeepsUniqueIds(b: Inbox, b': Inbox, row: Notification)
    requires UniqueIds(b)
    requires b'.rows == b.rows + [row] && row.id == b.nextId && b'.nextId == b.nextId + 1
    ensures UniqueIds(b')
  {
  }
}
