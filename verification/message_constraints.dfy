/**
 * Whether a remote delete or an edit of a message is allowed: when an event
 * from elsewhere is received, and when the local user offers one on a message
 * of their own. Every decision is a pure predicate over a message snapshot.
 *
 * The process-wide self identity is an explicit parameter `self`; `None`
 * stands for "not resolved yet".
 */
module MessageConstraints {
  import opened Wrappers
  import opened KotlinNumbers

  datatype RecipientId = RecipientId(value: Long)

  /** The accessors of a recipient that the constraints read. */
  datatype Recipient = Recipient(
    id: RecipientId,
    isGroup: bool,
    isActiveGroup: bool,
    isSelf: bool
  )

  /** The accessors of a message snapshot that the constraints read. */
  datatype MessageRecord = MessageRecord(
    fromRecipient: Recipient,
    toRecipient: Recipient,
    isOutgoing: bool,
    dateSent: Long,
    serverTimestamp: Long,
    revisionNumber: Int,
    isRemoteDelete: bool,
    isUpdate: bool,
    isPush: bool,
    isViewOnce: bool,
    hasAudio: bool,
    hasSharedContact: bool,
    hasGiftBadge: bool,
    isPaymentNotification: bool
  )

  const MillisPerHour: Long := 3_600_000

  /** One day in milliseconds: how late a delete or edit may be received. */
  const ReceiveThreshold: Long := 24 * MillisPerHour

  /** Three hours in milliseconds: how long after sending a delete or edit may be offered. */
  const SendThreshold: Long := 3 * MillisPerHour

  /** Declared beside the thresholds; the edit check itself writes the literal 10. */
  const MaxEditCount: Int := 10

  // ---------------------------------------------------------------------------
  // Identity

  /** The recipient is the local user; an unresolved self identity matches nobody. */
  predicate IsSelf(self: Option<RecipientId>, recipientId: RecipientId)
    ensures self.None? ==> !IsSelf(self, recipientId)
    ensures IsSelf(self, recipientId) <==> self == Some(recipientId)
  {
    self.Some? && self.value == recipientId
  }

  // ---------------------------------------------------------------------------
  // Receive side

  /**
   * Accept a delete event claimed by `deleteSenderId` that the server stamped
   * `deleteServerTimestamp` for `target`.
   */
  function IsValidRemoteDeleteReceive(
    self: Option<RecipientId>,
    target: MessageRecord,
    deleteSenderId: RecipientId,
    deleteServerTimestamp: Long
  ): (r: bool)
    // self deleting its own outgoing message: always valid, at any time
    ensures IsSelf(self, deleteSenderId) && target.isOutgoing ==> r
    // direction mismatch: never valid
    ensures IsSelf(self, deleteSenderId) != target.isOutgoing ==> !r
    // someone else deleting their incoming message: sender match and 24 h window
    ensures !IsSelf(self, deleteSenderId) && !target.isOutgoing ==>
      (r <==> target.fromRecipient.id == deleteSenderId
              && LongSub(deleteServerTimestamp, target.serverTimestamp) < ReceiveThreshold)
    // unresolved self: nothing on an outgoing message is accepted
    ensures self.None? && target.isOutgoing ==> !r
  {
    var selfIsDeleteSender := IsSelf(self, deleteSenderId);
    var isValidIncomingOutgoing :=
      (selfIsDeleteSender && target.isOutgoing) || (!selfIsDeleteSender && !target.isOutgoing);
    var isValidSender :=
      target.fromRecipient.id == deleteSenderId || (selfIsDeleteSender && target.isOutgoing);
    var messageTimestamp :=
      if selfIsDeleteSender && target.isOutgoing then target.dateSent else target.serverTimestamp;
    isValidIncomingOutgoing
      && isValidSender
      && (LongSub(deleteServerTimestamp, messageTimestamp) < ReceiveThreshold
          || (selfIsDeleteSender && target.isOutgoing))
  }

  /** Accept an edit event from `editSender`; the same admission rule as a delete. */
  function IsValidEditMessageReceive(
    self: Option<RecipientId>,
    target: MessageRecord,
    editSender: Recipient,
    editServerTimestamp: Long
  ): (r: bool)
    ensures IsSelf(self, editSender.id) && target.isOutgoing ==> r
    ensures IsSelf(self, editSender.id) != target.isOutgoing ==> !r
    ensures !IsSelf(self, editSender.id) && !target.isOutgoing ==>
      (r <==> target.fromRecipient.id == editSender.id
              && LongSub(editServerTimestamp, target.serverTimestamp) < ReceiveThreshold)
    ensures self.None? && target.isOutgoing ==> !r
  {
    IsValidRemoteDeleteReceive(self, target, editSender.id, editServerTimestamp)
  }

  /** The edit rule depends on the sender only through its id and agrees with the delete rule. */
  lemma EditReceiveMatchesDeleteReceive(
    self: Option<RecipientId>, target: MessageRecord, editSender: Recipient, t: Long)
    ensures IsValidEditMessageReceive(self, target, editSender, t)
         == IsValidRemoteDeleteReceive(self, target, editSender.id, t)
  {
  }

  /**
   * With non-negative epoch timestamps the window is the plain difference:
   * another party's delete of their incoming message is valid exactly when
   * the ids match and it arrives less than a day after the server stamp.
   */
  lemma NonSelfReceiveWindow(
    self: Option<RecipientId>, target: MessageRecord, sender: RecipientId, t: Long)
    requires !IsSelf(self, sender) && !target.isOutgoing
    requires 0 <= target.serverTimestamp && 0 <= t
    ensures IsValidRemoteDeleteReceive(self, target, sender, t)
        <==> target.fromRecipient.id == sender && t - target.serverTimestamp < ReceiveThreshold
  {
  }

  /** The receive window is exclusive: T + 86 399 999 is accepted, T + 86 400 000 is not. */
  lemma ReceiveWindowBoundary(self: Option<RecipientId>, target: MessageRecord, sender: RecipientId)
    requires !IsSelf(self, sender) && !target.isOutgoing
    requires target.fromRecipient.id == sender
    requires 0 <= target.serverTimestamp <= MaxLong - ReceiveThreshold
    ensures IsValidRemoteDeleteReceive(self, target, sender, target.serverTimestamp + 86_399_999)
    ensures !IsValidRemoteDeleteReceive(self, target, sender, target.serverTimestamp + 86_400_000)
  {
    NonSelfReceiveWindow(self, target, sender, target.serverTimestamp + 86_399_999);
    NonSelfReceiveWindow(self, target, sender, target.serverTimestamp + 86_400_000);
  }

  /**
   * The reference timestamp chosen for a self delete of an outgoing message
   * (`dateSent`) never decides anything: that case bypasses the window.
   */
  lemma ReceiveIgnoresDateSent(
    self: Option<RecipientId>, target: MessageRecord, sender: RecipientId, t: Long, d: Long)
    ensures IsValidRemoteDeleteReceive(self, target.(dateSent := d), sender, t)
         == IsValidRemoteDeleteReceive(self, target, sender, t)
  {
  }

  // ---------------------------------------------------------------------------
  // Send side

  /** The attribute clauses of the single-message delete check, everything but the clock. */
  predicate DeleteSendAttributes(m: MessageRecord) {
    && !m.isUpdate
    && m.isOutgoing
    && m.isPush
    && (!m.toRecipient.isGroup || m.toRecipient.isActiveGroup)
    && !m.isRemoteDelete
    && !m.hasGiftBadge
    && !m.isPaymentNotification
  }

  /** The attribute clauses an edit adds to the delete check. */
  predicate EditSendAttributes(m: MessageRecord) {
    m.revisionNumber < MaxEditCount && !m.isViewOnce && !m.hasAudio && !m.hasSharedContact
  }

  /** Whether delete-for-everyone may be offered on one message at `currentTime`. */
  function IsValidRemoteDeleteSendSingle(m: MessageRecord, currentTime: Long): (r: bool)
    ensures r ==> DeleteSendAttributes(m)
    // a message to self is exempt from the window
    ensures m.toRecipient.isSelf ==> (r <==> DeleteSendAttributes(m))
    ensures !m.toRecipient.isSelf ==>
      (r <==> DeleteSendAttributes(m) && LongSub(currentTime, m.dateSent) < SendThreshold)
  {
    && !m.isUpdate
    && m.isOutgoing
    && m.isPush
    && (!m.toRecipient.isGroup || m.toRecipient.isActiveGroup)
    && !m.isRemoteDelete
    && !m.hasGiftBadge
    && !m.isPaymentNotification
    && (LongSub(currentTime, m.dateSent) < SendThreshold || m.toRecipient.isSelf)
  }

  /** A batch delete is allowed only if every message in it is; an empty batch is. */
  function IsValidRemoteDeleteSend(targetMessages: seq<MessageRecord>, currentTime: Long): (r: bool)
    ensures r <==> forall i :: 0 <= i < |targetMessages| ==>
                     IsValidRemoteDeleteSendSingle(targetMessages[i], currentTime)
    decreases |targetMessages|
  {
    if targetMessages == [] then true
    else IsValidRemoteDeleteSendSingle(targetMessages[0], currentTime)
         && IsValidRemoteDeleteSend(targetMessages[1..], currentTime)
  }

  /** The batch verdict does not depend on the order of the collection. */
  lemma {:induction false} RemoteDeleteSendOrderIrrelevant(
    a: seq<MessageRecord>, b: seq<MessageRecord>, currentTime: Long)
    requires multiset(a) == multiset(b)
    ensures IsValidRemoteDeleteSend(a, currentTime) == IsValidRemoteDeleteSend(b, currentTime)
  {
    if IsValidRemoteDeleteSend(a, currentTime) {
      forall j | 0 <= j < |b| ensures IsValidRemoteDeleteSendSingle(b[j], currentTime) {
        assert b[j] in multiset(a);
        var i :| 0 <= i < |a| && a[i] == b[j];
      }
    }
    if IsValidRemoteDeleteSend(b, currentTime) {
      forall i | 0 <= i < |a| ensures IsValidRemoteDeleteSendSingle(a[i], currentTime) {
        assert a[i] in multiset(b);
        var j :| 0 <= j < |b| && b[j] == a[i];
      }
    }
  }

  /** One already remote-deleted message sinks the whole batch. */
  lemma RemoteDeleteSendRejectsDeletedMember(
    targetMessages: seq<MessageRecord>, i: nat, currentTime: Long)
    requires i < |targetMessages| && targetMessages[i].isRemoteDelete
    ensures !IsValidRemoteDeleteSend(targetMessages, currentTime)
  {
  }

  /**
   * For a message not addressed to self the send window is exclusive:
   * 10 799 999 ms after sending passes, 10 800 000 ms does not.
   */
  lemma SendWindowBoundary(m: MessageRecord)
    requires DeleteSendAttributes(m) && !m.toRecipient.isSelf
    requires 0 <= m.dateSent <= MaxLong - SendThreshold
    ensures IsValidRemoteDeleteSendSingle(m, m.dateSent + 10_799_999)
    ensures !IsValidRemoteDeleteSendSingle(m, m.dateSent + 10_800_000)
  {
  }

  /** A message addressed to self gets the same verdict at every time. */
  lemma SendToSelfIgnoresClock(m: MessageRecord, t1: Long, t2: Long)
    requires m.toRecipient.isSelf
    ensures IsValidRemoteDeleteSendSingle(m, t1) == IsValidRemoteDeleteSendSingle(m, t2)
  {
  }

  /** With non-negative epoch times, once the send window has closed it stays closed. */
  lemma SendWindowNeverReopens(m: MessageRecord, t1: Long, t2: Long)
    requires 0 <= m.dateSent && 0 <= t1 <= t2
    requires IsValidRemoteDeleteSendSingle(m, t2)
    ensures IsValidRemoteDeleteSendSingle(m, t1)
  {
  }

  /** Whether an edit may be offered on a message at `currentTime`. */
  function IsValidEditMessageSend(targetMessage: MessageRecord, currentTime: Long): (r: bool)
    ensures r <==> IsValidRemoteDeleteSendSingle(targetMessage, currentTime)
                   && EditSendAttributes(targetMessage)
    ensures targetMessage.hasAudio ==> !r
  {
    && IsValidRemoteDeleteSendSingle(targetMessage, currentTime)
    && targetMessage.revisionNumber < 10
    && !targetMessage.isViewOnce
    && !targetMessage.hasAudio
    && !targetMessage.hasSharedContact
  }

  /** Revision 9 can still be edited; revision 10 never can. */
  lemma EditRevisionBoundary(m: MessageRecord, currentTime: Long)
    requires IsValidRemoteDeleteSendSingle(m, currentTime)
    requires !m.isViewOnce && !m.hasAudio && !m.hasSharedContact
    ensures IsValidEditMessageSend(m.(revisionNumber := 9), currentTime)
    ensures !IsValidEditMessageSend(m.(revisionNumber := 10), currentTime)
  {
  }

  /**
   * Whether a message can be edited regardless of timing: the check made as
   * of its own `dateSent`, where the elapsed time is zero.
   */
  function IsValidEditMessageSendAnyTime(targetMessage: MessageRecord): (r: bool)
    ensures r <==> DeleteSendAttributes(targetMessage) && EditSendAttributes(targetMessage)
  {
    IsValidEditMessageSend(targetMessage, targetMessage.dateSent)
  }

  /** A message that can be edited at some time passes the timing-free check. */
  lemma EditSendImpliesAnyTime(m: MessageRecord, currentTime: Long)
    requires IsValidEditMessageSend(m, currentTime)
    ensures IsValidEditMessageSendAnyTime(m)
  {
  }

  // ---------------------------------------------------------------------------
  // Threshold accessor

  /**
   * As written: the millisecond constant is reinterpreted as a number of hours,
   * and reading that duration back in whole hours returns it unchanged, so the
   * accessor reports 10 800 000 "hours" rather than the three of the window.
   */
  function EditMessageThresholdHours(): (r: Int)
    ensures r == 10_800_000
    ensures r * MillisPerHour != SendThreshold
  {
    LongToInt(SendThreshold)
  }

  /** As intended: the send window expressed in whole hours. */
  function EditMessageThresholdHoursIntended(): (r: Int)
    ensures r * MillisPerHour == SendThreshold
    ensures r == 3
  {
    LongToInt(SendThreshold / MillisPerHour)
  }

  /** The accessor as written disagrees with the window it is meant to report. */
  lemma EditThresholdHoursMismatch()
    ensures EditMessageThresholdHours() != EditMessageThresholdHoursIntended()
    ensures EditMessageThresholdHours() == SendThreshold
  {
  }
}
