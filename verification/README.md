# Message constraints for remote delete and edit

A model of `MessageConstraintsUtil`, the Signal Android helper that decides
whether a remote delete ("delete for everyone") or an edit of a message is
allowed:

- **Receive:** a delete or edit event from elsewhere is accepted only when its
  claimed sender fits the message's direction and sender. Another party's
  event must also arrive within 24 hours of the message's server timestamp.
  The local user deleting or editing their own outgoing message skips that
  window.
- **Send:** delete-for-everyone may be offered only on the user's own,
  pushed, non-update message. The message must not already be deleted, must
  not carry a gift badge and must not be a payment notification. A group
  target must be an active group. The offer must come within 3 hours of
  sending, unless the message was sent to self. An edit also needs fewer than
  10 earlier revisions and no view-once, audio or shared-contact content.

Every operation is a pure function over a message snapshot
(`MessageRecord`, `Recipient`). The process-wide self identity is an explicit
`Option<RecipientId>` parameter, where `None` means "not resolved yet".
Kotlin `Long` arithmetic is modelled with its 64-bit wrap-around
(`KotlinNumbers.LongSub`). Lemmas about time windows assume non-negative epoch
timestamps, where no wrap can happen.

Files: `wrappers.dfy` (Option), `kotlin_numbers.dfy` (Long/Int ranges,
wrapping subtraction, `toInt`), `message_constraints.dfy` (the model).

## Model

| member | source | states |
|---|---|---|
| `KotlinNumbers.LongSub` | app/src/main/java/org/thoughtcrime/securesms/util/MessageConstraintsUtil.kt:30 | `Long` subtraction equals the mathematical difference when that fits in 64 bits and is congruent to it modulo 2^64 otherwise (positive overflow turns negative and the reverse) |
| `KotlinNumbers.LongToInt` | app/src/main/java/org/thoughtcrime/securesms/util/MessageConstraintsUtil.kt:46 | `toInt` keeps the low 32 bits and leaves any value in `Int` range unchanged |
| `MessageConstraints.IsSelf` | app/src/main/java/org/thoughtcrime/securesms/util/MessageConstraintsUtil.kt:80-82 | true exactly when self is resolved and equal to the id; an unresolved self matches no id (fails closed) |
| `MessageConstraints.IsValidRemoteDeleteReceive` | app/src/main/java/org/thoughtcrime/securesms/util/MessageConstraintsUtil.kt:19-31 | self on an outgoing target is always valid, at every delete timestamp; a direction mismatch is never valid; a non-self sender on an incoming target is valid iff its id is the message sender's and the wrapped difference from the server timestamp is under 86 400 000 ms; with self unresolved nothing on an outgoing target is valid |
| `MessageConstraints.IsValidEditMessageReceive` | app/src/main/java/org/thoughtcrime/securesms/util/MessageConstraintsUtil.kt:33-36 | the same four cases for an edit, with the edit sender's id in place of the delete sender |
| `MessageConstraints.EditReceiveMatchesDeleteReceive` | app/src/main/java/org/thoughtcrime/securesms/util/MessageConstraintsUtil.kt:34-36 | the edit verdict equals the delete verdict for the edit sender's id, for all inputs |
| `MessageConstraints.NonSelfReceiveWindow` | app/src/main/java/org/thoughtcrime/securesms/util/MessageConstraintsUtil.kt:20-30 | for non-negative timestamps, a non-self delete of an incoming message is valid iff the ids match and `t - serverTimestamp < 86 400 000` |
| `MessageConstraints.ReceiveWindowBoundary` | app/src/main/java/org/thoughtcrime/securesms/util/MessageConstraintsUtil.kt:14-30 | the 24 h window is exclusive: T + 86 399 999 is accepted and T + 86 400 000 is rejected |
| `MessageConstraints.ReceiveIgnoresDateSent` | app/src/main/java/org/thoughtcrime/securesms/util/MessageConstraintsUtil.kt:26-30 | the receive verdict never depends on `dateSent`, since the only case that selects it bypasses the window |
| `MessageConstraints.IsValidRemoteDeleteSendSingle` | app/src/main/java/org/thoughtcrime/securesms/util/MessageConstraintsUtil.kt:69-78 | a valid message satisfies every attribute clause; a message to self is valid iff its attributes are, at any time; any other message also needs the wrapped elapsed time under 10 800 000 ms |
| `MessageConstraints.IsValidRemoteDeleteSend` | app/src/main/java/org/thoughtcrime/securesms/util/MessageConstraintsUtil.kt:38-42 | the batch is valid iff every message is valid on its own (so the empty batch is valid) |
| `MessageConstraints.RemoteDeleteSendOrderIrrelevant` | app/src/main/java/org/thoughtcrime/securesms/util/MessageConstraintsUtil.kt:39-41 | two batches holding the same messages (equal multisets) get the same verdict |
| `MessageConstraints.RemoteDeleteSendRejectsDeletedMember` | app/src/main/java/org/thoughtcrime/securesms/util/MessageConstraintsUtil.kt:39-74 | a batch containing an already remote-deleted message is rejected, whatever the others are |
| `MessageConstraints.SendWindowBoundary` | app/src/main/java/org/thoughtcrime/securesms/util/MessageConstraintsUtil.kt:69-77 | for a non-self destination the 3 h window is exclusive: 10 799 999 ms after sending passes and 10 800 000 ms fails |
| `MessageConstraints.SendToSelfIgnoresClock` | app/src/main/java/org/thoughtcrime/securesms/util/MessageConstraintsUtil.kt:77 | a message addressed to self gets the same delete-send verdict at any two times |
| `MessageConstraints.SendWindowNeverReopens` | app/src/main/java/org/thoughtcrime/securesms/util/MessageConstraintsUtil.kt:77 | for non-negative times, a message valid at `t2` is valid at every earlier `t1` |
| `MessageConstraints.IsValidEditMessageSend` | app/src/main/java/org/thoughtcrime/securesms/util/MessageConstraintsUtil.kt:52-59 | an edit is valid iff the delete-send check passes and the revision count is below `MaxEditCount` (10) with no view-once, audio or shared contact; audio always blocks it |
| `MessageConstraints.EditRevisionBoundary` | app/src/main/java/org/thoughtcrime/securesms/util/MessageConstraintsUtil.kt:55 | with everything else valid, revision 9 can be edited and revision 10 cannot |
| `MessageConstraints.IsValidEditMessageSendAnyTime` | app/src/main/java/org/thoughtcrime/securesms/util/MessageConstraintsUtil.kt:64-67 | the one-argument overload is exactly the attribute clauses of delete and edit, with no time condition, so no clock affects it |
| `MessageConstraints.EditSendImpliesAnyTime` | app/src/main/java/org/thoughtcrime/securesms/util/MessageConstraintsUtil.kt:52-67 | a message that may be edited at some time passes the one-argument check |
| `MessageConstraints.EditMessageThresholdHours` | app/src/main/java/org/thoughtcrime/securesms/util/MessageConstraintsUtil.kt:44-47 | returns 10 800 000, which as a number of hours is not the 3 h send window |
| `MessageConstraints.EditMessageThresholdHoursIntended` | app/src/main/java/org/thoughtcrime/securesms/util/MessageConstraintsUtil.kt:15 | the send window in whole hours: 3, and 3 h is exactly `SEND_THRESHOLD` |
| `MessageConstraints.EditThresholdHoursMismatch` | app/src/main/java/org/thoughtcrime/securesms/util/MessageConstraintsUtil.kt:46 | the accessor as written returns the millisecond constant itself and differs from the intended hour count |

## Left out

- How `MessageRecord` and `Recipient` are loaded and resolved. The model takes the flags and ids it reads as plain datatype fields.
- `Recipient.isSelf` on the destination (line 77) is a field of its own. The model does not tie it to the injected self identity, just as the code does not.
- How the self singleton is set up and read concurrently. It is replaced by the `self` parameter; resolution order is not part of the logic.
- Kotlin `TimeUnit` and `Duration` internals. The thresholds are the resulting constants: 86 400 000 ms and 10 800 000 ms. `SEND_THRESHOLD.hours.inWholeHours` is taken as returning its argument unchanged, which holds at this magnitude; `Duration` saturation for huge values is not modelled.
- `MAX_EDIT_COUNT` (line 17) is unused in the code, which writes the literal 10 at line 55. The model keeps the literal in the body and states the contract with `MaxEditCount`, which proves the two agree.
- `Collection` in the batch check is modelled as a sequence. Order does not matter, as `RemoteDeleteSendOrderIrrelevant` shows.
- Performing the delete or edit, network transport and UI are not in this code.

## Findings

| source | as written | input that shows it | evidently intended | confidence | as-written member | corrected member |
|---|---|---|---|---|---|---|
| app/src/main/java/org/thoughtcrime/securesms/util/MessageConstraintsUtil.kt:46 | `SEND_THRESHOLD.hours` reads the millisecond count 10 800 000 as hours, so the accessor returns 10 800 000 | any call of `getEditMessageThresholdHours()` | the send window in whole hours, 3 (`SEND_THRESHOLD.milliseconds.inWholeHours`) | high; not executed | `MessageConstraints.EditThresholdHoursMismatch` | `MessageConstraints.EditMessageThresholdHoursIntended` |
