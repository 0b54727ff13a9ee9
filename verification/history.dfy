/** `SmsHistory`: one row of the `sms_history` table, an immutable record of
    a forwarded message and how its delivery ended. */
module History {
  import opened Types

  /** The id of a record the store has not numbered yet. */
  const Unassigned: int := 0

  const StatusSuccess: string := "success"
  const StatusFailed: string := "failed"
  const StatusPending: string := "pending"

  datatype SmsHistory = SmsHistory(
    id: int64,
    sender: string,
    message: string,
    timestamp: int64,        // when the SMS was received
    device: string,
    osVersion: int32,
    forwardedAt: int64,      // when the delivery ended
    status: string,
    errorMessage: Option<string>,
    webhookUrl: string)

  /** The statuses the entity documents; the column itself holds any text. */
  predicate IsDocumentedStatus(status: string)
  {
    status == StatusSuccess || status == StatusFailed || status == StatusPending
  }

  /** A record built without the defaulted arguments: no id yet, no error message. */
  function NewHistory(sender: string, message: string, timestamp: int64, device: string,
                      osVersion: int32, forwardedAt: int64, status: string, webhookUrl: string): (h: SmsHistory)
    ensures h.id == Unassigned && h.errorMessage == None
    ensures h.sender == sender && h.message == message && h.timestamp == timestamp
    ensures h.device == device && h.osVersion == osVersion
    ensures h.forwardedAt == forwardedAt && h.status == status && h.webhookUrl == webhookUrl
  {
    SmsHistory(Unassigned, sender, message, timestamp, device, osVersion, forwardedAt, status, None, webhookUrl)
  }

  /** The record as the store keeps it once it has been given `id`. */
  function WithId(h: SmsHistory, id: int64): (r: SmsHistory)
    ensures r.id == id
    ensures r.(id := h.id) == h
  {
    h.(id := id)
  }
}
