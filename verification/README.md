# SMS hub agent: webhook delivery and history store in Dafny

This project models the core of an Android SMS forwarder: one webhook
delivery attempt of an incoming SMS and the local history of delivery
outcomes.

- **Webhook delivery** (`Webhook`). `sendSmsToWebhook` first checks the
  settings. With invalid settings it returns `false` and builds nothing.
  Otherwise it serialises the payload to compact JSON and builds a `POST`
  to the configured URL. The request uses one timeout for connecting,
  reading and writing, and carries three headers:
  - `Content-Type: application/json`;
  - `Authorization: Basic …`, the base64 of the UTF-8 `username:password`;
  - `X-Signature`, the lowercase hex of an HMAC-SHA256 of the body. It is
    added only when HMAC is enabled and the secret is not blank.

  The attempt succeeds exactly when the exchange returns a 2xx status.
  Any exception makes it fail.
- **Encodings** the service relies on, each with its inverse:
  - UTF-8 (`Utf8`), for `String.toByteArray()`;
  - base64 with padding and no line breaks (`Base64`, section 4 of RFC 4648);
  - lowercase hex of signed bytes (`Hex`, `"%02x".format` on a `Byte`);
  - the compact JSON writer (`Json`, string escaping as in section 7 of RFC 8259);
  - the payload codec (`Payload`).
- **The payload** (`Payload`). `SmsPayload` is written with the library's
  `encodeDefaults = false`, which is an explicit flag in the model. A
  payload whose `type` is the default `"sms"` therefore has no `"type"` key.
- **The history store**:
  - `History` is the immutable `SmsHistory` record.
  - `HistoryDao` holds the eight DAO statements. They are modelled as
    functions over the table's rows plus SQLite's AUTOINCREMENT counter.
  - `HistoryRepository` is the forwarding layer, including its default
    limit of 50.

Everything the code calls but does not define is a parameter of the model:
- the settings check `isValid`;
- the MAC primitive;
- the HTTP exchange.

Three behaviours of the code, which the model follows as written:
- **The signature on a MAC error.** When computing the MAC throws, the
  request is still sent, with an empty `X-Signature`.
- **The `type` key.** A `type` equal to its default `"sms"` is not written,
  because the encoder leaves out values equal to their defaults.
- **Deleting old rows.** Besides deleting every row, the DAO deletes the
  rows forwarded before a cutoff.

## Model

| member | source | states |
|---|---|---|
| Webhook.SendSmsToWebhook | app/src/main/java/com/example/sms_hub_agent/service/WebhookService.kt:28-81 | invalid settings give `false` and no request; valid settings build the request once, and the result is `true` exactly when its exchange answers 2xx (an exception gives `false`) |
| Webhook.InvalidSettingsNeverSend | app/src/main/java/com/example/sms_hub_agent/service/WebhookService.kt:29-32 | with invalid settings the outcome is `false` and independent of the network |
| Webhook.OutcomeMapping | app/src/main/java/com/example/sms_hub_agent/service/WebhookService.kt:64-79 | a transport exception gives `false`; a response gives `true` iff its code is in 200..299 |
| Webhook.RequestShape | app/src/main/java/com/example/sms_hub_agent/service/WebhookService.kt:35-48 | the request is a POST to the configured URL with one timeout for connect/read/write, media type `application/json; charset=utf-8`, and a body that decodes (UTF-8, then JSON) back to the payload |
| Webhook.RequestHeaders | app/src/main/java/com/example/sms_hub_agent/service/WebhookService.kt:46-60 | headers in the order added: Content-Type, then the Basic credentials, then `X-Signature` carrying the signature of the body; the signature header is present iff HMAC is enabled and the secret is not blank |
| Webhook.SignatureCoversBody | app/src/main/java/com/example/sms_hub_agent/service/WebhookService.kt:56-58 | the signature is the hex of the MAC over exactly the posted body bytes under the secret's UTF-8 bytes; a MAC error still sends the header, empty |
| Webhook.HeaderValuesPrintable | app/src/main/java/com/example/sms_hub_agent/service/WebhookService.kt:49-58 | every header value is printable ASCII, whatever the credentials and secret contain |
| Webhook.BuildBasicAuthHeader | app/src/main/java/com/example/sms_hub_agent/service/WebhookService.kt:86-93 | `"Basic "` followed by base64 of length 4⌈n/3⌉ whose decoding is the UTF-8 credentials, which decode back to `username:password` |
| Webhook.BasicAuthExample | app/src/main/java/com/example/sms_hub_agent/service/WebhookService.kt:86-93 | `user` / `pass` gives `Basic dXNlcjpwYXNz` |
| Webhook.ComputeHmacSignature | app/src/main/java/com/example/sms_hub_agent/service/WebhookService.kt:98-109 | a MAC error gives `""`; a digest gives twice its length in characters, and hex decoding returns the digest |
| Webhook.SignatureLength | app/src/main/java/com/example/sms_hub_agent/service/WebhookService.kt:103-104 | a 32-byte HMAC-SHA256 digest becomes 64 lowercase hex digits |
| Utf8.RoundTrip | app/src/main/java/com/example/sms_hub_agent/service/WebhookService.kt:89 | strict UTF-8 decoding of `toByteArray()` returns the string |
| Utf8.EncodeInjective | app/src/main/java/com/example/sms_hub_agent/service/WebhookService.kt:89 | different strings give different bytes |
| Utf8.AsciiEncoding | app/src/main/java/com/example/sms_hub_agent/service/WebhookService.kt:89 | an ASCII string encodes to one byte per character, equal to its code |
| Utf8.EncodeAppend | app/src/main/java/com/example/sms_hub_agent/service/WebhookService.kt:89 | encoding distributes over concatenation |
| Base64.RoundTrip | app/src/main/java/com/example/sms_hub_agent/service/WebhookService.kt:88-91 | decoding the encoding returns the bytes |
| Base64.DecodeThenEncode | app/src/main/java/com/example/sms_hub_agent/service/WebhookService.kt:88-91 | every text the strict decoder accepts is the encoding of what it decodes to |
| Base64.EncodeLength | app/src/main/java/com/example/sms_hub_agent/service/WebhookService.kt:88-91 | the output has 4⌈n/3⌉ characters, one line (`NO_WRAP`) |
| Base64.EncodeCharacters | app/src/main/java/com/example/sms_hub_agent/service/WebhookService.kt:88-91 | every character is from the standard alphabet or `=`, and `=` appears only in the last two places |
| Hex.RoundTrip | app/src/main/java/com/example/sms_hub_agent/service/WebhookService.kt:104 | decoding the hex text returns the signed bytes |
| Hex.EncodeDigits | app/src/main/java/com/example/sms_hub_agent/service/WebhookService.kt:104 | characters 2i and 2i+1 are the high and low nibble of byte i's two's-complement pattern |
| Hex.EncodeLowercase | app/src/main/java/com/example/sms_hub_agent/service/WebhookService.kt:104 | the text is two lowercase hex digits per byte |
| Hex.EncodeInjective | app/src/main/java/com/example/sms_hub_agent/service/WebhookService.kt:104 | different digests give different signatures |
| Json.EscapeChar | app/src/main/java/com/example/sms_hub_agent/service/WebhookService.kt:35 | a character is written as itself iff it is not a control character, quote or backslash; otherwise as an escape of at most 6 characters starting with a backslash |
| Json.StringRoundTrip | app/src/main/java/com/example/sms_hub_agent/service/WebhookService.kt:35 | parsing a quoted, escaped string returns the text and leaves what follows |
| Json.IntRoundTrip | app/src/main/java/com/example/sms_hub_agent/service/WebhookService.kt:35 | parsing a written integer returns it when no digit follows |
| Json.ObjectRoundTrip | app/src/main/java/com/example/sms_hub_agent/service/WebhookService.kt:35 | parsing a written object returns its members in order |
| Json.ObjectCompact | app/src/main/java/com/example/sms_hub_agent/service/WebhookService.kt:22 | compact output has no control characters, and a space only inside a key or value that has one |
| Payload.NewPayload | app/src/main/java/com/example/sms_hub_agent/model/SmsPayload.kt:9-16 | a payload built without `type` has type `"sms"` and the given fields |
| Payload.RoundTrip | app/src/main/java/com/example/sms_hub_agent/model/SmsPayload.kt:9-16 | decoding the JSON body returns the payload, with or without defaults encoded |
| Payload.EncodedKeys | app/src/main/java/com/example/sms_hub_agent/model/SmsPayload.kt:9-16 | the body's keys are the property names in declaration order, `type` first exactly when it is written |
| Payload.ServiceTypeKey | app/src/main/java/com/example/sms_hub_agent/model/SmsPayload.kt:10 | with the service's encoder the `"type"` key is present iff the type is not the default `"sms"` |
| Payload.Compact | app/src/main/java/com/example/sms_hub_agent/service/WebhookService.kt:22 | the body has no newline or other control character, and a space only where a text field has one |
| Payload.EncodeInjective | app/src/main/java/com/example/sms_hub_agent/model/SmsPayload.kt:9-16 | equal bodies come only from equal payloads |
| History.NewHistory | app/src/main/java/com/example/sms_hub_agent/data/SmsHistory.kt:10-22 | a record built without the defaulted fields has id 0 (not yet assigned) and no error message |
| History.WithId | app/src/main/java/com/example/sms_hub_agent/data/SmsHistory.kt:11-12 | numbering a record sets its id and leaves every other field as it was |
| HistoryDao.Insert | app/src/main/java/com/example/sms_hub_agent/data/SmsHistoryDao.kt:14-15 | one row is appended after the unchanged old rows, under an id no row had; id 0 is numbered above every id ever held, an explicit id is kept and rejected if present, and numbering fails only when no id is left |
| HistoryDao.FirstInsert | app/src/main/java/com/example/sms_hub_agent/data/SmsHistory.kt:11-12 | a fresh table is valid, and the first record inserted with id 0 is numbered 1 |
| HistoryDao.InsertKeepsValid | app/src/main/java/com/example/sms_hub_agent/data/SmsHistoryDao.kt:14-15 | inserting keeps ids unique and below the sequence counter |
| HistoryDao.SortDesc | app/src/main/java/com/example/sms_hub_agent/data/SmsHistoryDao.kt:17 | the result is a permutation of the rows with `forwardedAt` non-increasing |
| HistoryDao.GetAllHistory | app/src/main/java/com/example/sms_hub_agent/data/SmsHistoryDao.kt:17-18 | every stored row exactly once, `forwardedAt` non-increasing |
| HistoryDao.GetRecentHistory | app/src/main/java/com/example/sms_hub_agent/data/SmsHistoryDao.kt:20-21 | `min(limit, n)` rows (all of them for a negative limit), a prefix of the full ordering, default limit 50 |
| HistoryDao.RecentIsNewest | app/src/main/java/com/example/sms_hub_agent/data/SmsHistoryDao.kt:20 | no row left out of the recent list was forwarded later than a row in it |
| HistoryDao.GetHistoryByStatus | app/src/main/java/com/example/sms_hub_agent/data/SmsHistoryDao.kt:23-24 | exactly the rows with that status, each as often as stored, `forwardedAt` non-increasing |
| HistoryDao.GetSuccessCount | app/src/main/java/com/example/sms_hub_agent/data/SmsHistoryDao.kt:26-27 | the number of rows listed for status `success` |
| HistoryDao.GetFailedCount | app/src/main/java/com/example/sms_hub_agent/data/SmsHistoryDao.kt:29-30 | the number of rows listed for status `failed` |
| HistoryDao.CountsBound | app/src/main/java/com/example/sms_hub_agent/data/SmsHistoryDao.kt:26-30 | success count plus failed count is at most the number of rows |
| HistoryDao.StatusCountsAddUp | app/src/main/java/com/example/sms_hub_agent/data/SmsHistoryDao.kt:23-30 | when every row has one of the statuses `success`, `failed`, `pending` (SmsHistory.kt line 19), the two counts plus the `pending` list's length are the number of rows |
| HistoryDao.InsertCounts | app/src/main/java/com/example/sms_hub_agent/data/SmsHistoryDao.kt:26-30 | an insert raises a count by one exactly when the record has that status; a `pending` record changes neither |
| HistoryDao.DeleteOlderThan | app/src/main/java/com/example/sms_hub_agent/data/SmsHistoryDao.kt:32-33 | removes exactly the rows with `forwardedAt` strictly below the cutoff; rows at or after it stay, unchanged |
| HistoryDao.DeleteOlderThanKeepsValid | app/src/main/java/com/example/sms_hub_agent/data/SmsHistoryDao.kt:32-33 | deleting keeps ids unique and below the sequence counter |
| HistoryDao.DeleteAll | app/src/main/java/com/example/sms_hub_agent/data/SmsHistoryDao.kt:35-36 | no rows remain; the id counter is kept |
| HistoryDao.AfterDeleteAll | app/src/main/java/com/example/sms_hub_agent/data/SmsHistoryDao.kt:35-36 | after deleting all, every list is empty, both counts are 0, and the next numbered id is above every earlier id |
| HistoryDao.RunKeepsValid | app/src/main/java/com/example/sms_hub_agent/data/SmsHistoryDao.kt:12-37 | any sequence of writes keeps the table valid |
| HistoryDao.RecordsNeverChange | app/src/main/java/com/example/sms_hub_agent/data/SmsHistoryDao.kt:12-37 | after any sequence of writes every row is an original row or an inserted record under its id: nothing is updated |
| HistoryDao.IdsNeverReused | app/src/main/java/com/example/sms_hub_agent/data/SmsHistoryDao.kt:12-37 | with store-numbered inserts, a row sharing an id with an original row is that row, even across `deleteAll` |
| HistoryRepository.GetAllHistory | app/src/main/java/com/example/sms_hub_agent/repository/HistoryRepository.kt:12-14 | the DAO's list: every row once, newest first |
| HistoryRepository.GetRecentHistory | app/src/main/java/com/example/sms_hub_agent/repository/HistoryRepository.kt:16-18 | the DAO's recent list for the same limit, 50 when none is given |
| HistoryRepository.DefaultRecentLimitAgrees | app/src/main/java/com/example/sms_hub_agent/repository/HistoryRepository.kt:16 | the repository's default and the DAO's default both ask for `min(50, n)` rows |
| HistoryRepository.GetHistoryByStatus | app/src/main/java/com/example/sms_hub_agent/repository/HistoryRepository.kt:20-22 | the DAO's filtered list; every row has the status |
| HistoryRepository.GetSuccessCount | app/src/main/java/com/example/sms_hub_agent/repository/HistoryRepository.kt:24-26 | the DAO's count, the length of the `success` list |
| HistoryRepository.GetFailedCount | app/src/main/java/com/example/sms_hub_agent/repository/HistoryRepository.kt:28-30 | the DAO's count, the length of the `failed` list |
| HistoryRepository.Insert | app/src/main/java/com/example/sms_hub_agent/repository/HistoryRepository.kt:32-34 | the DAO's id and table on success, the DAO's error otherwise; the record is appended under the returned id |
| HistoryRepository.DeleteOlderThan | app/src/main/java/com/example/sms_hub_agent/repository/HistoryRepository.kt:36-38 | the DAO's table after the delete; every remaining row is at or after the cutoff |
| HistoryRepository.DeleteAll | app/src/main/java/com/example/sms_hub_agent/repository/HistoryRepository.kt:40-42 | the DAO's emptied table |
| HistoryRepository.Run | app/src/main/java/com/example/sms_hub_agent/repository/HistoryRepository.kt:10-43 | writes through the repository end in the same table as the same writes on the DAO: it holds no state of its own |

## Left out

- The HTTP transport (OkHttp client, `execute`, closing the response, reading the body) is the `network` parameter.
- Webhook.SendSmsToWebhook: OkHttp's own argument checks are folded into `network` as well. A URL that `Request.Builder().url` rejects (say `httpx://h`, which a check for an `http` prefix lets through) or a timeout the client builder rejects makes the code return `false` before any request exists. The model answers `Failure` from `network` for these, so the result is the same `false`, but `Attempt.request` then holds the request the code would have built rather than none.
- OkHttp replaces the added `Content-Type` header with the body's media type when it sends the request; the model records both and does not model that rewrite.
- HMAC-SHA256 itself (`javax.crypto.Mac`) is the `mac` parameter, from key bytes and message bytes to a digest or an error.
- `AppSettings.isValid()` is not part of this model; it is the `isValid` parameter.
- Settings persistence, the SMS receiver, the background worker and retry with backoff are not part of this model, and neither is `retryCount`, which the modelled code does not read.
- Logging (`Log.d`, `Log.e`, `Log.i`) has no effect on results and is omitted.
- Flow, coroutines and `suspend`: queries are snapshot functions of the table, not streams of updates.
- `String.toByteArray()` uses its default `charset`, which Kotlin fixes to UTF-8; the model encodes with UTF-8 accordingly.
- Json.Unescape: the parser used for the round trips reads `\u` escapes one code unit at a time and does not join surrogate pairs; the writer never emits `\u` for a character above U+001F, so the round trips do not need it.
- Strings are sequences of Unicode scalar values, so unpaired UTF-16 surrogates, which a Kotlin `String` can hold, are not modelled.
- HistoryDao.GetSuccessCount: the count is an unbounded `nat`; the source's `Int` would overflow only beyond 2^31 − 1 rows.
- HistoryDao.GetFailedCount: the count is an unbounded `nat`; the source's `Int` would overflow only beyond 2^31 − 1 rows.
- HistoryDao.GetAllHistory: SQLite leaves the order among equal `forwardedAt` values unspecified; the model fixes one such order (`IsHistoryOrder` states what every allowed order satisfies).
- Room's SQL engine, transactions and the database singleton are not modelled; an aborted insert leaves the table unchanged.
- The user interface screens are not part of this model.
