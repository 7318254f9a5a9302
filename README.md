# QR attendance: enrollment and check-in/check-out, modelled in Dafny

This project models the two pieces of logic in the QRGenProject attendance
app. Everything else in the app is plumbing around them.

- **Enrollment** (`generateQR.js`, `storeDataInMongo` and `hashData`). Each
  roster row `{name, registerNo}` becomes one new document in the `userData`
  collection. The document copies both fields. Its `hashedData` token is the
  SHA-256 hex digest of `name` followed directly by `registerNo`. Its
  `inTime` and `outTime` are both null.
- **Lookup and the in/out state machine** (`authQR.js`). The `/verify-qr`,
  `/get-user` and `/mark-in-out` handlers all look a token up with
  `findOne({hashedData})`. `/get-user` reports the status `N/A`, `IN` or
  `OUT`, derived from the two nullable times. `/mark-in-out` applies a
  guarded `in` or `out` transition to the matched document, or refuses it.

Files and modules:

- `records.dfy`, module `Records`: the `Record` datatype, `StatusOf`, the
  consistency predicates, and the lookup `FindIndex` with its lemmas.
  `FindIndex` returns the first record in collection order that holds the
  token.
- `attendance.dfy`, module `Attendance`: the transition on one record
  (`Step`) and on the whole collection (`Apply`), the repeated request
  (`Replay`), the two read-only endpoints (`VerifyQr`, `GetUser`), and the
  state-machine lemmas.
- `store.dfy`, module `Store`: the collection as a class `Collection` with a
  `records: seq<Record>` field. `InsertOne` appends to it. `MarkInOut` is the
  handler: it rewrites one element in place, and its contract ties it to
  `Apply`.
- `enrollment.dfy`, module `Enrollment`: `Token`, the rows-to-records
  function `Enrolled`, the enrollment loop `StoreData`, which calls
  `InsertOne` once per row, and lemmas about enrollment followed by lookup.

Modelling choices:

- SHA-256 is the function-valued argument `hash: string -> string`. Nothing
  is assumed about it, in particular no freedom from collisions. Every
  property involving tokens holds for every such function.
- `new Date()` is the integer argument `now`. A stored time is `Option<int>`,
  and `None` stands for null. The source tests the times by JavaScript
  truthiness. Only Date objects and null are ever written to those fields, so
  truthiness is the same as `Some?`.
- The response strings become a closed set of outcomes: `NotFound`,
  `Rejected(AlreadyIn | NotMarkedIn | AlreadyOut)`, `Success` and
  `InvalidAction`. The lookup happens first, so an unknown token gives
  `NotFound` whatever the action is.
- `updateOne({_id: user._id})` rewrites the document that `findOne`
  returned, so the model updates the position that `FindIndex` found.

What the code does not check, and what follows from it:

- Enrollment does not check for a duplicate `registerNo` or token. It does
  not reject empty fields. It puts no separator between the two fields, so
  `("Al", "ice1")` and `("Alice", "1")` get the same token
  (`Enrollment.BoundaryCollision`). After both are enrolled, the second
  person's credential never resolves to the second person's record. If no
  older record holds that token, it resolves to the first person's record
  (`Enrollment.CollidingRowIsShadowed`, and `Enrollment.EnrolledTokenFound`
  with k = 0).
  A duplicated row is appended twice, and only the first copy can ever be
  found (`Enrollment.DuplicateRowIsShadowed`).
- Nothing in the code keeps `outTime >= inTime`. That ordering holds only
  when the clock does not run backwards (`Attendance.StepKeepsChronological`).
- The consistency invariant (`Records.Consistent`), that `outTime` is set
  only when `inTime` is set, does hold. Enrollment establishes it and every transition preserves it
  (`Records.AllConsistent`, `Attendance.Step`, `Attendance.Apply`,
  `Enrollment.EnrolledAreUnchecked`).

## Model

| member | source | states |
|---|---|---|
| `Records.StatusOf` | authQR.js:108 | The status is N/A exactly when inTime is null, whatever outTime is. It is IN exactly when inTime is set and outTime is null, and OUT exactly when both are set. |
| `Records.Label` | authQR.js:108 | The status text: "N/A", "IN" and "OUT" each name exactly one status, so the text tells the three states apart. `Attendance.GetUser` states which text is sent for which times. |
| `Records.FindIndex` | authQR.js:130 | The lookup returns a position whose record holds the token, with no earlier record holding it, or None exactly when no record holds it. The same lookup is used at authQR.js:65 and :98. |
| `Records.FindFrom` | authQR.js:130 | The scan from position i returns the first position at or after i whose record holds the token, or None exactly when no record from i on holds it. |
| `Records.FindIndexIsFirstMatch` | authQR.js:130 | Any position that holds the token and has no earlier holder is exactly what the lookup returns, so the first match is unique. |
| `Records.FindIndexAtOrBefore` | authQR.js:130 | If a record holds the token, the lookup finds a match at that record or before it. |
| `Records.FindIndexDependsOnTokens` | authQR.js:130 | Two collections of equal length with the same tokens at every position give the same answer to every query. |
| `Records.FindIndexAfterUpdate` | authQR.js:142-153 | Rewriting one record's times, which keeps its token, does not change the result of any later lookup. |
| `Records.FindIndexAfterAppend` | generateQR.js:94-100 | Appending records keeps every existing match. A query with no match among the old records is answered from the appended records, offset by the old length. |
| `Attendance.Step` | authQR.js:136-157 | The transition table. `in` is refused (AlreadyIn) exactly in state IN. Otherwise it sets inTime to now and clears outTime. `out` is refused NotMarkedIn in N/A (this guard is tested first) and AlreadyOut in OUT. From IN it sets only outTime to now and keeps inTime. Any other action is InvalidAction. A refusal leaves the record as it was. Identity fields and token never change. Consistency is preserved. |
| `Attendance.Apply` | authQR.js:130-157 | An unknown token gives NotFound and leaves the collection as it was. Otherwise only the first match can change. Any non-Success outcome leaves the collection as it was. Length and tokens are kept, and so is the invariant that outTime is set only when inTime is set. |
| `Attendance.VerifyQr` | authQR.js:65-77 | There is no match exactly when no record holds the token. A match reports the name and registerNo of the first record that holds it. |
| `Attendance.GetUser` | authQR.js:98-111 | There is no match exactly when no record holds the token. A match reports the first holder's name, registerNo, inTime and outTime. The status text is "N/A", "IN" or "OUT" on exactly the conditions of line 108. |
| `Attendance.OutcomeIgnoresTime` | authQR.js:138-152 | Whether a request succeeds or is refused does not depend on the time at which it is made. |
| `Attendance.RejectionIsStable` | authQR.js:139-152 | Once a request is refused, repeating it any number of times, at any times, never changes the collection. |
| `Attendance.ApplyFound` | authQR.js:130-154 | For a known token, the request applies `Step` to the first match, and that record is still the match afterwards. |
| `Attendance.InOutIn` | authQR.js:138-155 | From any state other than IN, the sequence in, out, in succeeds at every step. It ends with only the matched record changed, to inTime equal to the last time and outTime null, so in state IN. |
| `Attendance.ReportAfterRequest` | authQR.js:98-111 | A refused or unmatched request leaves what the user endpoint reports unchanged. After a successful `in` the report is IN and gives the request's time as inTime. After a successful `out` it is OUT and gives the request's time as outTime. |
| `Attendance.StepKeepsChronological` | authQR.js:136-154 | If the clock is not earlier than a stored inTime, a transition keeps outTime not earlier than inTime. |
| `Store.Collection.InsertOne` | generateQR.js:94-100 | `insertOne` appends its document at the end of the collection and changes nothing else. |
| `Store.Collection.MarkInOut` | authQR.js:121-157 | The handler's outcome and new collection are exactly those of `Apply` on the old collection. A refusal changes nothing, the length is kept, and the consistency invariant is preserved. |
| `Enrollment.Token` | generateQR.js:15-17 | `hashData` applied to the template at line 92: the digest of name followed directly by registerNo. Its properties are stated by `Enrollment.TokenOfConcatenation` (it depends only on the concatenation) and `Enrollment.BoundaryCollision`. |
| `Enrollment.NewRecord` | generateQR.js:94-100 | The inserted document: both fields copied, the row's token, and null times. `Enrollment.EnrolledAt` states this for each record of a roster. |
| `Enrollment.Enrolled` | generateQR.js:90-100 | A roster yields exactly one record per row. |
| `Enrollment.EnrolledAt` | generateQR.js:91-99 | Record k comes from row k. It copies name and registerNo unchanged, its token is hash(name + registerNo) with no separator, and both of its times are null. |
| `Enrollment.StoreData` | generateQR.js:90-102 | The loop leaves the collection equal to its old contents followed by the roster's records, in row order. Each row is appended, with no duplicate check and no empty-field check. |
| `Enrollment.EnrollmentAppends` | generateQR.js:90-100 | The collection grows by exactly the number of rows. The old records are unchanged and in place, and new record k is row k's. |
| `Enrollment.EnrolledAreUnchecked` | generateQR.js:98-99 | New records are in state N/A, and enrollment keeps the consistency invariant. |
| `Enrollment.TokenOfConcatenation` | generateQR.js:92 | The token is deterministic and depends only on the concatenation name + registerNo. |
| `Enrollment.BoundaryCollision` | generateQR.js:92 | ("Al", "ice1") and ("Alice", "1") get equal tokens under every digest. |
| `Enrollment.RecordAt` | generateQR.js:90-100 | After enrollment, a position below the old length holds the old record, and position old length + k holds row k's record. |
| `Enrollment.TokenAt` | generateQR.js:92-97 | After enrollment, each position holds the old record's token or the token of the row the record came from. |
| `Enrollment.EnrolledTokenFound` | generateQR.js:92-100 | An enrolled row's token is always found, at its own record or at an earlier one. It is found at its own record exactly when no earlier record and no earlier row has the same token. |
| `Enrollment.EarlierHolder` | generateQR.js:94-100 | If some earlier record or row has the same token, the row's own record is not what the lookup returns. |
| `Enrollment.HolderShadows` | generateQR.js:94-100 | A holder of the same token placed before a row's own record is found instead of that record. |
| `Enrollment.FirstWithTokenIsFound` | generateQR.js:94-100 | A row whose token nothing before it holds is found at its own record. |
| `Enrollment.NoEarlierHolder` | generateQR.js:92-100 | If no earlier record or row has the token, no position before the row's own record holds it. |
| `Enrollment.CollidingRowIsShadowed` | generateQR.js:92 | After enrolling ("Al", "ice1") and then ("Alice", "1"), the second person's token never resolves to the second person's record. If no older record holds that token, it resolves to the first person's record. |
| `Enrollment.DuplicateRowIsShadowed` | generateQR.js:94-100 | A row enrolled twice yields two equal records, and the lookup never returns the second one. |
| `Enrollment.AliceScenario` | authQR.js:130-155 | Take Alice, enrolled alone. She starts as N/A with null times. `in` at t0 succeeds and gives IN with inTime t0. A second `in` is refused AlreadyIn and changes nothing. `out` at t2 succeeds and gives OUT with inTime t0 and outTime t2. A second `out` is refused AlreadyOut and changes nothing. |
| `Enrollment.UnknownTokenScenario` | authQR.js:130-134 | A token that no old record and no enrolled row holds is not matched by `VerifyQr` or `GetUser`. The handler answers NotFound and leaves the collection as it was. |

## Left out

- Records.FindIndex: the query value is taken to be a string. In the source, `qrData` is whatever the JSON body parser (authQR.js:122) or the query-string parser (authQR.js:88) produces. A non-string value such as `{"$ne": null}` becomes a MongoDB query operator in `findOne` (authQR.js:65, 98, 130) and can match a record that does not hold it as its token. The model does not cover that case.
- Store.Collection.MarkInOut: for the same reason, its contract and that of `Attendance.Apply` describe string queries only. A non-string `qrData` that matches the first record through a query operator, and then marks that record in or out, is not modelled.
- HTTP routing, body parsing, status codes (400, 404, 500) and the response JSON, including the message texts (authQR.js:1-15, 37-53). The outcomes of `Attendance.Outcome` stand for the messages.
- Decoding the credential image: Jimp, qrcode-reader, reading the image file and stripping the base64 data URL (authQR.js:18-34, 44-56). These are foreign libraries and I/O. `VerifyQr` starts from the decoded token.
- Opening and closing the MongoDB connection for each request, and the error path of a failed store operation (the `catch` blocks). This is I/O. The collection is an in-memory sequence.
- The race between `findOne` and `updateOne` when two requests run at once (authQR.js:130-153). The model is sequential and each call to `MarkInOut` is atomic.
- The order of `findOne`: MongoDB returns the first document in natural order, which the model takes to be insertion order.
- The internals of SHA-256 (generateQR.js:16). `hash` is an arbitrary function.
- Reading the spreadsheet (generateQR.js:77-79). This is a foreign library. Rows are pairs of strings. The model therefore leaves out two cases. A missing cell would reach the template as the text "undefined". A numeric cell would be stored as a number but hashed as its decimal text.
- `generateQRCardsFromMongo` (generateQR.js:20-72): rendering a QR image onto a canvas and writing PNG files. This is presentation and file I/O.
- If an insert fails part-way through the roster (generateQR.js:103-106), only the rows before it are stored. The model has no failing insert, so `StoreData` always appends the whole roster.
- The driver script that runs enrollment and then card generation (generateQR.js:110-118), and the server start-up (authQR.js:167-171).
- Console logging.
