# Blood-pressure tracker: controllers

A Dafny model of the two Express controllers of the blood-pressure tracker server:

- `BpController` (`bp_controller.dfy`) models the reading handlers. The `bp_readings` table is the
  class `ReadingStore`: a map from reading id to `Reading` row, plus the `SERIAL` id sequence.
  Add, update and delete are methods that change the map. Update and delete first run
  `SELECT ... WHERE id = $1 AND user_id = $2` and write only when it returns a row; add inserts
  without a check. The read-only handlers are functions over the map: list, by id and
  statistics. The CSV export is a method whose loop appends one line per reading, as the
  source writes it.
- `AuthController` (`auth_controller.dfy`) models the account handlers. The `users` table is the
  class `UserStore`. Register and password reset are methods. Login, profile and the reset
  request are functions over the map.
- `Csv` (`csv.dfy`) holds the quoted-field CSV format of the export. It has an encoder, a reader,
  and the proof that the reader gives back what the encoder wrote.
- `Decimal` (`decimal.dfy`) holds how a template literal writes a number, with its inverse.
- `Http` (`http.dfy`) holds `Option` and the handler reply. A reply is either a JSON body with a
  status code, the `success` flag, an optional `message` and a payload, or a file download.

Inputs that come from outside the controllers are parameters:

- the caller's id `req.user.id`, set by the authentication middleware;
- the clock (`now`);
- bcrypt's random salt;
- bcrypt itself, as a `Bcrypt` value holding `hash(password, salt)` and `compare(password, hash)`.

The bcrypt promise `compare(p, hash(p, s))` is the predicate `Sound`. Only the lemmas that rely
on it require it. A JWT is modelled as the claims it carries, `Jwt(Claims(id, email))`.

The schema gives two invariants of the stores. Emails are `UNIQUE` (`UniqueEmails`), and every row
sits under its own `SERIAL` id (`Valid`).

Points of the code that the model keeps as they are:

- Register checks for a taken email with a lookup before the insert. It does not rely on the
  unique constraint.
- Login failures, for an unknown email and for a wrong password alike, are 400.
- `resetPassword` does not check the reset token: it only logs it. `ResetPassword` takes the
  token and does not use it.
- The token verifier and session authenticator are in `middleware/auth`, which is not part of this
  model.

## Model

| member | source | states |
|---|---|---|
| `BpController.StoredNotes` | server/controllers/bpController.js:11 | a missing or empty note is stored as NULL, and any other note is stored unchanged |
| `BpController.Owned` | server/controllers/bpController.js:36 | `WHERE user_id = $1` keeps exactly the rows of that user, unchanged |
| `BpController.SelectOwned` | server/controllers/bpController.js:60-63 | the id-and-owner query returns at most one row. It returns none exactly when the caller does not own a row with that id |
| `BpController.NewestFirstKeys` | server/controllers/bpController.js:36 | `ORDER BY reading_date DESC` lists every row of the result exactly once |
| `BpController.NewestFirstOrdered` | server/controllers/bpController.js:36 | `ORDER BY reading_date DESC` puts each row no older than the rows after it. Ties go to the higher id |
| `BpController.ReadingsFor` | server/controllers/bpController.js:35-38 | the owner query returns all of the caller's rows and only those, as many as the caller has, with non-increasing `reading_date` |
| `BpController.GetReadings` | server/controllers/bpController.js:31-44 | 200 with the caller's readings, newest first. `count` equals the number of readings returned, which is the caller's row count |
| `BpController.GetReadingById` | server/controllers/bpController.js:55-75 | 200 with the row when the caller owns it. Otherwise the same 404 "Reading not found", whether the row is absent or belongs to someone else |
| `BpController.ReadsDependOnlyOnOwnRows` | server/controllers/bpController.js:35-70 | per-user isolation: the list, by-id and statistics replies are equal for any two tables holding the same rows of the caller |
| `BpController.Limit` | server/controllers/bpController.js:182 | `LIMIT n` keeps a prefix of length `min(n, count)` |
| `BpController.GetStatistics` | server/controllers/bpController.js:162-190 | 200, `total_readings` equal to the caller's row count, and at most 5 recent readings |
| `BpController.LimitKeepsNewest` | server/controllers/bpController.js:178-183 | a reading that the limit leaves out of a newest-first list is no newer than any reading it keeps |
| `BpController.RecentAreCallersNewestFirst` | server/controllers/bpController.js:177-189 | the recent readings are min(5, count) of the caller's rows, newest first |
| `BpController.RecentAreNewest` | server/controllers/bpController.js:177-189 | none of the caller's rows left out of the recent readings is more recent than any of them |
| `BpController.AddedReadingVisibleOnlyToOwner` | server/controllers/bpController.js:9-20 | an inserted row is returned to its owner and is 404 for every other user. The owner's count grows by one and other users' lists are unchanged |
| `BpController.DeletedReadingGone` | server/controllers/bpController.js:143-146 | after the delete the row is 404 for everyone, and the owner's count drops by one |
| `BpController.ReadingStore.AddReading` | server/controllers/bpController.js:4-20 | inserts exactly one row under a fresh id, owned by the caller, with the note normalised. Replies 201 with that row. No other user's rows change |
| `BpController.ReadingStore.UpdateReading` | server/controllers/bpController.js:86-114 | caller does not own the row: 404, table unchanged. Owned row: that row alone gets new systolic, diastolic, reading date and note, and keeps its id, owner and creation time. Replies 200 with it |
| `BpController.ReadingStore.DeleteReading` | server/controllers/bpController.js:125-151 | caller does not own the row: 404, table unchanged. Owned row: exactly that row is removed, and the reply is 200 "Reading deleted successfully" |
| `BpController.ReadingStore.ExportReadingsCsv` | server/controllers/bpController.js:201-235 | 200 `text/csv` download named `blood-pressure-readings.csv`, holding the header and the caller's lines as written, in query order. When no note holds a double quote, that file is the quoted CSV file of those readings |
| `BpController.BuildCsv` | server/controllers/bpController.js:220-229 | the loop produces the header line followed by each reading's line as written, note copied verbatim, in order |
| `BpController.NoteText` | server/controllers/bpController.js:227 | the note with the empty-string default: a NULL or empty note is the empty text, any other note is copied |
| `BpController.CsvFields` | server/controllers/bpController.js:223-228 | six fields in the order id, systolic, diastolic, reading date, note, creation time. The note is the fifth, and no other field can hold a double quote |
| `BpController.CsvLineAsWritten` | server/controllers/bpController.js:223-228 | the line as the template writes it: each field between double quotes, ending in a newline |
| `BpController.AsWrittenAgreesWhenQuoteFree` | server/controllers/bpController.js:220-229 | while no note holds a double quote, the file as written equals the quoted CSV file, so it reads back as the readings |
| `BpController.ExportAsWrittenBreaksOnQuote` | server/controllers/bpController.js:220-229 | a caller whose one reading has the note `"` gets a file whose line after the header does not read back as that reading |
| `BpController.CsvDocumentReadsBack` | server/controllers/bpController.js:220-229 | the export starts with the fixed header, then reads back as exactly one six-field record per reading, in query order |
| `BpController.CsvFieldsReadBack` | server/controllers/bpController.js:223-228 | each field of a reading's line gives back that reading's id, pressures, dates and note. A NULL note is the empty field |
| `BpController.CsvLineAsWrittenWithoutQuotes` | server/controllers/bpController.js:223-228 | when the note has no double quote, the line as the source writes it equals the properly quoted record |
| `BpController.CsvLineAsWrittenBreaksOnQuote` | server/controllers/bpController.js:227 | a note consisting of one double quote makes the line as written unreadable as a record |
| `Csv.ReadQuotedEscape` | server/controllers/bpController.js:223-228 | a quoted field with doubled inner quotes reads back as its text |
| `Csv.ReadRecordEncode` | server/controllers/bpController.js:223-228 | a record of quoted fields reads back as its fields, leaving what follows |
| `Csv.ReadRecordsEncode` | server/controllers/bpController.js:222-229 | a sequence of encoded records reads back as those records |
| `Csv.EncodeRecordsAppend` | server/controllers/bpController.js:222-229 | appending one record to the file written so far is encoding the longer list |
| `Csv.VerbatimAgreesWhenQuoteFree` | server/controllers/bpController.js:223-228 | copying quote-free fields verbatim between quotes writes the escaped encoding |
| `Csv.ReadVerbatimQuoteFreeHead` | server/controllers/bpController.js:223-226 | a leading quote-free field does not change whether a verbatim record reads back |
| `Csv.ReadVerbatimLoneQuoteFails` | server/controllers/bpController.js:227-228 | a verbatim field holding one double quote, followed by a numeric field, cannot be read back |
| `Decimal.NatToString` | server/controllers/bpController.js:223 | `${n}` for a non-negative integer is non-empty and all digits, with no leading zero |
| `Decimal.ParseNatToString` | server/controllers/bpController.js:223 | reading the digits of `${n}` gives back `n` |
| `Decimal.IntToString` | server/controllers/bpController.js:224-225 | `${i}` for an integer never contains a double quote and does not start with a comma or newline |
| `Decimal.IntToStringRoundTrip` | server/controllers/bpController.js:224-225 | reading `${i}` back gives `i`, negative values included |
| `AuthController.Sign` | server/controllers/authController.js:37-41 | the token carries exactly the claims `{ id, email }` it was signed with |
| `AuthController.SessionFor` | server/controllers/authController.js:37-51 | the reply payload holds a token with the user's id and email and a view with id, name and email |
| `AuthController.FindByEmail` | server/controllers/authController.js:12-15 | under unique emails, the email lookup finds a user exactly when one has that email, and it is that user |
| `AuthController.Login` | server/controllers/authController.js:63-108 | succeeds if and only if a user has the email and bcrypt's compare accepts the password against the stored hash. Then 200 with that user's claims and view. Every failure is the identical 400 "Invalid credentials" |
| `AuthController.GetProfile` | server/controllers/authController.js:119-146 | 404 "User not found" exactly when the caller's id is not in the table. Otherwise 200 with id, name, email and creation time only |
| `AuthController.RequestPasswordReset` | server/controllers/authController.js:157-189 | the same 200 reply whether or not the email is registered. As a function over the table it changes nothing |
| `AuthController.SetPasswordHash` | server/controllers/authController.js:234-237 | `UPDATE ... WHERE email`: same keys, every user with that email gets the new hash, every other user is unchanged, and no other field changes |
| `AuthController.SetPasswordHashChangesOneUser` | server/controllers/authController.js:234-237 | under unique emails, the update by email changes the hash of that one user and nothing else |
| `AuthController.LoginAfterRegister` | server/controllers/authController.js:24-34 | with a sound bcrypt, the user just inserted by register logs in with the registered password and gets their own claims |
| `AuthController.LoginAfterReset` | server/controllers/authController.js:229-237 | with a sound bcrypt, after a reset the new password logs in |
| `AuthController.UserStore.Register` | server/controllers/authController.js:7-52 | a taken email gives 400 "User already exists with this email" and no change. Otherwise exactly one user is added under the next id, with the name, the email and `hash(password, salt)`, never the plaintext. Replies 201 with `{id, email}` claims and a view without the hash. Emails stay unique |
| `AuthController.UserStore.ResetPassword` | server/controllers/authController.js:200-242 | an unknown email gives 400 "Invalid reset request" and no change. Otherwise the update by email sets `hash(newPassword, salt)` and replies 200. The reset token does not occur in the contract, so it cannot affect the outcome |

## Left out

- Express routing, CORS, static files and process hooks (`server/server.js`, `server/routes/*.js`): HTTP plumbing.
- The authentication middleware `middleware/auth` is not part of this model. The caller's id is an input of every reading handler and of `GetProfile`.
- Token signing: the secret, the expiry and the signature. A token is the pair of claims it carries.
- bcrypt's cost factor and key derivation. Hashing and comparing are the parameters of `Bcrypt`, and the salt is an input.
- Every `try/catch` path that replies 500, with its `console` logging. Database failures are outside the model.
- Logging on the success paths: `requestPasswordReset` logs the user's email when it is registered (`server/controllers/authController.js:183-184`), and `resetPassword` logs the email and the token (`server/controllers/authController.js:212`). Console output is I/O.
- Request bodies and path ids of the wrong type: a non-numeric id, a missing date, or a non-integer pressure makes PostgreSQL fail, which the source turns into a 500. The model takes typed inputs.
- The foreign key from readings to users, and its cascade. The controllers never delete users, and an insert for a user id that no longer exists would be a 500.
- Concurrent requests, including the race between the email lookup and the insert in register. Requests are atomic and sequential.
- `exportReadingsJSON` and `exportSummary`: `JSON.stringify`, plus locale- and clock-dependent date formatting and floating-point averages.
- BpController.GetStatistics: the `AVG(systolic)` and `AVG(diastolic)` fields are not modelled (floating point). `total_readings` is modelled as a number; node-postgres actually returns `COUNT(*)` as a string.
- BpController.ReadingsFor: SQL leaves readings with equal `reading_date` in no particular order. The model fixes one order, higher id first.
- BpController.CsvFields: timestamps are instants written as decimal numbers. The source writes JavaScript `Date` strings, which depend on the time zone. The same goes for `toISOString` in `getProfile`.

## Findings

| source | as written | input that shows it | evidently intended | confidence | as-written member | corrected member |
|---|---|---|---|---|---|---|
| server/controllers/bpController.js:227 | the note is copied between double quotes verbatim, so a double quote inside it ends the field early | a reading whose note is a single `"` character: its line no longer reads back as a six-field record | inner double quotes doubled, as section 2 of RFC 4180 requires, so that every line reads back as the reading's fields | medium, not executed | `BpController.CsvLineAsWrittenBreaksOnQuote` | `BpController.CsvDocumentReadsBack` |
