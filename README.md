# life-plus-api services, modelled in Dafny

life-plus-api is a REST backend for a medication and health-record app. Its
logic lives in four service modules, and this project models them over an
in-memory database:

- **Dose ledger** (`medicineHistoryService.ts`). Recording a dose computes its
  time from the medicine's cursor `lastTakenAt`. An on-time dose falls one
  interval after the cursor; any other dose is taken at the caller's time. A
  dose at or before the cursor is refused. An accepted dose appends a history
  row and moves the cursor.
- **Accounts and recovery codes** (`authService.ts`). Registration needs an
  unused e-mail address, login checks the password hash, and a table of
  single-use, 30-minute, six-digit recovery codes drives password reset.
- **Medicine records** (`medicineService.ts`). Creation needs certain fields.
  Reads, updates and deletes are for the owner only. An update is a
  field-by-field partial patch. A delete also removes the medicine's history.
- **Exam records** (`examService.ts`). Results and photo metadata are stored
  encrypted. Reads decrypt them. An update removes photos by id and attaches
  new ones. A delete also removes the exam's photos.

Files:

- `records.dfy`: the `Database` class. It holds one map per table plus the
  id and IV counters, and its invariant `Valid()` covers ids, foreign keys,
  unique e-mail addresses and readable ciphertext.
- `tables.dfy`: the ordered `findMany` read.
- `cipher.dfy`: the encrypt/decrypt pair.
- `credentials.dfy`: password hashing and the recovery code.
- One file per service, holding its operations as methods on the `Database`.

Every operation either succeeds or returns an `Error` value where the source
throws. Each failure is proved to leave the database unchanged. The outside
world enters as parameters:

- the clock (`now`);
- `Math.random` (`draw`);
- whether the recovery mail was delivered (`delivered`).

## Model

| member | source | states |
|---|---|---|
| Cipher.Encrypt | src/services/cryptoService.ts:11-16 | the token carries the IV it was made with; its body is as long as the plaintext (of the stand-in; AES-CBC pads to a multiple of 16 bytes) |
| Cipher.Decrypt | src/services/cryptoService.ts:18-28 | the text, or None where decrypt throws; one character per body entry (of the stand-in); RoundTrip and OnlyEncryptionsDecrypt pin it down as Encrypt's inverse |
| Cipher.RoundTrip | src/services/cryptoService.ts:11-28 | decrypting an encryption under the same key gives the plaintext back, whatever the IV |
| Cipher.OnlyEncryptionsDecrypt | src/services/cryptoService.ts:18-28 | a token that decrypts is exactly the encryption, under its own IV, of what it decrypts to (of the stand-in; with AES a tampered token whose plaintext is not UTF-8 breaks this) |
| Cipher.DistinctIvsDistinctTokens | src/services/cryptoService.ts:12-15 | encryptions under different IVs never coincide, even of equal plaintexts |
| Cipher.UnmaskMask | src/services/cryptoService.ts:22-27 | deciphering from any keystream position undoes enciphering from the same position |
| Cipher.MaskUnmask | src/services/cryptoService.ts:22-27 | enciphering what a body deciphers to rebuilds that body |
| Credentials.Hash | src/services/authService.ts:28 | the hash has cost 10 and checks against exactly the password it was made from (assumed of the stand-in; bcrypt ignores bytes past the 72nd) |
| Credentials.Check | src/services/authService.ts:45 | a password checks iff the hash is Bcrypt of it at the hash's own cost (assumed of the stand-in; see Credentials.Hash below) |
| Credentials.DecimalRoundTrip | src/services/authService.ts:63 | reading back the decimal string of n gives n |
| Credentials.DecimalLength | src/services/authService.ts:63 | a number between 10^k and 10^(k+1) prints as k+1 digits |
| Credentials.RecoveryCode | src/services/authService.ts:63 | the code is six decimal digits with no leading zero, and its value is 100000 plus the draw, so it lies in [100000, 999999] |
| Tables.InsertDesc | src/services/medicineService.ts:59-62 | inserting into a descending sequence keeps it descending and adds exactly that element (multiset) |
| Tables.ConsSortedDesc | src/services/medicineService.ts:59-62 | a head no smaller than any element keeps a descending sequence descending |
| Tables.DistinctPositions | src/services/medicineService.ts:59-62 | a sequence in which no element is counted twice has no repeated position |
| Tables.SelectSorted | src/services/medicineService.ts:59-62 | the rows are exactly the table's rows that match the filter, each once, ordered by the key descending |
| Records.Database.constructor | src/services/medicineHistoryService.ts:3 | an empty database satisfies the database invariant |
| MedicineHistoryService.DoseTime | src/services/medicineHistoryService.ts:19-39 | it fails with the no-previous-record error iff the dose is on time and there is no previous dose, and every other refusal is the not-after-last-record error; on time gives cursor + intervalHours hours and ignores the caller's time; otherwise it gives the caller's time; an accepted time is strictly after the cursor; an off-time dose is accepted iff there is no cursor or it is later than the cursor |
| MedicineHistoryService.OnTimeDoseAlwaysAdvances | src/services/medicineHistoryService.ts:26-34 | with a cursor and a positive interval, an on-time dose is never refused |
| MedicineHistoryService.AppendDose | src/services/medicineHistoryService.ts:41-52 | appending a dose later than the cursor and moving the cursor keeps every medicine's ledger strictly increasing and bounded by its cursor, and the new row is the tip of its ledger at the cursor |
| MedicineHistoryService.AppendRecord | src/services/medicineHistoryService.ts:41-52 | exactly one history row is added under a fresh id, only that medicine's lastTakenAt changes, the ledger invariant is kept and the new row is its tip |
| MedicineHistoryService.CreateHistory | src/services/medicineHistoryService.ts:5-55 | a missing or foreign medicine fails with nothing changed; otherwise the result is exactly the DoseTime outcome; on success one row {medicineId, takenAt, onTime} is added, the cursor moves to it and nothing else changes; the ledger stays increasing with its last row at the cursor |
| MedicineHistoryService.GetHistoryByMedicine | src/services/medicineHistoryService.ts:57-75 | after the owner check, exactly that medicine's history rows, each once, latest takenAt first |
| MedicineHistoryService.GetHistoryById | src/services/medicineHistoryService.ts:77-90 | succeeds iff the row exists and its medicine belongs to the caller, returning the stored row together with its stored medicine |
| MedicineHistoryService.DeleteHistory | src/services/medicineHistoryService.ts:92-105 | succeeds iff the caller owns the row through its medicine; removes only that row and leaves lastTakenAt as it was |
| MedicineHistoryService.ReplayIsMonotone | src/services/medicineHistoryService.ts:19-52 | over any sequence of createHistory requests, the accepted dose times are strictly increasing and after the starting cursor, the final cursor is the last of them, and no other medicine field changes |
| MedicineHistoryService.TwoOnTimeDoses | src/services/medicineHistoryService.ts:21-52 | two on-time doses in a row land one and two intervals after the cursor, which ends at the second |
| MedicineService.CreateMedicine | src/services/medicineService.ts:19-56 | succeeds iff name, a non-zero interval and lastTakenAt are given, and stores nothing otherwise; the new row keeps every given field, with treatmentFinished defaulting to false |
| MedicineService.GetMedicines | src/services/medicineService.ts:58-64 | exactly the caller's medicines, each once, newest createdAt first |
| MedicineService.GetMedicineById | src/services/medicineService.ts:66-76 | succeeds iff the medicine exists and is the caller's; returns it with exactly its history rows |
| MedicineService.ApplyPatch | src/services/medicineService.ts:88-112 | each field takes the patch's value when the patch defines it and keeps the stored one otherwise; id, userId and createdAt never change |
| MedicineService.PatchIsIdempotent | src/services/medicineService.ts:88-112 | applying a patch twice equals applying it once |
| MedicineService.EmptyPatchIsIdentity | src/services/medicineService.ts:88-112 | a patch that defines nothing leaves the medicine as it was |
| MedicineService.PatchCanRewindCursor | src/services/medicineService.ts:96-98 | an update can move lastTakenAt to an earlier time, so the cursor is not monotone across updates |
| MedicineService.UpdateMedicine | src/services/medicineService.ts:78-115 | succeeds iff the caller owns the medicine, stores the patched record and changes nothing else; nothing changes on failure |
| MedicineService.DeleteMedicine | src/services/medicineService.ts:117-130 | succeeds iff the caller owns the medicine; removes it and exactly its history rows; other medicines and their history are untouched |
| ExamService.SealResult | src/services/examService.ts:32 | a result is stored, under the given IV, iff it is non-empty; otherwise null |
| ExamService.OpenResult | src/services/examService.ts:56 | a stored result reads as its decryption, and a null result reads as null |
| ExamService.ResultRoundTrip | src/services/examService.ts:32-56 | a stored result decrypts back to the given text, and a missing or empty one reads as null |
| ExamService.ViewPhoto | src/services/examService.ts:57-62 | the read keeps the photo's id and createdAt and shows its decrypted file name and type |
| ExamService.ViewExam | src/services/examService.ts:54-63 | the read keeps the exam's fields, decrypts its result and shows exactly the photos of that exam, decrypted |
| ExamService.NewPhotos | src/services/examService.ts:33-38 | one new row per upload, under consecutive fresh ids |
| ExamService.NewPhotosRow | src/services/examService.ts:33-38 | row q holds upload q - firstId, encrypted with the IVs allotted to it |
| ExamService.NewPhotosStoreUploads | src/services/examService.ts:33-38 | every new row sits under its own id, is readable and decrypts to its upload's name and type, with the upload's bytes |
| ExamService.NewPhotoStoresUpload | src/services/examService.ts:34-37 | the row made from an upload decrypts to the upload's original name and MIME type |
| ExamService.PhotosOf | src/services/examService.ts:41 | exactly the photo rows whose examId is the exam's, unchanged |
| ExamService.AttachedPhotosOf | src/services/examService.ts:33-41 | after an attach, the exam's photos are the ones it had plus exactly the new ids |
| ExamService.AttachNewPhotos | src/services/examService.ts:33-38 | adding the new rows above all existing ids keeps the old rows and attaches exactly the uploads to the exam |
| ExamService.Without | src/services/examService.ts:120-126 | the listed ids are removed, whichever exam they belong to, and every other photo is kept |
| ExamService.AddExamConsistent | src/services/examService.ts:26-32 | adding a readable exam under the next id keeps the database invariant |
| ExamService.AddPhotosConsistent | src/services/examService.ts:128-137 | adding readable photos of an existing exam under the next ids keeps the database invariant |
| ExamService.ReplaceExamConsistent | src/services/examService.ts:139-147 | replacing an exam by a readable row with the same id keeps the database invariant |
| ExamService.AttachPhotos | src/services/examService.ts:128-137 | exactly one encrypted photo per upload is attached to the exam under fresh ids; existing photos and other tables are kept; two IVs per upload are used |
| ExamService.InsertExam | src/services/examService.ts:26-32 | the exam row is stored under a fresh id with its fields; its result is encrypted under the next IV (decrypting to the given text), using that IV up, or null, using none |
| ExamService.RemovePhotos | src/services/examService.ts:120-126 | the photo table loses exactly the listed ids; the invariant is kept |
| ExamService.ReviseExam | src/services/examService.ts:117-147 | a given name, description or date replaces the stored one; the stored result is kept unless a non-empty one is given, which is then stored encrypted under the next IV, and only then is an IV used |
| ExamService.CreateExam | src/services/examService.ts:16-45 | succeeds iff name and date are given, and stores nothing otherwise; the exam's result is encrypted or null and decrypts back, and exactly one encrypted photo per upload is attached; one id for the exam and one per upload, one IV for a given result and two per upload |
| ExamService.GetExams | src/services/examService.ts:47-64 | only the caller's exams, each once, every one of them present, latest date first, each decrypted with its photos |
| ExamService.GetExamById | src/services/examService.ts:66-85 | succeeds iff the exam exists and is the caller's; returns its decrypted view |
| ExamService.GetExamPhotoById | src/services/examService.ts:87-102 | succeeds iff the photo exists and its exam is the caller's; returns the bytes and the decrypted name and type |
| ExamService.UpdateExam | src/services/examService.ts:104-162 | succeeds iff the caller owns the exam; result and date are kept unless given; every listed photo is deleted, then one photo per upload is attached to this exam, using one id per upload and one IV for a given result and two per upload; returns the decrypted exam; nothing changes on failure |
| ExamService.DeleteExam | src/services/examService.ts:164-182 | succeeds iff the caller owns the exam; removes it and all of its photos, so no orphan photo remains, and keeps every other photo |
| AuthService.RecoveryCodes.constructor | src/services/authService.ts:57 | the recovery table starts empty |
| AuthService.IssueCode | src/services/authService.ts:63-66 | the entry holds a six-digit code in [100000, 999999] and expires 1 800 000 ms after it is issued |
| AuthService.IssuedCodeWindow | src/services/authService.ts:92-95 | a fresh entry accepts exactly its own code, up to and including its expiry instant |
| AuthService.NewerCodeRevokesOlder | src/services/authService.ts:66 | a second request for the same address overwrites the entry, so the first code (if different) is no longer accepted |
| AuthService.FindByEmail | src/services/authService.ts:25 | finds a user iff the address is taken, and that user is the only one with it |
| AuthService.AddUserConsistent | src/services/authService.ts:30-38 | adding a user with an unused address under the next id keeps the database invariant |
| AuthService.RegisterUser | src/services/authService.ts:17-39 | fails iff the address is in use, with nothing changed; otherwise stores the user with a cost-10 hash of the password and the role defaulting to "user" |
| AuthService.LoginUser | src/services/authService.ts:41-55 | an unknown address fails with "user not found" before any comparison; it succeeds iff some user with that address has a matching hash, and the claims carry that user's id and role and expire one hour after `now` truncated to the second |
| AuthService.RegisterThenLogin | src/services/authService.ts:17-55 | a freshly registered user logs in with the registration password and, under the hash stand-in, with no other |
| AuthService.ForgotPassword | src/services/authService.ts:59-84 | an unknown address fails and stores nothing; otherwise the address's entry is replaced by a fresh code before the mail is sent, so a failed send still leaves it stored |
| AuthService.WithPassword | src/services/authService.ts:99-102 | every user with that address gets the new hash and every other user is unchanged |
| AuthService.ResetConsistent | src/services/authService.ts:99-102 | changing passwords keeps the database invariant |
| AuthService.ResetPassword | src/services/authService.ts:87-106 | succeeds iff the entry is present, matches and now <= expiresAt; on failure nothing changes; on success the address's users get the new hash and the entry is deleted |
| AuthService.ResetTwice | src/services/authService.ts:92-105 | after a successful reset, the same reset fails with "invalid or expired code", and the new password logs in |

## Left out

- AES-256-CBC, SHA-256 key derivation and `randomBytes`
  (src/services/cryptoService.ts). `Encrypt`/`Decrypt` are an additive
  keystream over code points. They are keyed by an integer and by an IV drawn
  from the counter `nextIv`, and they keep the properties the services rely on:
  the round trip, and decryption that can fail. Hex encoding of the token is
  not modelled.
- Cipher.RoundTrip: texts are sequences of Unicode scalar values. A JavaScript
  string may hold an unpaired surrogate, which the UTF-8 encoding inside
  `encrypt` turns into U+FFFD, so the source's round trip fails for such
  strings. The model cannot express them.
- Credentials.Hash: `Check` compares whole passwords, while bcrypt keys on at
  most the first 72 bytes of the UTF-8 password. So the stand-in assumes "a hash
  checks against exactly its password". LoginUser's success condition and
  RegisterThenLogin's "and with no other" hold for the stand-in, not for
  passwords that agree on their first 72 bytes. Salts are not modelled.
- jwt signing: LoginUser returns the claims (id, role, expiry) instead of a
  signed token. jwt counts in whole seconds, so the expiry is `now` truncated
  to the second plus one hour. Token verification lives in middleware,
  which is not part of this model.
- nodemailer: the send is the parameter `delivered`, and only its outcome is
  modelled.
- Prisma is replaced by maps from id to row. Ids are handed out by the counter
  `nextId` instead of uuids.
- No transactions or concurrency: every operation runs alone, so the
  non-atomic history insert and cursor update of createHistory cannot
  interleave with anything.
- Date parsing, local-time `setHours` and invalid dates. Times are integer
  milliseconds, and "+ intervalHours hours" is `+ intervalHours * 3 600 000`,
  so daylight-saving shifts and `NaN` dates are not captured.
- Truthiness of input fields. A missing `name` is the empty string. A missing
  `intervalHours` is 0. A missing `lastTakenAt` or `date` is `None`. A
  non-numeric interval is not representable.
- Controllers, routes, the upload middleware, `userService.ts`, `server.ts` and
  `swagger.ts` are HTTP glue and are not part of this model.
- Error messages. The source throws one message for "not found" and "not
  yours", so the model has one error for both (`NotFoundOrUnauthorized`).
- A row whose ciphertext fails to decrypt (a throw in the read paths) cannot
  arise. The database invariant keeps every stored ciphertext readable under
  the one key.
- ExamService.UpdateExam performs the exam-row update (ReviseExam) before the
  photo delete and insert, while the source performs it after them. The two
  touch different tables, and the result is encrypted first in both orders. So
  the final state and the IV order are the same.
- ExamService.UpdateExam: `removePhotos` deletes the listed photos of any exam,
  as the source does. The model states this and does not restrict it.
- MedicineService.UpdateMedicine lets a patch set `lastTakenAt` to any time,
  as the source does. So the ledger ordering (LedgerBounded) is stated for
  createHistory and deleteHistory, not across updates.
- ExamService.CreateExam returns the exam row without the photo rows that
  `include: { photos: true }` adds. Its contract states those rows through
  PhotosAttached, and AttachedPhotosOf states that after an attach the exam's
  photos (PhotosOf) are its earlier ones plus exactly the new rows.
- ExamService.GetExams states "each once" by distinct exam ids rather than by
  a multiset of rows, because views of different exams always differ in id.
