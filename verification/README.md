# Ledgerly subscription intake, in Dafny

This project models the email-subscription path of the Ledgerly marketing
site. The path has two parts:

- **The subscriber store** (`ledgerly/lib/storage.ts`). It is a table of
  `Subscriber` records kept as one JSON array in `data/subscribers.json`. It
  offers `getAllSubscribers`, `exists` (an exact, case-sensitive email lookup)
  and `addSubscriber`. `addSubscriber` reads the whole array, rejects an email
  that is already there, appends the new record and writes the whole array
  back.
- **The `POST /api/subscribe` handler** (`ledgerly/app/api/subscribe/route.ts`).
  It does these steps in order:
  1. parse the body;
  2. check the address against `^[^\s@]+@[^\s@]+\.[^\s@]+$`;
  3. look for a duplicate;
  4. build the new record with fixed field values;
  5. store it;
  6. try once to send the welcome mail, ignoring any failure;
  7. return one of five responses.

Files:

- `storage.dfy` (module `Storage`) holds these parts:
  - the `Subscriber` record;
  - `HasEmail`, which plays the role of `subscribers.some(...)`;
  - `AddToFile`, a pure function that says what one call of the corrected
    `addSubscriber` returns and what the file holds after it, with lemmas
    about it. The corrected version differs from the code only when the
    file read fails (see "## Findings"). `AddToFileAsWritten` is the code
    as written;
  - the class `DataStore`, whose field `file` is the persisted array.
    Each store method takes a flag that says whether its file read succeeds,
    and `AddSubscriber` also takes one for its write.
- `email_syntax.dfy` (module `EmailSyntax`) holds these parts:
  - the validator, written as a predicate over characters (`IsValidEmail`);
  - `MatchesPattern`, a second definition that follows the shape of the
    regular expression;
  - a proof that the two accept exactly the same strings.

  JavaScript's `\s` is modelled as its exact set of code points.
- `subscribe_route.dfy` (module `SubscribeRoute`) holds these parts:
  - the handler, written as the method `Post` over a `DataStore`, which
    returns a `Response` (a status and a payload) and the welcome mail it
    attempted, if any;
  - a `World` value that fixes in advance the result of every outside call
    the handler makes: the two file reads, the file write, the mail
    transport, and the two clock readings;
  - client methods that state properties spanning several requests.

## Model

| member | source | states |
|---|---|---|
| `Storage.HasEmail` | ledgerly/lib/storage.ts:42 | the `.some` duplicate test holds exactly when some row's email equals the given one (exact comparison) |
| `Storage.CountEmailPositive` | ledgerly/lib/storage.ts:42 | an email is found by the duplicate test exactly when at least one row carries it |
| `Storage.UniqueCountAtMostOne` | ledgerly/lib/storage.ts:42-46 | in a table whose emails are unique, each email is stored at most once, and exactly once when it is found |
| `Storage.AddToFileResult` | ledgerly/lib/storage.ts:38-51 | the corrected `addSubscriber` (see "## Findings") returns true exactly when the read and the write succeed and no stored row has the email; a duplicate or a failed write returns false and leaves the file unchanged |
| `Storage.AddToFileOnlyAppends` | ledgerly/lib/storage.ts:45-47 | for the corrected `addSubscriber` (see "## Findings"): existing rows keep their values and order; the file grows by at most one row, and grows exactly when the call returns true, in which case the new last row is the subscriber |
| `Storage.AddToFilePreservesUnique` | ledgerly/lib/storage.ts:42-46 | the corrected `addSubscriber` keeps the invariant that no two rows share an email (the code as written keeps it too) |
| `Storage.AddToFileThenVisible` | ledgerly/lib/storage.ts:28-31 | after a successful add by the corrected `addSubscriber`, `exists(email)` holds, the array read back ends with the subscriber (all fields equal), and the email is stored exactly once |
| `Storage.AddTwiceKeepsOneRecord` | ledgerly/lib/storage.ts:42-43 | adding the same email twice with the corrected `addSubscriber` (see "## Findings"; as written, a failed read lets the second add succeed): if the first add succeeds, the second returns false and leaves the file alone; the email, when stored, is stored exactly once |
| `Storage.AsWrittenAgreesWhenReadSucceeds` | ledgerly/lib/storage.ts:38-47 | when the read succeeds, the code as written and the corrected definition return the same value and write the same file |
| `Storage.AsWrittenReadFailureAcceptsDuplicate` | ledgerly/lib/storage.ts:32-45 | as written, a failed read and a successful write make adding an email that is already stored return true and leave only that row; the corrected definition returns false and keeps the file |
| `Storage.AsWrittenReadFailureDropsRecords` | ledgerly/lib/storage.ts:32-35 | as written, a failed read and a successful write make `addSubscriber` return true and leave only the new row, so earlier rows are lost; the corrected definition returns false and keeps the file |
| `Storage.DataStore.constructor` | ledgerly/lib/storage.ts:22-25 | the store starts as an empty array, which satisfies the uniqueness invariant |
| `Storage.DataStore.GetAllSubscribers` | ledgerly/lib/storage.ts:28-36 | gives the whole stored array in insertion order, or the empty array when the read fails |
| `Storage.DataStore.Exists` | ledgerly/lib/storage.ts:54-56 | true exactly when the read succeeds and some stored row's email equals the argument |
| `Storage.DataStore.AddSubscriber` | ledgerly/lib/storage.ts:38-52 | corrected (see "## Findings"): the return value and the new file are those of `AddToFile`, so its lemmas hold; the uniqueness invariant is kept; a failed read is reported as failure |
| `Storage.DataStore.AddSubscriberAsWritten` | ledgerly/lib/storage.ts:38-52 | the code as written: a failed read is treated as an empty array, which is then written back with the subscriber appended |
| `EmailSyntax.FirstAt` | ledgerly/app/api/subscribe/route.ts:12 | the position of the first `@`, or the length when there is none; no `@` comes before it |
| `EmailSyntax.ValidEmailIsMatched` | ledgerly/app/api/subscribe/route.ts:12 | every string the validator accepts matches the pattern |
| `EmailSyntax.MatchedIsValidEmail` | ledgerly/app/api/subscribe/route.ts:12 | every string that matches the pattern is accepted by the validator |
| `EmailSyntax.ValidEmailMatchesPattern` | ledgerly/app/api/subscribe/route.ts:12 | the validator accepts exactly these strings: a non-empty local part with no whitespace or `@`, then `@`, then two non-empty runs with no whitespace or `@` joined by a `.` |
| `EmailSyntax.RejectsWithoutAt` | ledgerly/app/api/subscribe/route.ts:12 | a string with no `@` is rejected |
| `EmailSyntax.RejectsWithoutDomainDot` | ledgerly/app/api/subscribe/route.ts:12 | a string with no `.` after any `@` is rejected |
| `EmailSyntax.AcceptsDottedAddress` | ledgerly/app/api/subscribe/route.ts:12 | every `local@host.tld` whose three parts are non-empty and free of whitespace and `@` is accepted |
| `SubscribeRoute.Post` | ledgerly/app/api/subscribe/route.ts:7-137 | over the corrected store (see "## Findings"), the checks run in order: parse (500 "Internal server error."), then validate (400 "Invalid email address."), then duplicate (200 "You are already subscribed!"), then save (500 "Failed to save subscription."), then 200 `{success: true}`. A failed save happens only after a storage fault. Every answer except success leaves the table unchanged and sends no mail. Success appends exactly one record, with the fixed `source`, `survey_sent`, `survey_completed`, `reward_eligible` and the two timestamps, and mails it once. The mail outcome does not appear in the contract |
| `SubscribeRoute.PostTwice` | ledgerly/app/api/subscribe/route.ts:20-25 | over the corrected store, after a first successful post, posting the same address again never gives 400 or success; it gives "already subscribed" whenever its duplicate check can read the file, and the email is stored exactly once |
| `SubscribeRoute.MailOutcomeIgnored` | ledgerly/app/api/subscribe/route.ts:123-128 | the same post against the same table gives the same response and the same table whether the transport succeeds or fails |
| `SubscribeRoute.Scenarios` | ledgerly/app/api/subscribe/route.ts:12-44 | on an empty table: a first signup of `a@b.com` succeeds, a repeat is "already subscribed", `not-an-email` is 400, and a failed write is 500; one record remains |

## Findings

| source | as written | input that shows it | evidently intended | confidence | as-written member | corrected member |
|---|---|---|---|---|---|---|
| ledgerly/lib/storage.ts:32-47 | `addSubscriber` reads through `getAllSubscribers`, which returns `[]` when the read or `JSON.parse` throws; the function then appends to that empty array and rewrites the file | the file holds `[r]` and one read fails transiently (`readFileSync` raises EACCES or EMFILE, or `JSON.parse` meets the truncated file of a write still in progress); `addSubscriber(s)` with `s.email != r.email` and a working write returns true and leaves the file as `[s]`; with `s.email == r.email` it also returns true instead of reporting a duplicate | a failed read is reported as a storage failure (false) and the file is not rewritten, so stored records are never lost | not executed; medium | `Storage.AsWrittenReadFailureDropsRecords`, `Storage.AsWrittenReadFailureAcceptsDuplicate` | `Storage.AddToFileOnlyAppends`, `Storage.AddToFileResult` |

The handler `Post` uses the corrected `DataStore.AddSubscriber`. With the code
as written, a post whose add-time read fails and whose write succeeds would answer 200 `{success: true}`
and leave a file that holds only the new subscriber.

## Left out

- SubscribeRoute.Post: runs over the corrected `DataStore.AddSubscriber`, not the code as written. So its contract does not describe what route.ts does when the read inside `addSubscriber` fails and the write succeeds. In that case the code as written answers 200 `{success: true}`, sends the mail and leaves a file that holds only the new subscriber; the model answers 500 "Failed to save subscription." and keeps the file. Its clause "a failed save happens only after a storage fault" is likewise about the corrected store.
- SubscribeRoute.PostTwice: runs over the corrected store too. Its clause "the second post is never a success" is false for the code as written when both reads of the second post fail and its write succeeds: that post answers 200 `{success: true}` and rewrites the file so that it holds only the second post's own record, `NewSubscriber(email, w2)`, built from that post's clock readings. When that write fails, storage.ts:48-50 returns false, route.ts:39-43 answers 500 "Failed to save subscription." and the file is unchanged, as in the model.
- The file read (`readFileSync` followed by `JSON.parse`) is inlined into `DataStore.GetAllSubscribers` and `DataStore.AddSubscriber` as a test of the `readOk` flag. The one delivery attempt (`transporter.sendMail` with the options of route.ts:113-118) is inlined into `Post` as the `WelcomeMail` value it returns; whether `World.mailDelivered` holds has no effect.
- Filesystem and JSON handling (`readFileSync`, `JSON.parse`, `JSON.stringify`, `writeFileSync`) are I/O. The file is the field `DataStore.file`, and whether each read or write succeeds is a flag. A write that fails halfway and leaves a truncated file is not modelled: a failed write leaves the array unchanged.
- The directory and file creation at module load is replaced by the `DataStore` constructor.
- A file that parses to anything other than an array of objects is not modelled. An array row that is `null` makes the `.some` callback throw on `s.email`: inside `exists` the exception is not caught and `POST` answers 500 "Internal server error."; inside `addSubscriber` it is caught and the call returns false. A row that is a number, a string or a boolean has an `undefined` email, so it never matches and nothing throws. A file that parses to a non-array (an object, a string, a number, `null`) makes the `.some` call itself throw, with the same two consequences.
- Creating the nodemailer transport, the credentials from the environment, the HTML body of the mail and `sendMail` itself are a foreign library and the network. The send is an oracle (`World.mailDelivered`) whose outcome is ignored.
- `new Date().toISOString()` is the clock. Its two readings are the opaque strings `World.signupDate` and `World.lastEmailedAt`.
- `console.log` and `console.error` logging are left out.
- Concurrent requests, and with them the race between the duplicate check and the insert, are left out. The model handles one request at a time.
- An `email` field that is not a string (a number, an array, an object) is not modelled. The regular expression's `test` would convert it to a string first. The model's request carries either a string or nothing.
- Unpaired UTF-16 surrogates in the address are not modelled: Dafny's `char` is a Unicode scalar value.
- The presentation files (the landing page, the demo page, the accordion and the animated components) are not part of this model.
