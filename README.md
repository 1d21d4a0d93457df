# Course-seat watch registration — a Dafny model

The application lets a student "watch" a full university course section. A
watch is identified by email address, CRN (course reference number) and
term. When a seat opens, the student is notified. This project models the
core of the web routes in `routes/index.js`:

- **`POST /`** registers a watch. It runs the steps in order:
  1. It validates the form: email, CRN and term, each with its chained checks.
  2. It asks the seat checker for the section.
  3. It turns the request away if the section still has seats.
  4. It turns the request away if an active watch already exists for the
     same email, CRN and term.
  5. It splits the section title on `" - "` into a course title, a course
     number and a section number.
  6. It saves the new watch, recording the account id when someone is
     logged in.
- **`GET /watches`** lists one's own watches. These are the watches whose
  email is the account's email, or whose owner is the account.

The project has three modules:

- `text.dfy` (module `Text`) covers the string operations JavaScript
  provides:
  - `split(' - ')` as `SplitOn`, with `Join`, which undoes it;
  - `trim()` as `Trim`, over the ECMAScript white-space and line-terminator
    characters;
  - the decimal rendering of a seat count, as `Digits`.
- `watch.dfy` (module `Watches`) holds the pure parts:
  - the entities;
  - the seven form checks and their messages;
  - the seat notice;
  - the title derivation;
  - the dedup query and the ownership filter;
  - `Decide`, the registration decision as a function of the request, the
    checker's answer, the stored watches and the save result;
  - the flash notice each outcome renders.
- `store.dfy` (module `Store`) holds the state. The class `WatchStore` owns
  the stored watches as a `seq<Watch>` field. Its method `Register` runs the
  handler step by step, with an early exit at each rejection. It is proved
  against `Decide`. When the dedup query succeeds, it keeps the dedup
  invariant: at most one active watch per email, CRN and term. The handler
  ignores a failing dedup query, and then the invariant can break (see
  Findings).

External services are parameters:

- The seat checker is a function `(term, crn) -> CheckResult`.
- The outcome of saving is a `SaveResult` argument.
- The validation library's `isEmail`, `isNumeric` and `isInt` predicates are
  fields of a `Validator` value. `notEmpty` is modelled concretely, as the
  library's legacy definition has it: the field is not made of white space
  alone, so a blank field fails it just as an empty one does.
- An error from the watch query on `GET /watches` is an `Option<string>`
  argument.

## Model

| member | source | states |
|---|---|---|
| Watches.Validate | routes/index.js:31-38 | The errors are exactly the failing checks. Every one is reported: a failing link of a chained check is reported on its own, and validation does not stop at the first error. They come in the order the handler declares them. |
| Watches.ValidationErrors | routes/index.js:31-38 | The form is shown again with one (field, message) pair per failing check, in declaration order: pair i is the field and message of the i-th failing check. Every failing check's field and message is there, and every pair comes from a failing check. The fields and messages are those of `Param` and `Message`, which follow `Fails`, the source's checks. |
| Watches.FailingAmong | routes/index.js:31-35 | Filtering a list of checks keeps exactly the failing ones, and keeps declaration order. |
| Watches.BlankFieldsAreReported | routes/index.js:31-37 | An empty or blank email, CRN or term always yields its "required" error. Validation passes exactly when all three fields are non-blank and the email passes `isEmail`, the CRN `isNumeric` and `isInt`, and the term `isNumeric`. |
| Watches.SeatsMessage | routes/index.js:51-55 | The notice is the singular text exactly when one seat is open. |
| Watches.SeatsMessageForm | routes/index.js:50-56 | The singular notice is used exactly when one seat is open. The plural notice carries the seat count in decimal, and reading those digits back gives the count. |
| Text.Digits | routes/index.js:55 | A seat count renders as at least one decimal digit, with no leading zero. |
| Text.DigitsRoundTrip | routes/index.js:55 | The decimal rendering of a seat count reads back to the same number. |
| Text.SplitOn | routes/index.js:67 | `split(' - ')` always yields at least one piece. Joining the pieces gives back the input (`JoinSplit`), and no piece contains the separator (`SplitPartsHaveNoSep`). `SplitPlain` and `SplitAfterSegment` pin down the leftmost scan. |
| Text.JoinSplit | routes/index.js:67 | Joining the pieces of a split title with `" - "` gives back the title. |
| Text.SplitJoin | routes/index.js:67 | Splitting a join of segments gives back those segments, when no segment contains the separator or ends in " -". Hyphens elsewhere, as in "Object-Oriented", are allowed. |
| Text.SplitPartsHaveNoSep | routes/index.js:67 | No piece of a split contains the separator. |
| Text.SplitPlain | routes/index.js:67 | A string without the separator splits into a single piece. |
| Text.SplitAfterSegment | routes/index.js:67 | A leading segment (no separator, not ending in " -") followed by the separator splits off as the first piece. |
| Text.DashFreeIsSegment | routes/index.js:67 | A string without any hyphen is such a segment. |
| Text.Trim | routes/index.js:68-70 | The result has no white space at either end and is no longer than its input. |
| Text.TrimIsInfix | routes/index.js:68-70 | The result is a contiguous slice of the input, and only white space is cut away on each side. |
| Text.TrimIdempotent | routes/index.js:68-70 | Trimming twice gives the same result as trimming once. |
| Text.TrimKeepsNoSep | routes/index.js:68-70 | Trimming a string without the separator yields one without it. |
| Watches.DeriveFieldsAsWritten | routes/index.js:67-70 | The derivation exactly as the code reads it throws a TypeError exactly when the title has fewer than four segments. |
| Watches.ShortTitleThrows | routes/index.js:67-70 | The title "Intro to Systems", which has no `" - "` in it, makes the derivation as written throw. |
| Watches.HyphenFreeTitleThrows | routes/index.js:67-70 | Any title without a hyphen makes the derivation as written throw. |
| Watches.DeriveFields | routes/index.js:67-70 | The checked derivation reports a malformed title exactly when there are fewer than four segments. |
| Watches.DeriveFieldsAgreesWithAsWritten | routes/index.js:67-70 | The checked derivation gives the same fields as the code wherever the code does not throw, and fails exactly where it throws. |
| Watches.DerivedFieldsAreClean | routes/index.js:67-70 | The course title, course number and section number are trimmed and contain no separator. |
| Watches.DeriveFieldsOfFourSegments | routes/index.js:67-70 | For a title of four segments (hyphens allowed), the derived fields are segments 0, 2 and 3, trimmed; segment 1 is ignored. |
| Watches.DeriveFieldsExample | routes/index.js:67-70 | "Intro to Systems - Lecture - CS301 - 002" yields course title "Intro to Systems", course number "CS301" and section number "002". |
| Watches.FindActive | routes/index.js:60-61 | The dedup query finds a watch exactly when an active watch with the same email, CRN and term exists, and what it finds is such a watch. |
| Watches.NewWatch | routes/index.js:62-72 | The new watch is active and matches the dedup query for the request's email, CRN and term. It is owned (in the sense of the "my watches" filter) by the logged-in account and by any account with the request's email. It has no owner when nobody is logged in. |
| Watches.AppendKeepsAtMostOneActive | routes/index.js:60-73 | Adding a watch the dedup query found no match for keeps at most one active watch per email, CRN and term. |
| Watches.AdmitKeepsAtMostOneActive | routes/index.js:59-84 | When the dedup query succeeds, the full-section half of the handler keeps the dedup invariant. |
| Watches.DecideKeepsAtMostOneActive | routes/index.js:30-90 | When the dedup query succeeds, registering keeps the dedup invariant. |
| Watches.AdmitAsWritten | routes/index.js:60-79 | The full-section half as the code reads it, with the dedup query's error argument: a failing query never yields a duplicate, since its missing result reads as "no watch found"; a successful one behaves as `Admit`. |
| Watches.IgnoredQueryErrorBreaksDedup | routes/index.js:60-73 | With an active matching watch stored, a failing dedup query and a successful save, the code as written creates a second active watch for the same email, CRN and term, so the dedup invariant no longer holds. |
| Watches.AdmitChecked | routes/index.js:60-84 | The corrected full-section half: a failing dedup query is reported with its message and nothing else happens; a successful one behaves as `Admit`. |
| Watches.AdmitCheckedKeepsAtMostOneActive | routes/index.js:60-84 | The corrected full-section half keeps the dedup invariant whether or not the query fails. |
| Watches.Decide | routes/index.js:30-90 | The handler's outcome is a validation failure exactly when some check fails. It is `MalformedTitle` exactly when validation passes, the section is full, no matching active watch exists and the title has fewer than four segments; there the code as written throws instead (see Findings). |
| Watches.Admit | routes/index.js:59-84 | Once the section is full, the outcome is a duplicate, a malformed title, a failed save or a creation. It is a duplicate exactly when an active watch with the same email, CRN and term is stored, and a malformed title exactly when there is none and the title has fewer than four segments. |
| Watches.ValidationFailureStopsEarly | routes/index.js:37-39 | With a validation error, the outcome lists exactly the failing checks. It does not depend on the checker, the store or the save, and nothing is stored. |
| Watches.CheckErrorCreatesNothing | routes/index.js:44-48 | A checker error is passed on as its message, and nothing is stored. |
| Watches.OpenSeatsCreateNothing | routes/index.js:50-57 | Open seats turn the request away whatever the store holds. The notice carries the seat count and is singular exactly for one seat. Nothing is stored. |
| Watches.ActiveDuplicateRejected | routes/index.js:60-83 | For a full section, an existing active watch for the same email, CRN and term makes the request a duplicate, and nothing is stored. |
| Watches.CreatedExactlyWhen | routes/index.js:30-90 | A watch is created exactly when five things hold: validation passes, the section is found full, no matching active watch exists, the title has four segments and the save succeeds. The new watch copies the email, CRN, term and title and holds the derived fields. It carries the account id exactly when someone is logged in, and it is active. It is the only change to the store. |
| Watches.RepeatIsDuplicate | routes/index.js:44-83 | Once a request has created a watch, the same request is never created again, whatever the checker answers and the save reports the second time. Whenever the checker again finds the section full, it is a duplicate. |
| Watches.CreatedWatchIsListed | routes/index.js:62-103 | A created watch is listed on the "my watches" page of the account that registered it, and of any account with the same email. |
| Watches.Notice | routes/index.js:45-82 | Checker errors, open seats, duplicates, creations and (in the corrected handler) failed dedup queries flash a notice, and nothing else does. The success notice is used exactly for a creation. The error notice is used exactly for a checker error, open seats or a failed dedup query. |
| Watches.OwnedBy | routes/index.js:101-103 | The listed watches are exactly the stored ones owned by the account (same email or same account id). There are never more of them than stored watches. |
| Watches.OwnedByAppend | routes/index.js:101-103 | The filter keeps store order: filtering a concatenation concatenates the filtered parts. |
| Watches.OwnedByCount | routes/index.js:101-103 | Each owned watch is listed as many times as it is stored; a watch the account does not own is not listed. |
| Store.WatchStore.Register | routes/index.js:30-90 | Step by step, the handler ends with the outcome `Decide` gives for the checker's answer and the stored watches. A title with fewer than four segments ends in `MalformedTitle`, where the code throws. The store gains the new watch when one is created and is otherwise unchanged. When the dedup query succeeds, the dedup invariant is kept. |
| Store.WatchStore.Admit | routes/index.js:59-84 | The dedup query, the title derivation and the save: they end with `Watches.Admit`'s outcome, append only a created watch, and keep the dedup invariant when the dedup query succeeds. |
| Store.WatchStore.MyWatches | routes/index.js:96-116 | Without a logged-in account the page redirects to login. For a logged-in account, a failed query is flashed, and a successful one lists exactly the account's own watches, in store order. |
| Store.RepeatedRequestIsDuplicate | routes/index.js:30-90 | The same request submitted twice in a row, with the checker asked afresh and the save free to report differently each time. If the first creates a watch, the second creates none, and it is a duplicate whenever the checker again finds the section full. The store ends up holding exactly what the two outcomes add. |

## Left out

- HTTP and Express plumbing is not modelled: rendering templates, flash storage, `console.log`, the sessions and the `/account` sub-router.
- The login, logout and sign-up routes are not modelled; they are outside the registration and listing core.
- The validation library's `isEmail`, `isNumeric` and `isInt` are parameters, so their exact rules are not part of this model. `notEmpty` is taken as the library's legacy definition (not white space alone, with white space as in ECMAScript); that library is not part of this model.
- The seat checker (`checker.getSection`) is a parameter. How it fetches and parses the registrar's data is not part of this model.
- The database is a sequence held in memory. Mongoose's type casting is not modelled: CRN and term are compared as strings. The generated `_id` is not modelled.
- The model assumes the schema gives a new watch `isActive = true` by default; the handler never sets it. The dedup query relies on it.
- The error argument of the dedup query is ignored by the handler (routes/index.js:60-61), so a failing query reads as "no watch found". `AdmitAsWritten` and `IgnoredQueryErrorBreaksDedup` model that path, and `AdmitChecked` the corrected one (see Findings). `Decide`, `Store.WatchStore.Register` and `Store.WatchStore.Admit` model a dedup query that succeeds; `AdmitChecked` with no error equals `Admit`.
- Watches.AdmitKeepsAtMostOneActive, Watches.DecideKeepsAtMostOneActive, Store.WatchStore.Register and Store.WatchStore.Admit: the dedup invariant is stated for a dedup query that succeeds, because the code as written does not keep it when the query fails.
- Two concurrent registrations can both pass the dedup query before either saves. The model handles requests one at a time, so this race is not represented.
- On `GET /watches`, a failed query flashes the error and sends no response. The model records the failure as `FindFailed` and does not model the hanging request.
- `routes/index.js` has no periodic re-check and sends no notification: `emailSender` is imported (line 13) and never used. None is modelled.

## Findings

| source | as written | input that shows it | evidently intended | confidence | as-written member | corrected member |
|---|---|---|---|---|---|---|
| routes/index.js:67-70 | The title's pieces 0, 2 and 3 are trimmed without checking that there are four pieces. A shorter title makes `titleParts[2]` undefined, and calling `trim` on it throws a TypeError inside the callback. | A full section whose title is "Intro to Systems" | Turn the request away as a malformed title, as `DeriveFields` does (outcome `MalformedTitle`) | medium, not executed | Watches.DeriveFieldsAsWritten (Watches.ShortTitleThrows) | Watches.DeriveFields |
| routes/index.js:60-61 | The dedup query's `err` is ignored. On a failure `foundWatch` is undefined, which reads as "no watch found", so the handler goes on to create a watch. | An active watch stored for the same email, CRN and term, a dedup query that fails, a full section with a four-segment title, and a save that succeeds | Report the query error, as line 46 does for the checker, and store nothing | medium, not executed | Watches.AdmitAsWritten (Watches.IgnoredQueryErrorBreaksDedup) | Watches.AdmitChecked (Watches.AdmitCheckedKeepsAtMostOneActive) |
