# TaskDB core in Dafny

TaskDB is a desktop catalogue of olympiad programming tasks. Each task has a
title, a difficulty from 1 to 10, a Polygon link, a condition, an idea, a note
and two readiness flags ("ready for Codeforces", "ready for Yandex Contest").
Tasks are linked to tags and contests. The catalogue lives in an SQLite
database behind a repository layer (`database.js`). The renderer
(`renderer.js`) builds filters from the filter panel, warns about duplicate
links while the user types, checks the password form, and exports the filtered
listing as a `;`-separated CSV report.

This project models both halves as pure functions over an immutable store.

- **Store** (`schema.dfy`). The four entity tables are maps: tasks, tags and
  contests keyed by their id, and users keyed by user name (the column is
  UNIQUE and the id is never used). The two association tables `TaskTag` and
  `TaskContest` are sets of (task, parent) pairs. Three counters play SQLite's
  AUTOINCREMENT sequence. `Schema.Valid` collects the schema constraints:
  - the UNIQUE link, tag title and (contest title, year);
  - the difficulty CHECK;
  - the composite primary keys and foreign keys of the association tables;
  - two facts every reachable state keeps: the CF-ready flag is derived from
    the link, and the `admin` account has the admin role.
- **Writes** (`tasks.dfy`, `catalog.dfy`, `accounts.dfy`). Every write maps a
  store to a reply and a new store. A transaction that fails rolls back, so a
  failing write returns the store it was given. Each write proves that it keeps
  `Valid` and states exactly which reply it gives for which input.
- **Constraint order** follows SQLite. The CHECK on `Difficulty` is evaluated
  before the UNIQUE index on `PolygonLink`. An UPDATE of a missing row checks no
  constraint. The association tables enforce their foreign keys, and deleting a
  parent cascades.
- **Reads**. The filtered listing (`getAllTasks`), fetch by id, the sorted tag
  and contest listings, and login.
- **Renderer** (`csv.dfy`, `ui.dfy`). CSV escaping follows rules 6 and 7 of
  section 2 of RFC 4180, with `;` as the delimiter and `\n` as the line break.
  A lenient reader for that dialect is the writer's partner: the whole report
  reads back as the header plus each task's eleven values. `ui.dfy` holds the
  checkbox, link-probe, filter and password-form rules. Each is proved to agree
  with the repository behaviour it anticipates.
- **Helpers** (`basics.dfy`, `text.dfy`, `sorting.dfy`):
  - JavaScript `parseInt`, `includes` and UTF-16 `.length`;
  - decimal numerals;
  - binary-collation order, and insertion sort as the meaning of `ORDER BY`.

One might expect a task without a link to store `NULL`, which never collides
with anything under a UNIQUE index. The code does otherwise:
- `addTask` and `updateTask` default a missing link to `''`, not `NULL`;
- the UNIQUE index treats `''` as an ordinary value;
- so a second link-less task is rejected with the duplicate-link message.

The model follows the code (`Tasks.TwoLinklessTasksCollide`). The renderer's
probe skips empty links, so its warning stays hidden in that case
(`Ui.EmptyLinkSlipsPastProbe`).

## Model

| member | source | states |
|---|---|---|
| Schema.CfReadyMeansMarkerOccurs | database.js:279 | A link counts as CF-ready exactly when `codeforces.com` occurs in it at some position; the empty link is not CF-ready. |
| Bcrypt.HashThenVerify | database.js:593 | A password always verifies against a hash made from it, whatever the salt. |
| Text.ParseIntOfDecimal | renderer.js:763-764 | `parseInt` of the decimal text of a safe integer (at most 2^53 in magnitude), negative ones included, gives that integer back. |
| Text.ParseIntWithoutDigits | renderer.js:761-768 | A field without any digit parses to `NaN`, so no bound is set. |
| Text.Utf16Length | database.js:588 | `.length` counts UTF-16 units: at least one and at most two per character. |
| Sorting.Sort | database.js:234 | The result is ordered by the key under binary collation and is a permutation of the input. |
| Sorting.SortKeepsElements | database.js:234 | Sorting a duplicate-free list yields a duplicate-free list of exactly the same rows. |
| Sorting.SortedListingUnique | database.js:234 | Two sorted, duplicate-free listings of the same rows, under a key no two rows share, are identical. |
| Tasks.NumIds | database.js:289-291 | Exactly the number-typed entries of a tag or contest list are kept, each id as many times as the list holds it; the rest are skipped. |
| Tasks.NumIdsOfConcat | database.js:289-291 | The entries are handled one by one, so the kept ids keep the list's order: the ids of a concatenation are the ids of each part in turn. |
| Tasks.NumIdsOfEntry | database.js:290 | A single entry keeps its id iff it is a number. |
| Tasks.InsertPairs | database.js:288-297 | The loop of association inserts succeeds iff every kept id is fresh for the task, distinct and an existing parent, and the task row exists. On success it adds exactly one pair per id. |
| Tasks.CheckLinkUniqueness | database.js:553-568 | The probe reports unique iff no task has this link, excluding the given id only when it is truthy (non-null and non-zero). |
| Tasks.AddTask | database.js:250-311 | Success iff the difficulty passes the CHECK, the link is free and both id lists insert cleanly. The duplicate-link message appears iff the CHECK passes and the link is taken. A failure leaves the store unchanged. Success writes exactly the new row (with the derived CF flag) and its pairs under the next id. Validity is kept. |
| Tasks.AddKeepsValid | database.js:23-78 | A committed create keeps every schema constraint and foreign key. |
| Tasks.UpdateTask | database.js:360-411 | Success iff the CHECK passes, no other task holds the link and the lists insert; a missing id checks nothing and succeeds only with no number-typed ids. The store is then either unchanged or has the row overwritten and the task's pairs replaced. Validity is kept. |
| Tasks.UpdateKeepsValid | database.js:23-78 | A committed update of an existing task keeps every schema constraint and foreign key. |
| Tasks.DeleteTask | database.js:418-430 | Success iff the task exists; the row and every pair naming it are removed and nothing else changes. |
| Tasks.GetTaskById | database.js:318-352 | A task is returned iff its id is stored. |
| Tasks.TagFilterMeansEveryTag | database.js:185-194 | For a non-empty, duplicate-free tag list, the COUNT(DISTINCT) clause holds iff the task carries every requested tag. |
| Tasks.RepeatedTagMatchesNothing | database.js:185-194 | A tag list that names a tag twice matches no task, because the distinct count can never reach the list's length. |
| Tasks.ListingCharacterised | database.js:175-198 | For a duplicate-free tag list, a task is listed iff its difficulty meets each active bound (a NULL difficulty fails an active bound) and it carries every requested tag. A list with a repeated tag is covered by `Tasks.RepeatedTagMatchesNothing`. |
| Tasks.NoFilterListsEverything | database.js:175-200 | With no active bound (absent or 0) and no tags, every task is listed. |
| Tasks.TagOrderIrrelevant | database.js:185-194 | Tag lists that are permutations of each other select the same tasks. |
| Tasks.ViewTask | database.js:156-168 | The view carries the stored row with exactly the task's joined tags and contests. |
| Tasks.ListTasks | database.js:142-201 | Every matching task appears exactly once with its joined tags and contests, and nothing else appears. |
| Tasks.AddDerivesCfFlag | database.js:279-283 | The stored CF flag is the one derived from the link; flipping the caller's flag changes nothing. |
| Tasks.UpdateDerivesCfFlag | database.js:377-384 | The same for an update. |
| Tasks.AddThenGet | database.js:281-297 | After a create, fetching the new id returns the written row with exactly the number-typed tag and contest ids. |
| Tasks.UpdateReplacesAssociations | database.js:386-398 | After an update the task's tags and contests are exactly the new number-typed ids; every other task keeps its own. |
| Tasks.UpdateOfMissingTaskSucceeds | database.js:380-403 | Updating a missing id with no number-typed ids reports success and changes nothing. |
| Tasks.KeepingOwnLinkNeverCollides | database.js:380-384 | An update that keeps the task's own link is never rejected for its link. |
| Tasks.TwoLinklessTasksCollide | database.js:262 | Once a task without a link exists, a second one is rejected with the duplicate-link message and the store is unchanged. |
| Tasks.ProbeAgreesWithAdd | database.js:553-568 | For an admissible difficulty, the probe says unique iff the create is not rejected for its link. |
| Tasks.ProbeAgreesWithUpdate | database.js:553-568 | The same for an edit, with the task's own non-zero id excluded. |
| Tasks.DeleteTaskCascades | database.js:67-77 | After a delete no pair names the task, and every other task keeps its tags and contests. |
| Catalog.AddTag | database.js:437-447 | Success iff no tag has the title, and then exactly one tag is added under the next id; otherwise the title message and no change. |
| Catalog.UpdateTag | database.js:455-468 | A missing id reports not found before the title is checked; success iff no other tag has the title, and then only that tag's title changes. |
| Catalog.DeleteTag | database.js:475-485 | Success iff the tag exists; it is removed along with its pairs. |
| Catalog.DeleteTagCascades | database.js:76-77 | Deleting a tag removes exactly that tag from every task and leaves contests and task rows alone. |
| Catalog.UpdateTagKeepsAssociations | database.js:455-460 | A rename keeps every task's tag ids and sets the new title. |
| Catalog.ListTags | database.js:233-235 | Exactly the stored tags, each once, ordered by title. |
| Catalog.TagListingDetermined | database.js:233-235 | Because titles are unique, only one listing satisfies that description. |
| Catalog.AddContest | database.js:493-504 | Success iff no contest has the same (title, year), and then exactly one contest is added; otherwise the contest message and no change. |
| Catalog.UpdateContest | database.js:513-527 | A missing id reports not found first; success iff no other contest has the (title, year), and then only that contest changes. |
| Catalog.DeleteContest | database.js:534-545 | Success iff the contest exists; it is removed along with its pairs. |
| Catalog.DeleteContestCascades | database.js:67-68 | Deleting a contest removes exactly that contest from every task and leaves tags and task rows alone. |
| Catalog.ListContests | database.js:241-243 | Exactly the stored contests, each once, ordered by title (contests that share a title in any order). |
| Accounts.Login | database.js:209-227 | Unknown user iff the name is absent; success iff the password verifies against the stored hash, and then the stored role is returned. |
| Accounts.RotateAdminPassword | database.js:576-605 | The guards in order: the admin must exist, then the old password must verify, then the new one must be at least 6 UTF-16 units. Only then is the admin's hash replaced. Any rejection changes nothing. |
| Accounts.RotateThenLogin | database.js:592-599 | After a rotation the admin logs in with the new password and gets the admin role. |
| Accounts.RotateTouchesOnlyAdmin | database.js:595 | A rotation changes no other account and nothing outside the users table. |
| Csv.EscapeCsvField | renderer.js:806-812 | A field needing no quotes is unchanged. Otherwise the result is wrapped in quotes, and un-doubling its inside gives the field back. |
| Csv.NeedsQuotingIffSpecial | renderer.js:808 | The three `includes` tests hold iff the field has a `;`, a `"` or a line break. |
| Csv.UndoubleDouble | renderer.js:809 | Doubling quotes loses nothing: un-doubling restores the text. |
| Csv.QuotedFieldRoundTrip | renderer.js:808-810 | A field with a special character is written as quote, doubled text, quote, and reads back as itself. |
| Csv.PlainFieldUnchanged | renderer.js:811 | A field without special characters, the empty field included, is written unchanged. |
| Csv.EscapeEncodes | renderer.js:806-812 | Every escaped field is a valid encoding of its input in the dialect. |
| Csv.ReadFieldOf | renderer.js:806-812 | The reader reads any encoded field back, up to its delimiter. |
| Csv.ReadRecordOf | renderer.js:826 | A `;`-joined line of encoded cells reads back as the values. |
| Csv.ParseDocumentOf | renderer.js:829 | A `\n`-joined document of such lines reads back as the records. |
| Csv.MultiItemListQuoted | renderer.js:823-824 | A contest or tag list of two or more titles is always quoted, since the list separator holds `;`. |
| Csv.HeadersPlain | renderer.js:798 | No header cell holds a special character. |
| Csv.CellsEncodeValues | renderer.js:814-826 | When the unescaped id, difficulty, link and flag columns are plain, each cell encodes its value. |
| Csv.RowCellsEncodeValues | renderer.js:814-826 | With a plain link, every cell of a task's row encodes the task's value for that column. |
| Csv.Report | renderer.js:792-795 | An empty listing yields no report. |
| Csv.DocumentRoundTrip | renderer.js:826-829 | A plain header line plus task lines read back as the header and each task's eleven values, when no link holds a special character. |
| Csv.ReportRoundTrip | renderer.js:798-829 | The report reads back as the header row followed by every task's values, in listing order, when no link holds a special character. |
| Ui.CheckboxAgreesWithStoredFlag | renderer.js:87-95 | The checkbox is checked iff the repository will store the task as CF-ready. |
| Ui.ProbeLink | renderer.js:101-113 | An empty link hides the warning. Otherwise the warning shows iff some other task holds the link, excluding a truthy current id. |
| Ui.CreateWarningPredictsRejection | renderer.js:115 | For a non-empty link and an admissible difficulty, the create form's warning shows iff `addTask` would reject the link. |
| Ui.EditWarningPredictsRejection | renderer.js:116-119 | The same for the edit form and `updateTask`, with the task's own id. |
| Ui.EmptyLinkSlipsPastProbe | renderer.js:102-105 | With an empty link the warning stays hidden, yet the create is rejected for its link once a link-less task exists. |
| Ui.CheckedTagIds | renderer.js:763-764 | Reading the checked boxes' id text back with `parseInt` gives exactly the checked ids, which as AUTOINCREMENT ids are safe integers. |
| Ui.BuildFilter | renderer.js:760-770 | The filter's tag list is exactly the checked tag ids, in page order. |
| Ui.NonNumericBoundIgnored | renderer.js:761-768 | Each bound field, min and max alike, yields no bound and so no clause when it holds no digit. |
| Ui.TypedBoundsRead | renderer.js:778-787 | Safe integers typed into the bound fields become exactly those bounds. |
| Ui.EmptyPanelListsEverything | renderer.js:760-772 | An empty filter panel lists every task. |
| Ui.PasswordForm | renderer.js:271-285 | Too short iff under 6 UTF-16 units. Mismatch iff long enough but different from the confirmation. Submitted only when both pass. |
| Ui.SubmittedFormRotates | renderer.js:271-285 | A submitted form never trips the repository's length guard: with the admin present and the old password right, the rotation goes through and the admin can log in with the new password. |

## Left out

- `main.js` and `preload.js`:
  - the Electron window;
  - the IPC bridge;
  - the report file dialog.
  They only forward calls.
- `initDatabase`:
  - table creation is the store's shape plus `Schema.Valid`;
  - seeding the admin account and the `process.exit` on failure are not modelled.
- Database errors other than the constraint violations modelled here, such as a
  locked or corrupt file. Each operation's `catch` branch and its generic
  message are represented by one `DbError` reply.
- Tasks.AddTask: the `difficulty` argument is taken as already read by
  `parseInt` (`None` for `NaN`). Non-integer ids, titles and years (`NaN`,
  fractions, `null`) are not modelled: the forms always send integers and text.
- `NaN` among tag or contest ids: the checkboxes always carry numeric ids.
- Contests with a NULL year. The model's year is an integer, since the contest
  form always sends one.
- bcrypt: modelled as an abstract digest that verifies exactly the secret it was
  made from. Its cost factor, its randomness and its 72-byte truncation are left
  out.
- Text.ParseIntOfDecimal: stated only for safe integers, up to 2^53 in magnitude.
  JavaScript numbers are doubles: beyond that bound `parseInt` rounds, and from
  1e21 on `String(n)` writes exponent form. The model's `ParseInt` and
  `DecimalString` are exact for every integer, so they agree with JavaScript only
  within the bound. Task, tag and contest ids and difficulties stay far inside it.
- Ui.TypedBoundsRead: stated only for safe integers, for the same reason.
- Ui.CheckedTagIds: requires the checked ids to be safe integers, for the same reason.
- Ui.BuildFilter: requires the checked ids to be safe integers, for the same reason.
- Ui.NonNumericBoundIgnored: requires the checked ids to be safe integers, for the same reason.
- The leading whitespace `parseInt` skips is modelled as the ASCII and common
  JavaScript whitespace characters. Other Unicode space separators are not included.
- Tasks.ListTasks: the row order of `getAllTasks` is left unspecified (the query
  has no ORDER BY). The order inside the JSON tag and contest arrays is left
  out too: they are sets here.
- Tasks.GetTaskById: its contract says only when a row comes back. What it
  returns is stated in `Tasks.AddThenGet`.
- The JSON encoding and decoding of the tag and contest arrays.
- DOM rendering, modal handling, the 500 ms debounce of the link probe, and the
  task-form submit guard that refuses to submit while a link warning is shown.
- Csv.EscapeCsvField: modelled on strings only. Every call site passes a stored
  text column or a `join` result, so the `String(field || '')` coercion of
  `null`, `undefined` or `0` is not modelled.
- Csv.DocumentRoundTrip: stated only for reports whose links hold no `;`, `"` or
  line break. The link column is written unescaped, so a link with such a
  character cannot be read back.
- Writing the report to disk (`saveReport`).
