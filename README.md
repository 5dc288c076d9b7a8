# CashVault waitlist, modelled in Dafny

CashVault's website is mostly presentational. It has one part with state and rules: the waitlist. This project models that part, plus the pitch deck's slide navigation.

- **Signup** (`POST /api/waitlist`, module `WaitlistStore`, file `signup.dfy`). The endpoint checks that the email is present and contains `@`. It creates the `waitlist` table and its email index if they are absent, then inserts `(email, name || null)`. It answers 200, 400, 409 (SQLSTATE 23505, a UNIQUE violation) or 500. The database is a value `Db`: whether the table and the index exist, the rows in insertion order, and the next value of the SERIAL `id` sequence. `Signup` is the pure specification of one call. `WaitlistTable` is a class whose fields are that state. Its `Post` method runs the statements one after another and is proved equal to `Signup`. `Consistent` is the table invariant: emails are distinct, ids increase and stay below the sequence, the sequence stays within the 32-bit `integer` range, every row is well formed, there are no rows before the table exists, and the email index exists once there are rows. `ReplayKeepsTable` carries the invariant through any history of calls.
- **Listing** (`GET /api/waitlist/list`, module `WaitlistListing`, file `listing.dfy`). A read-only function of the database. It returns every row, newest `created_at` first, with `count` equal to the number of rows. A failure is a 500 and carries no data.
- **Dashboard** (module `WaitlistDashboard`, file `dashboard.dfy`). The CSV export is a pure string function. The model also covers the "Signup"/"Signups" label, the rule that disables export, and a `Dashboard` class that holds `entries`, `loading` and `error` and is updated by `FetchWaitlist`.
- **Pitch deck** (module `PitchDeck`, file `pitch.dfy`). The next/previous index arithmetic and its guards, the "Slide i / n" indicator, and a `Deck` class that holds the current slide.
- `text.dfy` (module `Text`) defines `Join`, which is `Array.prototype.join`, and `Split`, which is `String.prototype.split`. `Split` is used to read the exported CSV back. `common.dfy` defines `Option` and `Timestamp`.

Things the environment supplies are parameters:
- the clock that fills `created_at` (`now`);
- which SQL statement, if any, the backend fails (`failing`);
- whether the listing's SELECT reaches the backend (`reachable`);
- what the dashboard's `fetch` produced (`FetchResult`);
- the locale date formatter (`fmt`), about which nothing is assumed.

Behaviour worth knowing, as the code has it:
- Before the first valid signup the table does not exist. The listing's SELECT then fails, and `Get` answers 500 rather than an empty list. An existing empty table lists as `success` with no rows (`EmptyTableListsNothing`).
- Every response other than 200 leaves the rows unchanged. The contracts promise the whole database untouched in three cases: a 400, an unparsable body, and a failing CREATE TABLE. A 500 from CREATE INDEX or INSERT can still have created the table and the index. A 409 finds the table and the index in place and only uses up one sequence value, because the id is drawn before the UNIQUE check (`DuplicateOnlySpendsId`).
- The `id` column is a SERIAL, a PostgreSQL `integer`, so its sequence ends at 2147483647. Once that value has been handed out, every valid signup is answered 500 and no row is added. Since each 409 spends an id, duplicate signups alone can use the sequence up (`DuplicatesSpendIds`).
- `VARCHAR(255)` follows PostgreSQL's rule for assignment. A longer value is an error (500) unless everything past 255 characters is spaces, and then those spaces are cut off. A NUL character is refused. Email uniqueness is exact, case-sensitive string equality.
- `ORDER BY created_at DESC` does not order rows with equal timestamps. `OrderByNewest` picks one order. `IsListing` states what any order satisfies, and `ListingIsUnique` proves the order is fully determined when no two timestamps are equal.

## Model

| member | source | states |
|---|---|---|
| `WaitlistStore.ValidEmail` | app/api/waitlist/route.ts:7 | the email passes exactly when it is present and contains `@`; the separate test for the empty string adds nothing |
| `WaitlistStore.NameToStore` | app/api/waitlist/route.ts:29 | an absent or empty name becomes NULL and is never stored as `""`; a non-empty name is kept as given |
| `WaitlistStore.ToVarchar` | app/api/waitlist/route.ts:16-17 | a stored value has at most 255 characters and no NUL; it is the given text with at most some trailing spaces cut off; a short NUL-free value is stored unchanged; a longer NUL-free value whose excess is all spaces is stored as exactly its first 255 characters; a longer value with any other character past 255 is refused; a value with NUL is refused |
| `WaitlistStore.NameColumn` | app/api/waitlist/route.ts:17-29 | no name is stored as NULL; a stored name fits the column, has no NUL and is a prefix of the given name; a short NUL-free name is stored unchanged; a longer NUL-free name whose excess is all spaces is stored as exactly its first 255 characters; a longer name with any other character past 255 cannot be stored; a name with NUL cannot be stored |
| `WaitlistStore.Consistent` | app/api/waitlist/route.ts:14-18 | the table invariant (UNIQUE emails, SERIAL ids increasing in insertion order and below the sequence, a sequence within the `integer` range, well-formed rows, the email index in place once there are rows); when it holds and the table does not exist, there are no rows, no index and the sequence is fresh |
| `WaitlistStore.RowsKeyedByEmailAndId` | app/api/waitlist/route.ts:15-16 | in a consistent table two rows with the same email, or with the same id, are the same row, and there are exactly as many distinct emails as rows |
| `WaitlistStore.CreateTableIfNotExists` | app/api/waitlist/route.ts:13-20 | after the statement the table exists and nothing else changes (rows, sequence and index flag are kept), and on an existing table the statement changes nothing |
| `WaitlistStore.CreateIndexIfNotExists` | app/api/waitlist/route.ts:22-24 | after the statement the index exists, nothing else changes, and on an existing index the statement changes nothing |
| `WaitlistStore.InsertRow` | app/api/waitlist/route.ts:27-30 | run after both CREATE statements, as the handler runs it, the insert succeeds exactly when both values fit their columns, the sequence has an id left and the stored email is not yet present; it then appends one row with the next id and the current time; a duplicate reports a UNIQUE violation, keeps the rows and spends one id; a value error, or a sequence past 2147483647, changes nothing; the invariant is kept |
| `WaitlistStore.Signup` | app/api/waitlist/route.ts:3-42 | the response is one of the four fixed status/body pairs; 400 exactly when the email is missing, empty or lacks `@`, and then the database is untouched; 409 exactly when all statements run, both values fit, the sequence has an id left and the stored email is already present; 200 under the same conditions when the email is new, and then exactly one row is appended; a 200 or a 409 spends exactly one id; a failing CREATE TABLE leaves the database untouched; any response other than 200 keeps the rows; the sequence never goes back; the invariant is kept |
| `WaitlistStore.ReplayKeepsTable` | app/api/waitlist/route.ts:15-16 | after any sequence of calls the emails stay distinct and the ids increasing; earlier rows stay a prefix, so none is changed or removed; every new row's id is one the sequence had not yet handed out |
| `WaitlistStore.SecondSignupRejected` | app/api/waitlist/route.ts:35-37 | after a successful signup the new row is the only one with that email, and the same email again, under any name that fits the column, adds no row and, while the sequence has an id left for it, gets 409 |
| `WaitlistStore.ExhaustedSequenceRefusesSignups` | app/api/waitlist/route.ts:15 | once the sequence has handed out 2147483647, every request gets 400 or 500 and no row is added |
| `WaitlistStore.DuplicateOnlySpendsId` | app/api/waitlist/route.ts:13-37 | a 409 is only possible once the table and its index exist, and it changes nothing but the sequence, which moves on by one |
| `WaitlistStore.DuplicateSignup` | app/api/waitlist/route.ts:35-37 | a signup with an email already stored, under a name that fits, when every statement runs and the sequence has an id left, gets 409, keeps the rows and spends one id |
| `WaitlistStore.DuplicatesSpendIds` | app/api/waitlist/route.ts:15-16 | any run of duplicate signups that fits in what is left of the sequence keeps the rows and moves the sequence on by one per call |
| `WaitlistStore.SchemaStepIdempotent` | app/api/waitlist/route.ts:13-24 | running the schema statements a second time leaves the database as the first run left it, with the rows unchanged |
| `WaitlistStore.BareAtSignJoins` | app/api/waitlist/route.ts:7 | the only syntactic check is containment of `@`: the email `"@"` is accepted on a fresh database |
| `WaitlistStore.EmptyNameStoredAsNull` | app/api/waitlist/route.ts:29 | a successful signup with name `""` stores NULL as the name |
| `WaitlistStore.AliceJoins` | app/api/waitlist/route.ts:27-32 | the first signup on a fresh database creates the table and the index and stores one row with id 1 |
| `WaitlistStore.DuplicateExample` | app/api/waitlist/route.ts:35-37 | "a@x.com" as Alice and then as Bob: the second call gets 409 and only Alice's row remains |
| `WaitlistStore.EmailsAreCaseSensitive` | app/api/waitlist/route.ts:16 | "A@x.com" is not a duplicate of "a@x.com": uniqueness is exact string equality |
| `WaitlistStore.WaitlistTable.constructor` | app/api/waitlist/route.ts:13-20 | a database before any signup has no table, no index, no rows and a fresh sequence, and satisfies the invariant |
| `WaitlistStore.WaitlistTable.CreateTable` | app/api/waitlist/route.ts:13-20 | the object's new state is `CreateTableIfNotExists` of the old one, and the invariant is kept |
| `WaitlistStore.WaitlistTable.CreateIndex` | app/api/waitlist/route.ts:22-24 | the object's new state is `CreateIndexIfNotExists` of the old one, and the invariant is kept |
| `WaitlistStore.WaitlistTable.Insert` | app/api/waitlist/route.ts:27-30 | the object's new state and the reported outcome are those of `InsertRow`, and the invariant is kept |
| `WaitlistStore.Answer` | app/api/waitlist/route.ts:32-40 | a new row gives 200, SQLSTATE 23505 gives 409, and any other INSERT error gives 500 |
| `WaitlistStore.WaitlistTable.Post` | app/api/waitlist/route.ts:3-42 | the handler's statements, run one after another on the object, produce exactly the state and response of `Signup`, and the invariant is kept |
| `WaitlistListing.InsertByCreatedAt` | app/api/waitlist/list/route.ts:10 | placing one row in a newest-first sequence keeps it newest-first and adds exactly that row |
| `WaitlistListing.OrderByNewest` | app/api/waitlist/list/route.ts:7-11 | the result is a permutation of all rows, each as often as stored, in non-increasing `created_at` order |
| `WaitlistListing.Get` | app/api/waitlist/list/route.ts:3-22 | `success` holds exactly when the backend answers and the table exists; then `data` is a newest-first permutation of all rows and `count` is its length; otherwise the answer is status 500 with the fixed error and no data |
| `WaitlistListing.EmptyTableListsNothing` | app/api/waitlist/list/route.ts:13-17 | an existing empty table is listed as success with empty data and count 0 |
| `WaitlistListing.NewestFirstPairwise` | app/api/waitlist/list/route.ts:10 | in a newest-first listing every row is at least as new as every later row |
| `WaitlistListing.ListingIsUnique` | app/api/waitlist/list/route.ts:10 | when no two rows share a timestamp, two newest-first orders of the same rows are equal |
| `WaitlistListing.SingleRowListing` | app/api/waitlist/list/route.ts:7-17 | a table with one row is listed as exactly that row with count 1 |
| `WaitlistListing.SignupThenListed` | app/api/waitlist/route.ts:27-32 | after a successful signup the listing succeeds with one row more than before, shows the new row with its stored email and name, and shows no other row with that email |
| `WaitlistListing.DuplicateExampleListsAlice` | app/api/waitlist/route.ts:35-37 | after Alice and then Bob sign up with "a@x.com", the listing shows Alice's row alone |
| `WaitlistListing.ThreeSignupsNewestFirst` | app/api/waitlist/list/route.ts:7-11 | rows created at t1 < t2 < t3 are listed third, second, first |
| `WaitlistDashboard.CountLabel` | components/waitlist-dashboard.tsx:77 | the label starts with "Signup"; it is exactly "Signup" when there is one entry and "Signups" otherwise, zero included |
| `WaitlistDashboard.ExportDisabled` | components/waitlist-dashboard.tsx:83 | export is disabled exactly when there are no entries |
| `WaitlistDashboard.ExportDisabledIffHeaderOnly` | components/waitlist-dashboard.tsx:83 | for every date formatter, export is disabled (no entries) exactly when the exported text would be the header line alone |
| `WaitlistDashboard.NameCell` | components/waitlist-dashboard.tsx:43 | a NULL name is rendered as an empty cell and any other name as itself |
| `WaitlistDashboard.RowCells` | components/waitlist-dashboard.tsx:42-43 | an entry has one cell under each of the three header cells: the name cell, the email, the formatted date |
| `WaitlistDashboard.RowLine` | components/waitlist-dashboard.tsx:45 | a data line is the name (empty for NULL), ',', the email, ',', the formatted date |
| `WaitlistDashboard.RowLines` | components/waitlist-dashboard.tsx:43-45 | there is one data line per entry, in the entries' order; line i is entry i's name, email and formatted date separated by ',' |
| `WaitlistDashboard.ExportCsv` | components/waitlist-dashboard.tsx:41-45 | the text starts with `Name,Email,Date Joined`; with no entries it is only that header; otherwise a line break follows the header |
| `WaitlistDashboard.ExportLines` | components/waitlist-dashboard.tsx:45 | when no cell contains a line break, the text splits into exactly entries + 1 lines: the header, then entry i's line at position i + 1, with no trailing empty line |
| `WaitlistDashboard.ExportRoundTrip` | components/waitlist-dashboard.tsx:43-45 | when no cell contains a line break and no cell of entry i contains ',', splitting line i + 1 on ',' gives back entry i's name (empty for NULL), email and formatted date |
| `WaitlistDashboard.RowRoundTripIff` | components/waitlist-dashboard.tsx:43-45 | a data line splits back on ',' into its three cells if and only if no cell contains ',' |
| `WaitlistDashboard.LineBreakSplitsRow` | components/waitlist-dashboard.tsx:43-45 | a line break in any cell of any entry means the text no longer splits into the header followed by one line per entry |
| `WaitlistDashboard.UnquotedCommaShiftsCells` | components/waitlist-dashboard.tsx:43-45 | cells are not quoted: the name "Doe, Jane" reads back as two cells and pushes the email into the third cell |
| `WaitlistDashboard.Dashboard.constructor` | components/waitlist-dashboard.tsx:16-18 | on mount there are no entries, loading is true and there is no error |
| `WaitlistDashboard.Dashboard.FetchWaitlist` | components/waitlist-dashboard.tsx:24-39 | a `success` answer replaces the entries with its data; an answer without `success` sets "Failed to load waitlist data"; an exception sets "Error fetching waitlist"; in both error cases the entries are kept; loading is false afterwards in every case |
| `WaitlistDashboard.Dashboard.ExportToCsv` | components/waitlist-dashboard.tsx:41-45 | the exported text is `ExportCsv` of the current entries |
| `Text.Join` | components/waitlist-dashboard.tsx:45 | joining a single part gives that part; with several parts the first part comes first and is followed by the separator |
| `Text.SplitPartsAvoid` | components/waitlist-dashboard.tsx:45 | no part produced by splitting contains the separator |
| `Text.SplitJoin` | components/waitlist-dashboard.tsx:45 | splitting a joined sequence of parts gives back the parts when none of them contains the separator |
| `PitchDeck.SlideCount` | app/pitch/page.tsx:10-222 | the deck has exactly 8 slides |
| `PitchDeck.NextIndex` | app/pitch/page.tsx:224-226 | the next index stays in [0, n): it is i + 1, or 0 after the last slide |
| `PitchDeck.PrevIndex` | app/pitch/page.tsx:228-230 | the previous index stays in [0, n): it is i - 1, or n - 1 before the first slide |
| `PitchDeck.PrevUndoesNext` | app/pitch/page.tsx:224-230 | going back after going on returns to the same slide |
| `PitchDeck.NextUndoesPrev` | app/pitch/page.tsx:224-230 | going on after going back returns to the same slide |
| `PitchDeck.PrevDisabled` | app/pitch/page.tsx:262 | Previous is disabled exactly where going back would wrap around; while it is enabled it moves to i - 1 |
| `PitchDeck.NextDisabled` | app/pitch/page.tsx:286 | Next is disabled exactly where going on would wrap around; while it is enabled it moves to i + 1 |
| `PitchDeck.Indicator` | app/pitch/page.tsx:245 | the header shows i + 1 out of n, which lies between 1 and n |
| `PitchDeck.Deck.constructor` | app/pitch/page.tsx:8 | the deck opens on slide 0 |
| `PitchDeck.Deck.NextSlide` | app/pitch/page.tsx:224-226 | the current index becomes `NextIndex` of the old one and stays a valid slide |
| `PitchDeck.Deck.PrevSlide` | app/pitch/page.tsx:228-230 | the current index becomes `PrevIndex` of the old one and stays a valid slide |
| `PitchDeck.Deck.GoToSlide` | app/pitch/page.tsx:232-234 | the current index becomes exactly k; callers are the indicator dots, which pass only indices of slides |
| `PitchDeck.Deck.Title` | app/pitch/page.tsx:252 | the slide on screen is one of the deck's slides |

## Left out

- The Neon client, the SQL text and the connection string from `process.env` are not modelled. They are replaced by the abstract `Db` value and its statement functions.
- Concurrent signups are not modelled. Calls run one at a time. The UNIQUE constraint that settles a race between two requests with the same email is modelled only as a sequential check.
- The clock is a parameter. The model does not require timestamps to increase, and Postgres does not guarantee it across transactions either.
- JSON parsing is not modelled. A body that cannot be destructured is the single case `Unparsable` (500). A non-string `email` or `name` field, such as a number or an array, is not modelled.
- Logging with `console.error` is not modelled.
- Strings are sequences of Dafny characters, which are Unicode scalar values, so the `VARCHAR(255)` limit counts code points as Postgres does. JavaScript strings are sequences of UTF-16 code units and can hold a lone surrogate; no Dafny string represents one, so such input is not modelled.
- `WaitlistStore.InsertRow`: whether a value too long for its column spends a sequence value depends on when Postgres checks the length. The model assumes the check happens before the id is drawn, so no value is spent.
- `WaitlistListing.Get`: when several rows share a timestamp, the model returns one fixed order: a row that comes earlier in the table comes first. The database may return any order. Callers should rely only on `IsListing`.
- The date formatter `toLocaleDateString` is an arbitrary function `fmt`. The file name, which contains the date, is not modelled. Neither is the download through Blob, object URL and anchor click.
- The dashboard's `fetch` and `response.json()` calls are not modelled. Their result is the parameter `FetchResult`.
- The number shown next to the label (`...` while loading) is not modelled, nor is the table rendering.
- The slide contents are JSX markup. They appear only as titles.
- The waitlist form and modal, the savings-product form mockups, and the purely presentational pages and components are outside this model.
