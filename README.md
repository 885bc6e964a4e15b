# pbweb back end, modelled in Dafny

pbweb is a small credential vault. Its serverless back end exposes:

- record endpoints: list with pagination, add, check (move from Active to Checked), delete and reassign;
- user administration: create users, list them without password hashes, delete them;
- a login endpoint guarded by a per-IP rate limiter;
- an audit logger that keeps the newest 1000 actions.

A client-side parser turns a raw line `email:password | Key = Value | ...` into a dictionary. A command-line script uploads a JSON dump; its argument loop and URL normalisation are part of the model.

The record document `{records, checked, users}` lives in one blob. Every mutating handler:

1. reads the whole document;
2. changes its copy in memory;
3. writes the whole copy back.

Store calls can fail. Each one is modelled by a boolean parameter (`readOk`, `writeOk`):

- a failed `readDB` yields the empty default document;
- a failed `writeDB` is ignored, and the handler still answers 200;
- a failed store call in `createUser` and `getUsers` raises inside the `try` block, and the handler answers 500.

Ids from `uuidv4()`, password hashes from `bcrypt`, and times from `Date.now()` and `new Date()` are parameters too. `now` and `isoNow` stand for the time; `freshIds[i]` is the id given to item `i`.

Module layout, one file each:

| module | file | contents |
|---|---|---|
| `Common` | `common.dfy` | `Option`, JavaScript string truthiness, `filter` (`Keep`), `findIndex` (`FirstIndex`), `splice(i, 1)` (`RemoveAt`) |
| `Text` | `text.dfy` | `trim` with the ECMAScript white-space set, one-character `split`, `indexOf`, `startsWith`, `endsWith`, decimal `toString` |
| `Http` | `http.dfy` | status codes, results, the session principal, the client-IP header fallback |
| `Accounts` | `accounts.dfy` | `createUser` (a class over `all_users`) and `getUsers` |
| `Records` | `records.dfy` | the document, the ownership visibility rule, pagination, `getRecords` |
| `RecordStore` | `record_store.dfy` | `addRecord`, `checkRecord`, `deleteRecord`, `assignRecords`, `deleteUser` (a class over the `data` blob) |
| `Login` | `login.dfy` | the rate limiter and `login` (a class over the `rate_limits` store) |
| `ActionLog` | `action_log.dfy` | `logAction` (a class over `recent_logs`) |
| `Parser` | `parser.dfy` | `parseRecord` |
| `UploadCli` | `upload_cli.dfy` | the argument loop and URL normalisation of `upload-blobs.js` |

Behaviours of the code a reader might not expect:

- `login.cjs` accepts only the hard-coded `admin` user and never consults the users list.
- The session that `login.cjs` issues carries no role, so it never passes a `role === 'admin'` gate (`Login.AdminSessionIsNotAdminRole`).
- `login.cjs` does not call `logAction`.
- Most record handlers check the session (401) before the verb (405); only `createUser` and `getUsers` check the verb first.
- `deleteUser` answers 401, not 403, to a non-admin.
- `deleteUser` reads `users` from the record document. That document has no `users` field by default, so the lookup throws and the handler answers 500.

## Model

| member | source | states |
|---|---|---|
| Common.Keep | netlify/functions/getRecords.cjs:22-33 | `filter` keeps exactly the elements satisfying the predicate, each as often as it occurs |
| Common.KeepMembers | netlify/functions/getRecords.cjs:22-33 | an element is in the filtered list iff it is in the list and satisfies the predicate |
| Common.KeepAppend | netlify/functions/getRecords.cjs:22-33 | filtering distributes over concatenation, so relative order is kept |
| Common.CountWhereIsKeep | netlify/functions/assignRecords.cjs:22-30 | a counter bumped on every hit equals the length of the filtered list |
| Common.KeepNone | netlify/functions/getRecords.cjs:22-33 | a filter that no element passes returns the empty list |
| Common.FirstIndex | netlify/functions/checkRecord.cjs:18-21 | `findIndex` returns the first matching index, or -1 (modelled as `None`) iff nothing matches |
| Common.RemoveAt | netlify/functions/checkRecord.cjs:26 | `splice(i, 1)` drops exactly element `i`, keeps the others in order, and removes one occurrence from the multiset |
| Text.Trim | src/utils/parser.js:7 | `trim` returns the infix of the input that remains once the leading and the trailing white space are cut; everything cut is white space, the result has none at either end, and a string with none at its ends is unchanged |
| Text.TrimKeepsText | src/utils/parser.js:7 | a string with a non-space character trims to a non-empty string |
| Text.TrimKeepsChars | src/utils/parser.js:7 | trimming introduces no character, so no separator appears by trimming |
| Text.TrimIdempotent | upload-blobs.js:74 | trimming twice is trimming once |
| Text.IndexOf | src/utils/parser.js:26 | `indexOf` returns the first occurrence, or -1 (modelled as `None`) iff the character is absent |
| Text.Split | src/utils/parser.js:7 | `split` returns at least one piece, no piece holds the separator, and joining the pieces gives the text back |
| Text.JoinSplit | src/utils/parser.js:7 | the converse round trip: splitting the join of separator-free pieces returns those pieces |
| Text.DecimalString | netlify/functions/utils/logger.cjs:16 | `toString` of a non-negative integer is non-empty decimal digits with no leading zero |
| Text.DecimalRoundTrip | netlify/functions/utils/logger.cjs:16 | reading the digits back gives the number |
| Text.DecimalInjective | netlify/functions/utils/logger.cjs:16 | distinct numbers give distinct strings |
| Http.ClientIp | netlify/functions/login.cjs:22 | the IP is `client-ip` if truthy, else `x-forwarded-for` if truthy, else `unknown`, and never empty |
| Http.IsAdminCaller | netlify/functions/assignRecords.cjs:6 | definition of the admin gate used by the handler contracts: a present principal whose role is `admin` |
| Accounts.RoleOrDefault | netlify/functions/createUser.cjs:41 | never empty: the given role when it is truthy, and `user` when it is missing or empty |
| Accounts.GetUsers | netlify/functions/getUsers.cjs:5-39 | 405 for a non-GET, 403 for a non-admin, 500 on a read failure; a GET by an admin with a successful read always answers 200, listing every stored user in order without the hash (an absent list as empty) |
| Accounts.UsersBlob.CreateUser | netlify/functions/createUser.cjs:7-55 | checks in order: 405, 403, 400 for a missing field, 500 on a read failure, 400 for a taken username, 500 on a write failure; otherwise appends the new user with a defaulted role and answers id, username and role; a failure leaves the list unchanged; usernames stay unique |
| Accounts.AppendKeepsUnique | netlify/functions/createUser.cjs:32-45 | the duplicate check before the push keeps usernames unique |
| Accounts.ListingAfterCreate | netlify/functions/getUsers.cjs:22-30 | after a creation the listing is the old listing plus the new user, without its hash |
| Records.Page | netlify/functions/getRecords.cjs:48-50 | the slice holds at most `limit` elements, starting at element `(page-1)*limit`; it is empty past the end |
| Records.CeilDiv | netlify/functions/getRecords.cjs:59 | `Math.ceil(total/limit)` is the least number of pages that holds `total` items |
| Records.Visible | netlify/functions/getRecords.cjs:22-33 | the ownership rule: a non-admin sees only its own records, and another user's record is visible only to an admin whose target names that user |
| Records.VisibleRecords | netlify/functions/getRecords.cjs:22-33 | the Active records shown are exactly the stored ones the ownership rule lets the caller see, no more of them than are stored |
| Records.VisibleChecked | netlify/functions/getRecords.cjs:36-45 | the Checked records shown are exactly the stored ones the same rule lets the caller see |
| Records.GetRecords | netlify/functions/getRecords.cjs:4-61 | 401 without a session, 405 for a non-GET; otherwise the requested page of the visible Active records, all visible Checked records, the total, the page and the page count |
| Records.NonAdminSeesOwnOnly | netlify/functions/getRecords.cjs:31-32 | a regular user sees exactly its own records, in Active and in Checked |
| Records.AdminDefaultView | netlify/functions/getRecords.cjs:28-29 | an admin without a target sees its own records and the ownerless ones |
| Records.AdminUnassignedView | netlify/functions/getRecords.cjs:25 | an admin asking for `unassigned` sees exactly the ownerless records |
| Records.AdminTargetView | netlify/functions/getRecords.cjs:26 | an admin asking for another id sees exactly that user's records |
| Records.VisibleKeepsOrder | netlify/functions/getRecords.cjs:22-33 | the visible records keep the stored order |
| Records.PagesPrefix | netlify/functions/getRecords.cjs:48-50 | pages 1 to n together are the first `n*limit` visible records |
| Records.NextPage | netlify/functions/getRecords.cjs:48-50 | page n continues exactly where page n-1 ended |
| Records.PagesCoverAll | netlify/functions/getRecords.cjs:47-59 | reading pages 1 to `totalPages` gives every visible record once, in order |
| Records.DefaultPaging | netlify/functions/getRecords.cjs:16-17 | with no paging parameters the answer is page 1 holding the first 50 visible records |
| RecordStore.Items | netlify/functions/addRecord.cjs:21 | an array body is the list of items itself; any other body value is a one-element list |
| RecordStore.ValidItem | netlify/functions/addRecord.cjs:25 | definition of a usable item, the vocabulary of the add contracts: a present, non-empty `rawLine` and a present `parsedData` |
| RecordStore.NewRecord | netlify/functions/addRecord.cjs:27-33 | the created record has the fresh id, the item's line and data, the caller as owner and the request time; its line is never empty |
| RecordStore.NewRecords | netlify/functions/addRecord.cjs:23-36 | every created record is owned by the caller and stamped with the time; there are no more records than items |
| RecordStore.NewRecordSource | netlify/functions/addRecord.cjs:23-35 | created record `k` is the `k`-th valid item's `rawLine` and `parsedData` with that item's fresh id, so input order is kept |
| RecordStore.NewRecordsCount | netlify/functions/addRecord.cjs:25-34 | exactly one record is created per valid item |
| RecordStore.NoValidItems | netlify/functions/addRecord.cjs:25-40 | nothing is created (so 400) iff no item has a truthy `rawLine` and a `parsedData` |
| RecordStore.NewRecordIds | netlify/functions/addRecord.cjs:28 | created records take distinct ids drawn from the fresh ids |
| RecordStore.AddKeepsWellFormed | netlify/functions/addRecord.cjs:35-42 | appending records with fresh ids keeps every id unique across Active and Checked |
| RecordStore.Stamp | netlify/functions/checkRecord.cjs:28-32 | a checked record carries the Active record unchanged, `checkedAt` the request time and `checkedBy` the caller's username |
| RecordStore.CheckTwiceNotFound | netlify/functions/checkRecord.cjs:18-26 | once checked, a record is no longer found in Active, so checking it again answers 404 |
| RecordStore.CheckKeepsWellFormed | netlify/functions/checkRecord.cjs:26-35 | moving a record from Active to Checked keeps ids unique |
| RecordStore.DeleteKeepsWellFormed | netlify/functions/deleteRecord.cjs:19-30 | removing a record from either list keeps ids unique |
| RecordStore.Reassign | netlify/functions/assignRecords.cjs:24-29 | only `ownerId` changes, and only for a listed id |
| RecordStore.Unassign | netlify/functions/deleteUser.cjs:38-44 | only `ownerId` changes, and only for the deleted user's records, which become ownerless |
| RecordStore.ReassignAll | netlify/functions/assignRecords.cjs:24-30 | the map keeps the length and rewrites each record in place |
| RecordStore.UnassignAll | netlify/functions/deleteUser.cjs:38-44 | the map keeps the length and rewrites each record in place |
| RecordStore.SameIdsKeepWellFormed | netlify/functions/assignRecords.cjs:24-32 | rewriting owners keeps ids unique |
| RecordStore.AssignCountsFoundOnly | netlify/functions/assignRecords.cjs:22-30 | ids not found in Active are skipped and not counted |
| RecordStore.AssignedVisibleToTarget | netlify/functions/assignRecords.cjs:24-30 | after reassignment the target's listing shows the record, and nothing under an id that was not stored |
| RecordStore.UnassignedAfterUserDelete | netlify/functions/deleteUser.cjs:36-44 | a deleted user's records move into the admin's default and `unassigned` views and out of every regular user's view |
| RecordStore.BuildRecords | netlify/functions/addRecord.cjs:18-36 | the loop yields the created records and the stored list with them appended |
| RecordStore.ReassignOwners | netlify/functions/assignRecords.cjs:22-30 | the loop yields the reassigned list and counts the listed records |
| RecordStore.UnassignOwner | netlify/functions/deleteUser.cjs:37-44 | the loop yields the unassigned list and counts the user's records |
| RecordStore.RemoveUser | netlify/functions/deleteUser.cjs:34 | every user with the id is removed, the others stay in order |
| RecordStore.RecordsBlob.ReadDB | netlify/functions/utils/db.cjs:16-32 | the stored document, or the empty default when nothing is stored or the read fails; a valid store gives a well-formed document |
| RecordStore.RecordsBlob.WriteDB | netlify/functions/utils/db.cjs:34-42 | the whole document is replaced on success, and nothing changes on failure |
| RecordStore.RecordsBlob.AddRecord | netlify/functions/addRecord.cjs:5-51 | 401, 405, 400 when no item is valid; otherwise answers the count and the new records and appends them to Active; fresh ids keep ids unique; after a failed read a successful write stores a document holding only the new records |
| RecordStore.RecordsBlob.CheckRecord | netlify/functions/checkRecord.cjs:4-44 | 401, 405, 404 when the id is not in Active; otherwise the first match leaves Active and goes to the end of Checked, stamped |
| RecordStore.RecordsBlob.DeleteRecord | netlify/functions/deleteRecord.cjs:4-41 | 401, 405; removes the first Active match, else the first Checked match, else 404; one record fewer overall; ids stay unique |
| RecordStore.RecordsBlob.AssignRecords | netlify/functions/assignRecords.cjs:4-41 | 403, 405, 400 without ids or target; otherwise reassigns the listed Active records and answers their count |
| RecordStore.RecordsBlob.DeleteUser | netlify/functions/deleteUser.cjs:4-52 | 401, 405, 400 for no id or the caller's own id; 500 without a users list; 404 for an unknown id; otherwise removes the user, makes its Active records ownerless and answers their count |
| Login.CountAfterReset | netlify/functions/login.cjs:58-61 | the count resets to 0 only once the last attempt is MORE than fifteen minutes old |
| Login.LockedOut | netlify/functions/login.cjs:50-55 | a locked-out row has at least five failures, and it is never one the reset at lines 57-60 would clear |
| Login.BadCredentials | netlify/functions/login.cjs:63-75 | definition of a failed attempt, used by `Decide` and the lockout lemmas: any username but `admin`, or a password that does not match |
| Login.Decide | netlify/functions/login.cjs:47-78 | 429 iff five or more failures and the last one under fifteen minutes ago; otherwise 401 iff the credentials are wrong, writing count+1, else success writing count 0 |
| Login.Step | netlify/functions/login.cjs:47-78 | a locked-out attempt leaves the row unchanged; any other attempt stamps the time and counts up or resets |
| Login.AdminSessionIsNotAdminRole | netlify/functions/login.cjs:80 | the issued session has no role, so it is not an admin role |
| Login.FailuresAccumulate | netlify/functions/login.cjs:58-75 | failures inside one fifteen-minute window add up to at least min(n, 5) |
| Login.FiveFailuresLockOut | netlify/functions/login.cjs:50-55 | five failures inside the window lock the IP out for the next attempt in that window, whatever the credentials |
| Login.FewFailuresDoNotLock | netlify/functions/login.cjs:50 | fewer than five attempts from a clean row never lock out |
| Login.ExactlyFifteenMinutes | netlify/functions/login.cjs:50-61 | at exactly fifteen minutes there is neither a lockout nor a reset |
| Login.SuccessClearsLockout | netlify/functions/login.cjs:77-78 | after a success the next attempt is never locked out |
| Login.RateLimits.GetRateLimit | netlify/functions/login.cjs:35-39 | the stored row, or `{0, 0}` for a missing row or a failed read |
| Login.RateLimits.UpdateRateLimit | netlify/functions/login.cjs:41-45 | the row is written on success, and a failed write changes nothing |
| Login.RateLimits.Login | netlify/functions/login.cjs:16-98 | 405 for a non-POST; otherwise the outcome and the row written are those of `Decide` on the stored row |
| Login.ReadFailureFailsOpen | netlify/functions/login.cjs:35-50 | a failed read never answers 429 |
| ActionLog.MakeEntry | netlify/functions/utils/logger.cjs:12-23 | the id is the decimal milliseconds; an anonymous caller gives `anonymous` and no user id; the IP and user-agent fall back to `unknown` |
| ActionLog.DistinctTimesDistinctIds | netlify/functions/utils/logger.cjs:16 | entries made at different milliseconds have different ids |
| ActionLog.NewestFirst | netlify/functions/utils/logger.cjs:27-33 | the new entry comes first, then at most 999 old entries in their order |
| ActionLog.Reverse | netlify/functions/utils/logger.cjs:28 | the list reversed, entry by entry |
| ActionLog.LogAllKeepsNewest | netlify/functions/utils/logger.cjs:27-35 | after any number of calls the log is the newest 1000 entries, newest first |
| ActionLog.LogStore.LogAction | netlify/functions/utils/logger.cjs:4-39 | on success the log becomes `NewestFirst`; any failure leaves it unchanged; the log never exceeds 1000 entries |
| Parser.Segments | src/utils/parser.js:7-8 | the trimmed pieces of the split on the bar character; never empty, and no piece holds a bar |
| Parser.HeadFields | src/utils/parser.js:13-21 | `email` and `password` are the trimmed pieces before and after the first `:`, else `rawFirst` |
| Parser.SegmentField | src/utils/parser.js:25-35 | the trimmed key and value around the first `=`, else `Field_i` mapped to the segment |
| Parser.BodyFields | src/utils/parser.js:24-36 | the writes of segments 1 onwards, in order |
| Parser.Assign | src/utils/parser.js:31 | an assignment to `__proto__` adds no own key; any other key is set |
| Parser.Apply | src/utils/parser.js:24-36 | the writes never remove a key, and a key that none of them names keeps its value |
| Parser.Dictionary | src/utils/parser.js:10-38 | the dictionary always holds `email` and `password` when the first segment has a `:`, and `rawFirst` otherwise |
| Parser.Parsed | src/utils/parser.js:1-39 | definition of the parser's answer, which `ParseRecord`'s loop is proved equal to: `null` for a missing or empty line, otherwise the dictionary of its segments |
| Parser.ParseRecord | src/utils/parser.js:1-39 | the loop computes `Parsed` |
| Parser.ParseHead | src/utils/parser.js:10-21 | the first segment's writes |
| Parser.ParseSegment | src/utils/parser.js:25-35 | one segment's write |
| Parser.LastWriteWins | src/utils/parser.js:31 | of several writes to one key the last one wins |
| Parser.Unwritten | src/utils/parser.js:24-36 | a key no segment writes keeps its state |
| Parser.NoProtoKey | src/utils/parser.js:31 | `__proto__` never becomes a key |
| Parser.SegmentValue | src/utils/parser.js:28-35 | a segment's value is in the result unless a later segment writes the same key |
| Parser.HeadData | src/utils/parser.js:13-21 | the exact dictionary that the first segment alone gives |
| Parser.BodyStep | src/utils/parser.js:24-36 | one more loop turn is one more write |
| Parser.CredentialsFromHead | src/utils/parser.js:14-17 | with a `:`, `email` and `password` are the first two `:`-separated pieces of the first segment, trimmed, unless overwritten later |
| Parser.NoColonHead | src/utils/parser.js:18-21 | without a `:` there is no `email` or `password`, and `rawFirst` is the first segment |
| Parser.NonEmptyLineParses | src/utils/parser.js:2-8 | any non-empty line parses, so the empty-parts branch cannot be reached |
| UploadCli.ReadArg | upload-blobs.js:26-32 | `--url=` and `--token=` keep the text after the prefix, a positional sets the file, and any other flag is ignored |
| UploadCli.ReadArgs | upload-blobs.js:25-33 | after the loop the file path is set exactly when some argument is positional, the URL exactly when some argument starts with `--url=`, the token exactly when one starts with `--token=` (and not `--url=`) |
| UploadCli.LastWhere | upload-blobs.js:25-33 | the last index having the property |
| UploadCli.LastPositionalWins | upload-blobs.js:25-33 | the file path is the last positional argument |
| UploadCli.LastUrlWins | upload-blobs.js:25-33 | the URL is the text after the last `--url=` |
| UploadCli.LastTokenWins | upload-blobs.js:25-33 | the token is the text after the last `--token=` |
| UploadCli.UnknownFlagIgnored | upload-blobs.js:30 | an unknown `--` flag changes nothing |
| UploadCli.ParseArguments | upload-blobs.js:20-33 | the loop computes `ReadArgs` |
| UploadCli.Start | upload-blobs.js:35-42 | the script exits with 1 iff the file path is not truthy |
| UploadCli.NoFileExits | upload-blobs.js:35-42 | without a positional argument the script exits |
| UploadCli.NormalizeUrl | upload-blobs.js:74-80 | the result always ends with the function path; a URL that already ends with it is kept; otherwise one trailing `/` is dropped first |
| UploadCli.NormalizeIdempotent | upload-blobs.js:75-80 | normalising twice is normalising once |
| UploadCli.ResolveFunctionUrl | upload-blobs.js:72-81 | a truthy `--url=` is used as given; otherwise the trimmed answer is normalised |
| UploadCli.ResolveAuthToken | upload-blobs.js:83-86 | a truthy `--token=` is used as given; otherwise the trimmed answer |

## Left out

- Session tokens (`getUser`, `generateToken`, JWT signing and expiry) and the cookie are not modelled: a handler receives the decoded principal, or `None` for no valid session.
- bcrypt is not modelled: login receives whether the password matched, and `createUser` receives the hash.
- The blob store's network I/O is reduced to the `readOk`/`writeOk` success flags.
- Concurrency is not modelled. Two requests that read and write the same document can lose an update; the model runs one request at a time.
- `JSON.parse` of the body is not modelled: a malformed body throws, answering 500 in the handlers and escaping the handler in `login`.
- Bodies arrive already parsed and destructured. A `null` body in `checkRecord`, `deleteRecord`, `assignRecords`, `deleteUser` and `createUser` (whose destructuring sits inside the `try`), a `null` body in `addRecord`, and a `null` element of an array body in `addRecord` (which throws at the destructuring of `item`) all answer 500. A `null` body in `login` throws at the destructuring outside any `try`, so that handler fails before it reads or writes a rate-limit row. None of these paths is modelled.
- Login.RateLimits.Login: a missing or non-string password makes `bcrypt.compare` reject outside any `try`, so the handler throws before writing the rate-limit row; the model only receives whether the password matched and, given `false`, answers 401 and writes the incremented row.
- `parseInt` of `page` and `limit` is not modelled. `Records.GetRecords` requires both to be at least 1, so `NaN`, zero and negative values are out of scope.
- Records.GetRecords: JavaScript's `slice` with a negative start is not modelled, because of that precondition.
- Time is modelled as one `now` per request. `login.cjs` calls `Date.now()` up to three times, and `addRecord` takes a fresh time per item.
- Ids are modelled as one fresh id per input item (`freshIds[i]`). `uuidv4()` is called only for valid items, so the id sequence is a superset indexed by item.
- `clearChecked`, `uploadBlobs` (the server side), `getStats` and the React UI are not part of this model.
- `upload-blobs.js` is modelled only in its argument loop, its exit without a file, and the URL and token prompts. Reading the file, `readline`, and the HTTPS upload are I/O.
- `parseRecord` of a non-string argument is modelled as `None`; JavaScript types are not modelled.
- Parser.Dictionary: the result is a map, so JavaScript object key order (insertion order, with integer-like keys first) is not captured.
- Strings are sequences of characters; JavaScript's UTF-16 code units and surrogate pairs are not distinguished.
- The `console.log` and `console.error` output of every handler is left out.
