# URL shortener: a Dafny model of its link registry

The application stores short links. A short link is a code of 3 to 10
characters from `[A-Za-z0-9_-]` that points at an `http:` or `https:` target
URL. This project models four parts of it in Dafny and proves properties of
the model:

- **Codes and validation.** Codes are generated from 62 alphanumeric
  characters and checked against `[A-Za-z0-9_-]{3,10}`. URLs are accepted
  only for the `http:` and `https:` schemes (`Shortener`, over the JavaScript
  string operations in `Text`).
- **The `links` store.** Without a database URL in development, the store is
  an in-memory table with select-all, select-by-target, select-by-code,
  insert and delete. Outside development, a stand-in fails every statement.
  `ensureSchema` runs its table creation at most once (`Db`).
- **The `/api/link` route.** `POST` validates the request, picks or generates
  a code, refuses a target that already has a link, and inserts. `GET` lists
  every link, newest first (`LinkRoute`).
- **The dashboard's list logic** (`Dashboard`):
  - the search filter;
  - detecting click-count increases between two refreshes;
  - cutting long targets to 60 characters, with a toggle.

Things outside the model are parameters:
- the URL parser: `parse`, which gives the protocol or `None` when `new URL` throws;
- the random draws: `rand(i)` is the `i`-th value of `Math.random()`;
- the clock: `now`, the ISO text that `toISOString` gives.

## Model

| member | source | states |
|---|---|---|
| Text.TrimStartIndex | lib/shortener.ts:23 | the text starts after a run of whitespace, at a character that is not whitespace or at the end |
| Text.TrimEndIndex | lib/shortener.ts:23 | the text ends before a run of whitespace, after a character that is not whitespace or at the start |
| Text.Trim | lib/shortener.ts:23 | `trim()` gives an infix of the input with no whitespace at either end, and only whitespace is cut away on each side |
| Text.TrimOfTrimmed | lib/shortener.ts:23 | a string with no whitespace at its ends is its own trim |
| Text.TrimIdempotent | lib/shortener.ts:23 | trimming twice is trimming once |
| Text.LowerChar | app/page.tsx:82-85 | `toLowerCase` maps `A`-`Z` to `a`-`z` and leaves every other character alone |
| Text.ToLower | app/page.tsx:82-85 | lower-casing keeps the length and lower-cases each character |
| Text.ToLowerIdempotent | app/page.tsx:82-85 | lower-casing twice is lower-casing once |
| Text.ContainsAt | app/page.tsx:84-85 | `includes` holds exactly when the needle occurs at some offset |
| Text.ContainsIsNoLonger | app/page.tsx:84-85 | nothing longer than a string is contained in it |
| Text.NotContainsWithoutFirstChar | app/api/link/route.ts:42 | a string without the needle's first character does not contain the needle |
| Text.LexLessIrreflexive | lib/db.ts:63 | no string is `<` itself |
| Text.LexLessTransitive | lib/db.ts:63 | `<` on strings is transitive |
| Text.LexLessTotal | lib/db.ts:63 | of two different strings, one is `<` the other |
| Text.NotLessTransitive | lib/db.ts:62-64 | "not `<`" is transitive, so sorting by `>` gives a consistent order |
| Seqs.Filter | lib/db.ts:70 | `filter` keeps exactly the elements satisfying the predicate, never adds any, and keeps every copy of a kept element |
| Seqs.FilterIsSubsequence | lib/db.ts:70 | `filter` keeps the original order |
| Seqs.FilterKeepsAll | app/page.tsx:81 | filtering with a predicate every element meets changes nothing |
| Seqs.FilterAppendOne | app/page.tsx:54-60 | filtering a list with one more element at the back gives the filter of the list, followed by that element when it passes |
| Seqs.SubsequenceOfTail | lib/db.ts:112 | a subsequence of the tail is a subsequence of the whole |
| Seqs.SubsequenceOfSuffix | lib/db.ts:112 | dropping the head of a subsequence leaves a subsequence |
| Seqs.RemoveAtIsSubsequence | lib/db.ts:112 | `splice(i, 1)` leaves the other elements in their order |
| Seqs.SubsequenceReflexive | lib/db.ts:111-112 | a sequence is a subsequence of itself, which covers a delete that finds nothing |
| Shortener.CharRange | lib/shortener.ts:3-4 | the character run holds `n` consecutive code points from `first` |
| Shortener.AlphabetIsAlphanumeric | lib/shortener.ts:3-4 | the alphabet has 62 characters, all in `A-Z a-z 0-9` |
| Shortener.AlphabetIndex | lib/shortener.ts:7 | `Math.floor(Math.random() * 62)` is always a position of the alphabet |
| Shortener.AlphabetIndexReachesAll | lib/shortener.ts:7 | every one of the 62 positions comes out of some draw |
| Shortener.GenerateCode | lib/shortener.ts:2-9 | the code has exactly the requested length, and character `i` is the one the `i`-th draw selects |
| Shortener.GeneratedCodeIsAlphanumeric | lib/shortener.ts:3-8 | every character of a generated code is alphanumeric, whatever the draws |
| Shortener.AllCodeCharsAt | lib/shortener.ts:24 | the recursive check says of each position what `[A-Za-z0-9_-]` says |
| Shortener.IsValidCodeIff | lib/shortener.ts:22-25 | a code is valid exactly when its trim has 3 to 10 characters, each in `[A-Za-z0-9_-]` |
| Shortener.IsValidCodeIgnoresWhitespace | lib/shortener.ts:23 | `isValidCode(c) == isValidCode(trim(c))` |
| Shortener.BlankCodeInvalid | lib/shortener.ts:23 | a missing, empty or blank code is invalid |
| Shortener.CodeLengthBoundaries | lib/shortener.ts:24 | over code characters, length alone decides: 2 fails, 3 passes, 10 passes, 11 fails |
| Shortener.DefaultCodeIsValid | lib/shortener.ts:2-9 | a code generated with the default length 6 always passes `isValidCode` |
| Shortener.IsValidUrlIff | lib/shortener.ts:12-19 | a URL is valid exactly when it parses and its protocol is `http:` or `https:`; `ftp:` and parse failures are rejected |
| Db.SelectBackend | lib/db.ts:26-49 | a non-empty URL selects the Neon client; with no URL, development selects the in-memory table and anything else selects the failing stand-in |
| Db.FindIndex | lib/db.ts:111 | `findIndex` gives the first row with the code, and -1 (`None`) exactly when no row has it |
| Db.WithCodeIsLookup | lib/db.ts:74-77 | with unique codes, select-by-code yields the one row with the code, or nothing |
| Db.WithTargetFirst | lib/db.ts:68-71 | select-by-target puts the first row with that target first, so `existing[0]` is the oldest link to it |
| Db.NewestFirstCons | lib/db.ts:62-64 | a row at least as new as every row of a newest-first list can go in front of it |
| Db.InsertByCreated | lib/db.ts:62-64 | inserting a row into a newest-first list keeps it newest-first and adds exactly that row |
| Db.SortNewestFirst | lib/db.ts:60-64 | the sorted copy is ordered by `created_at` descending and is a permutation of the table |
| Db.WithoutCode | lib/db.ts:109-114 | deleting a code that no row has changes nothing; deleting one that a row has removes exactly one row |
| Db.RemoveAtMembers | lib/db.ts:112 | `splice(i, 1)` keeps every row except the one at `i`, and adds none |
| Db.RemoveAtDropsCode | lib/db.ts:111-112 | with unique codes, no row left after the splice has the removed row's code |
| Db.RemoveAtUnique | lib/db.ts:112 | `splice` keeps codes unique |
| Db.WithoutCodeKeepsOthers | lib/db.ts:109-114 | with unique codes, delete leaves exactly the rows with other codes, in their order, with codes still unique |
| Db.WithoutCodeIdempotent | lib/db.ts:109-114 | deleting the same code twice is deleting it once |
| Db.LinkDb.constructor | lib/db.ts:41-52 | the table starts empty, on the backend the environment selects |
| Db.LinkDb.SelectAll | lib/db.ts:59-65 | in memory: every row, newest first, as a permutation of the table; the stand-in throws the missing-URL error |
| Db.LinkDb.SelectByTarget | lib/db.ts:67-71 | exactly the rows with the target, in table order; or the missing-URL error |
| Db.LinkDb.SelectByCode | lib/db.ts:73-77 | the row with the code, or none; or the missing-URL error |
| Db.LinkDb.Insert | lib/db.ts:79-106 | a taken code throws the duplicate-key error with SQLSTATE 23505 and leaves the table alone; otherwise it appends and returns a row with 0 clicks, the current time and no last click; codes stay unique |
| Db.LinkDb.DeleteByCode | lib/db.ts:108-114 | the table loses the first row with the code, if any; no rows are returned |
| Db.SchemaGuard.constructor | lib/db.ts:124 | `schemaReady` starts unset |
| Db.SchemaGuard.EnsureSchema | lib/db.ts:127-164 | with no URL it fails with the missing-URL message; otherwise the first call issues CREATE TABLE and every later call gets that same outcome, so at most one CREATE TABLE is issued |
| LinkRoute.RejectsCustomCodeIff | app/api/link/route.ts:18-25 | a request is turned away with 400 exactly when it carries a non-blank custom code that fails `isValidCode`; a blank code falls back to a generated one |
| LinkRoute.ChosenCodeIsValid | app/api/link/route.ts:18-25 | any code that gets past the check is valid, generated or custom |
| LinkRoute.CaughtResponses | app/api/link/route.ts:41-48 | the store's duplicate-key error becomes 409 "Code already exists"; its missing-URL error becomes 500 "Database error" |
| LinkRoute.DuplicateKeyIsCaught | app/api/link/route.ts:42 | the duplicate-key message contains "duplicate key" |
| LinkRoute.MissingUrlIsNotCaught | app/api/link/route.ts:42 | the missing-URL message does not contain "duplicate key" |
| LinkRoute.MissingUrlLacksLowerD | lib/db.ts:46 | the missing-URL message has no lower-case `d` |
| LinkRoute.AppendNewTarget | app/api/link/route.ts:29-38 | appending a row for a target that no row has keeps at most one row per target |
| LinkRoute.OnlyCreationSucceeds | app/api/link/route.ts:14-48 | a response has status 200, and a body without an `error` field, exactly when it carries a created link, so every refusal and failure carries an error message |
| LinkRoute.Post | app/api/link/route.ts:10-50 | gives 400 for a bad URL, then 400 for a bad custom code; the stand-in's error gives 500; an existing target gives 409 with the existing code; a taken code gives 409; otherwise a valid, zero-click row is created; only creation changes the table, and one row per target is preserved |
| LinkRoute.Get | app/api/link/route.ts:5-8 | every link newest first, as a permutation of the table; the stand-in's error propagates |
| Dashboard.FilteredLinks | app/page.tsx:80-87 | the filtered list keeps its order, holds exactly the links whose code or target contains the lower-cased query, with every copy of such a link kept, and a blank filter keeps every link |
| Dashboard.MatchesIgnoresQueryCase | app/page.tsx:82 | the query is matched case-insensitively |
| Dashboard.CodeFindsItsLink | app/page.tsx:80-87 | searching for a link's own code always finds it |
| Dashboard.LongQueryHidesLink | app/page.tsx:81-86 | the query is not trimmed, so a query longer than both the code and the target hides the link |
| Dashboard.SnapshotKeys | app/page.tsx:52-55 | the new snapshot holds exactly the codes of the fetched list |
| Dashboard.SnapshotLastWins | app/page.tsx:54-55 | each code maps to the count of its last item, a missing count read as 0 |
| Dashboard.Notices | app/page.tsx:54-60 | a refresh raises no more notices than there are fetched links |
| Dashboard.NoticesExact | app/page.tsx:54-60 | the notices are exactly the fetched links whose count went up, filtered in list order, one notice each with that link's code and difference |
| Dashboard.NoticesSound | app/page.tsx:56-58 | every notice is positive, names a code of the previous snapshot, and equals new count minus old count for a fetched link |
| Dashboard.NoticesComplete | app/page.tsx:56-58 | every link whose code was in the previous snapshot and whose count went up gets its notice |
| Dashboard.NoIncreaseNoNotices | app/page.tsx:56 | when no count went up, nothing is raised |
| Dashboard.FirstRefreshIsQuiet | app/page.tsx:24 | the first refresh, against the empty initial snapshot, raises nothing |
| Dashboard.UnchangedRefreshIsQuiet | app/page.tsx:51-62 | fetching the same list again raises nothing |
| Dashboard.ClickTracker.constructor | app/page.tsx:24 | the previous snapshot starts empty |
| Dashboard.ClickTracker.Refresh | app/page.tsx:51-62 | the loop raises exactly the notices `Notices` gives, and stores `Snapshot` of the new list: the corrected snapshot, which records every code (the page as written drops `__proto__`, see `Dashboard.SnapshotAsWritten`) |
| Dashboard.SnapshotAsWritten | app/page.tsx:52-55 | the snapshot built in a plain object is the intended snapshot without the code `__proto__` |
| Dashboard.InheritedNamesAreValidCodes | lib/shortener.ts:22-25 | `__proto__`, `toString` and `valueOf` are names every plain object inherits, and each passes the code validator |
| Dashboard.ProtoClicksUnnoticed | app/page.tsx:55-56 | as written, a link with the valid code `__proto__` going from 1 to 2 clicks raises nothing; the corrected snapshot raises "+1" |
| Dashboard.ShownTarget | app/page.tsx:272-280 | a long, collapsed target is shown as its first 60 characters and an ellipsis; any other target is shown whole |
| Dashboard.CollapsedIsShort | app/page.tsx:276-280 | a collapsed target shows at most 61 characters, and what it shows is the target or cut from it |
| Dashboard.ShortTargetIgnoresToggle | app/page.tsx:276-285 | a target of 60 characters or fewer looks the same expanded or collapsed |
| Dashboard.NothingExpandedAtFirst | app/page.tsx:23 | before any toggle, every long target is shown collapsed |
| Dashboard.Toggle | app/page.tsx:287-291 | the toggle flips the clicked code's state and no other |
| Dashboard.ToggleTwice | app/page.tsx:287-291 | toggling twice restores what is shown |
| Dashboard.IsExpandedAsWrittenDiffers | app/page.tsx:274 | reading `!!expanded[code]` from a plain object goes wrong exactly for names that object inherits and has no own entry for |
| Dashboard.ToStringShownExpanded | app/page.tsx:274-280 | as written, a link with the valid code `toString` shows its long target in full before any toggle |

## Left out

- The Neon client path and how its results are normalised (lib/db.ts:27-40): it is a foreign driver. `Db.LinkDb.constructor` requires that no database URL is set.
- The dispatch by sniffing SQL text (lib/db.ts:56, lib/db.ts:116-117): each statement is a typed method instead.
- The rewriting of authentication errors in `ensureSchema` (lib/db.ts:144-158): CREATE TABLE's outcome is a parameter, passed through unchanged.
- `ensureSchema` is not called by the handlers that are modelled, so `LinkRoute` does not use `Db.SchemaGuard`.
- Promises and `async`. The race between POST's target check and its insert (app/api/link/route.ts:29-38) is left out too. POST is modelled as one sequential step.
- `Math.random`: the draws are a parameter. The model makes no claim about how they are distributed.
- The WHATWG URL parser behind `new URL`: it is the parameter `parse`.
- Request bodies that are not JSON (`request.json()` throws) or are the JSON `null` (destructuring it throws), and bodies whose `targetUrl` or `code` are not strings. The first two end in an unhandled 500, because app/api/link/route.ts:11-12 run before the `try`.
- `toLowerCase` outside ASCII.
- JavaScript string lengths count UTF-16 code units, but the model counts characters. The two differ only for characters outside the Basic Multilingual Plane.
- Db.SortNewestFirst: the source's comparator never returns 0, so the order among rows with equal `created_at` depends on the engine. The model fixes one order. `Db.LinkDb.SelectAll` and `LinkRoute.Get` promise only newest-first order and a permutation.
- React rendering, hooks, `fetch`, toast text, clipboard and focus listeners in app/page.tsx. The same goes for its create, delete and copy handlers, and for `formatLocal` (which uses `Intl.DateTimeFormat` and time zones).
- components/LinkTable.tsx: its truncation is the same as app/page.tsx:272-280, which is modelled once. The other components and app/layout.tsx are display only.
- app/healthz/route.ts: process and OS introspection, and a database ping.
- app/api/link/[code]/route.ts, app/[code]/page.tsx and app/code/[code]/page.tsx are not part of this model. That covers the redirect and preview pages, click counting and `last_clicked`. The in-memory table has no UPDATE branch.
- The metadata fetcher is not part of this model.

## Findings

| source | as written | input that shows it | evidently intended | confidence | as-written member | corrected member |
|---|---|---|---|---|---|---|
| app/page.tsx:55 | `next[l.code] = …` writes into a plain object. For the key `__proto__` this reaches the inherited prototype setter, which ignores a number, so the code never enters the snapshot | a link with the custom code `__proto__` (valid per `isValidCode`) whose clicks go from 1 to 2 between two refreshes gives no toast | every fetched code is recorded, and a rise in its count is notified | not executed | Dashboard.ProtoClicksUnnoticed | Dashboard.NoticesComplete |
| app/page.tsx:274 | `!!expanded[l.code]` reads a plain object that starts as `{}`. For `toString`, `valueOf` or `__proto__` it finds an inherited member, which is truthy | a link with the custom code `toString` and a 62-character target, before any toggle, shows the whole target with a "Hide" button | every long target starts collapsed | not executed | Dashboard.ToStringShownExpanded | Dashboard.NothingExpandedAtFirst |
