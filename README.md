# Quick Notes: a verified model of the note store

Quick Notes is a small note-taking web application. An Express server
(`server.js`) keeps every note in one in-memory array `notes`, next to a
counter `nextId`. It serves four routes under `/api/notes`:

- list (GET) returns a sorted copy;
- create (POST);
- update (PUT `/:id`);
- delete (DELETE `/:id`).

After every mutation the server schedules a debounced write of `{ notes }` to
`notes.json`. At start-up `loadData` reads that file back and recovers
`nextId` as one more than the largest numeric id. Both the server and the
browser client (`public/app.js`) define `escapeHtml`. The client filters the
cached notes against the search box with `filterNotes`.

The project models exactly this part of the system:

- `jsstring.dfy` (`JsString`) models the three JavaScript built-ins the core
  relies on:
  - `trim`, over ECMAScript's whitespace set written out code point by code
    point;
  - `toLowerCase`, approximated by ASCII lower-casing;
  - `includes`.
- `html.dfy` (`Html`) holds `escapeHtml`. Both files define it with the same
  replacement table, so it is modelled once, together with its inverse.
- `notes.dfy` (`Notes`) holds the note record and two look-ups:
  - `findIndex` by id;
  - the `reduce` that computes the largest id.
- `noteorder.dfy` (`NoteOrder`) holds `sortNotes`, modelled as a stable
  insertion sort. `Array.prototype.sort` is stable, so the model proves that
  the output is the only sequence with the required order and tie-breaking.
- `server.dfy` (`NoteServer`) holds the `NoteStore` class:
  - its fields are the two globals plus a `savePending` flag that stands for
    the debounce timer;
  - one method per route body, plus `Load` (`loadData`) and `Flush` (the
    write once the timer fires);
  - the object invariant `Valid` says `nextId` is above every id in the
    store and every id issued since the last load.
- `client.dfy` (`NoteClient`) holds `filterNotes`.
- `scenarios.dfy` (`NoteScenarios`) holds whole runs of the store, proved
  from the method contracts alone:
  - create, pin, list, delete;
  - a restart that hands out a deleted id again.

These parts are abstracted:

- A request body field is a `BodyValue`: absent, a string, a boolean, or
  another JSON value. For another value the model records only what
  `String(v)` and truthiness make of it. This captures exactly what
  `!text`, `String(text).trim()` and the `typeof` tests look at.
- A note's id is a `NoteId`: a number or something else. A file can hold
  non-numeric ids. The loader counts them as 0, and `===` never matches them.
- Timestamps are integers passed in as `now`.
- The notes file is a `DataFile` value that has already been read and
  parsed.

A notes file whose top level is a bare array of notes, rather than an
object with a `notes` field, is not loaded. Its `notes` property is
undefined, so the `Array.isArray` test at server.js:36 fails and the store
is reset (`NotesNotArray` covers this case).

## Model

| member | source | states |
|---|---|---|
| JsString.IsWhitespace | server.js:129 | the code points `trim` removes: ECMAScript's WhiteSpace and LineTerminator characters, listed explicitly |
| JsString.TrailingBlanks | server.js:129 | the whitespace suffix that `trim` removes: it is blank and is preceded by a non-whitespace character or the start |
| JsString.LeadingBlanks | server.js:129 | the whitespace prefix that `trim` removes: it is blank and is followed by a non-whitespace character or the end |
| JsString.Trim | server.js:129 | `trim` returns the slice that starts after the leading whitespace and has no whitespace at either end |
| JsString.TrimUnique | public/app.js:25 | any slice that is surrounded only by whitespace and has no whitespace at either end is the result of `trim`, so `trim` is fully determined |
| JsString.TrimUntouched | server.js:129 | a string that has no whitespace at either end is returned unchanged by `trim` |
| JsString.TrimEmptyIffBlank | public/app.js:24 | `trim` yields "" exactly when every character is whitespace |
| JsString.TrimStartSkipsBlank | public/app.js:25 | any amount of leading whitespace is removed |
| JsString.TrimEndSkipsBlank | public/app.js:25 | any amount of trailing whitespace is removed |
| JsString.TrimStartKeepsSuffix | public/app.js:25 | removing the leading whitespace of a non-blank string leaves whatever follows it intact |
| JsString.TrimIgnoresPadding | public/app.js:25 | whitespace added around a string does not change its trimmed form |
| JsString.TrimIdempotent | server.js:129 | trimming twice is the same as trimming once |
| JsString.LowerChar | public/app.js:25-26 | the per-character mapping used for `toLowerCase`: ASCII `A`..`Z` become `a`..`z`, and every other character is kept |
| JsString.ToLowerCase | public/app.js:25-26 | lower-casing keeps the length and maps each character on its own |
| JsString.ToLowerCaseIdempotent | public/app.js:25-26 | lower-casing twice is the same as lower-casing once |
| JsString.ToLowerCaseSlice | public/app.js:25-26 | lower-casing commutes with taking a slice |
| JsString.LowerCharKeepsWhitespace | public/app.js:25 | a character is whitespace exactly when its lower-case form is |
| JsString.ToLowerCaseKeepsBlank | public/app.js:24-25 | a string is blank exactly when its lower-cased form is |
| JsString.TrimToLowerCaseCommute | public/app.js:25 | applying `trim` and then `toLowerCase` gives the same result as the other order |
| JsString.Includes | public/app.js:26 | `includes` never holds for a needle longer than the text, and always holds for the empty needle |
| JsString.IncludesIffOccurs | public/app.js:26 | `includes` holds exactly when the needle is the slice of the text at some offset |
| Html.IsSpecial | public/app.js:229 | the six characters the replacement matches: `& < > " ' `` ` |
| Html.EscapeChar | public/app.js:229-231 | the six special characters become references that start with `&` and end with `;`; every other character is copied; no replacement contains `< > " ' `` ` |
| Html.EscapeHtml | public/app.js:228-232 | the output is at least as long as the input; it is the concatenation of the per-character replacements (see `EscapeHtmlAppend`) |
| Html.EscapeHtmlIsSafe | server.js:110-114 | the output contains none of `< > " ' `` `, by induction over the input |
| Html.EscapeHtmlAppend | public/app.js:229-231 | escaping a concatenation gives the concatenation of the escaped parts, so the output is the concatenation of the per-character replacements |
| Html.EscapeHtmlPlain | public/app.js:229 | text without special characters comes back unchanged |
| Html.UnescapeEscapeChar | server.js:112 | each replacement decodes back to its own character, whatever follows it |
| Html.UnescapeEscapeHtml | public/app.js:228-232 | escaping loses nothing: decoding the output gives back the input |
| Notes.FindIndex | server.js:142 | `findIndex` returns the first position whose note has the id, and -1 (`None`) exactly when no note has it |
| Notes.IdValue | server.js:44 | what one note contributes to the maximum: its id when that is a number, and 0 otherwise |
| Notes.MaxId | server.js:44 | the `reduce` gives a value of at least 0 that bounds every id (non-numeric ids count as 0); it is 0 or the id of some note |
| Notes.MaxIdPlusOneIsFree | server.js:44-45 | no note holds the recovered `nextId` |
| NoteOrder.Compare | server.js:103-106 | the comparator is negative exactly when `a` sorts before `b`, zero exactly when the two tie, and positive exactly when `b` sorts before `a`; no two notes sort before each other |
| NoteOrder.Before | server.js:104-105 | `a` sorts strictly before `b`: pinned before unpinned, otherwise the later `createdAt` first |
| NoteOrder.SameRank | server.js:104 | `a` and `b` tie: same pin state and same `createdAt` |
| NoteOrder.RankGroup | server.js:104 | a note's tie class: the notes of the sequence on which the comparator returns 0 against it, in input order; a note is in it exactly when it is in the sequence and ties |
| NoteOrder.ConsInListOrder | server.js:103-106 | a note that does not sort after the head of a sorted list can be put in front of it |
| NoteOrder.Insert | server.js:103-106 | inserting into a sorted list keeps it sorted and adds exactly that note |
| NoteOrder.SortNotes | server.js:102-107 | `sortNotes` returns a permutation of its input in comparator order: pinned before unpinned, and `createdAt` non-increasing within each group |
| NoteOrder.InsertRankGroup | server.js:103-106 | an inserted note goes to the head of its tie group; every other group is unchanged |
| NoteOrder.SortNotesStable | server.js:103 | notes that tie on both keys keep their input order |
| NoteOrder.HeadNotAfterGroup | server.js:103-106 | in a sorted list, no member of any tie group sorts before the head |
| NoteOrder.ListOrderUnique | server.js:103-106 | two sorted lists with the same tie groups are equal |
| NoteOrder.SortNotesIsUnique | server.js:102-107 | the output of `sortNotes` is the one sorted sequence whose tie groups are the input's |
| NoteOrder.SortNotesOfSorted | server.js:102-107 | a list that is already sorted comes back unchanged |
| NoteOrder.SortNotesIdempotent | server.js:102-107 | sorting twice is the same as sorting once |
| NoteServer.Truthy | server.js:126 | JavaScript truthiness of a body field: absent and "" are false, a boolean is itself |
| NoteServer.AsString | server.js:126 | JavaScript's string conversion of a body field: absent gives "undefined", a boolean gives "true" or "false" |
| NoteServer.AcceptsText | server.js:126 | create's guard passes exactly when the field is truthy and its string form is not all whitespace |
| NoteServer.AcceptsTextMeaning | server.js:126 | create accepts a string exactly when it is not all whitespace, and always refuses an absent `text` |
| NoteServer.Records | server.js:42-51 | the `reduce` over the file's array throws (`None`) exactly when it has a `null` entry; otherwise the notes are those entries, in order |
| NoteServer.SavedFile | server.js:75 | the file `saveData` writes is an object whose `notes` array holds every note, in order |
| NoteServer.SavedFileReloads | server.js:34-45 | loading the file that `saveData` writes gives back exactly the notes that were saved |
| NoteServer.ReloadNeverRaisesNextId | server.js:44-45 | the counter a reload recovers is never above the one in memory |
| NoteServer.Patch | server.js:145-147 | the in-place edits of update: trimmed text only for a string `text`, pin state only for a boolean `pinned`, `updatedAt` always; id and `createdAt` kept |
| NoteServer.NoteStore.constructor | server.js:21-22 | the store starts empty with `nextId` 1 |
| NoteServer.NoteStore.Load | server.js:27-52 | a missing, unreadable or wrongly shaped file, or one with a `null` note, gives an empty store with `nextId` 1; otherwise the file's notes, with `nextId` one more than the largest id; either way the invariant holds |
| NoteServer.NoteStore.List | server.js:119-121 | GET returns the notes in `sortNotes` order and changes nothing |
| NoteServer.NoteStore.Create | server.js:124-137 | missing or blank text gets 400 "Empty note" and changes nothing; otherwise an unpinned note with the trimmed text and the old `nextId` goes in front of the old notes, which keep their order, and `nextId` goes up by one; the new id was never held or issued |
| NoteServer.NoteStore.Update | server.js:140-150 | an unknown id gets 404 "Not found" and changes nothing; otherwise only the first note with that id changes: trimmed text if `text` is a string (blank accepted), the new pin state if `pinned` is a boolean, and `updatedAt` always; the length, the id, `createdAt`, the other notes and `nextId` are kept |
| NoteServer.NoteStore.Delete | server.js:153-160 | an unknown id gets 404 "Not found" and changes nothing; otherwise the first note with that id is cut out and returned, the others keep their order, and `nextId` stays where it was |
| NoteServer.NoteStore.Flush | server.js:73-76 | the file written holds the current notes; the store is unchanged apart from clearing the pending flag |
| NoteClient.IsBlankQuery | public/app.js:24 | the filter's early return is taken exactly when the query is all whitespace, the empty query included |
| NoteClient.Needle | public/app.js:25 | the needle is no longer than the query and has no whitespace at either end |
| NoteClient.Matches | public/app.js:26 | the filter callback: the note's lower-cased text contains the needle |
| NoteClient.Keep | public/app.js:26 | `filter` keeps an order-preserving subsequence: a note is kept exactly when it matches, with all its copies |
| NoteClient.FilterNotes | public/app.js:23-27 | a blank query returns the list unchanged; any other query returns, in order, exactly the notes whose lower-cased text contains the trimmed, lower-cased query |
| NoteClient.MatchesMeaning | public/app.js:25-26 | a note matches a needle exactly when the needle occurs at some offset of the note's lower-cased text |
| NoteClient.KeepAllMatching | public/app.js:26 | filtering a list in which every note matches returns it unchanged |
| NoteClient.FilterNotesIdempotent | public/app.js:23-27 | filtering the filtered list again with the same query gives the same list |
| NoteClient.FilterNotesIgnoresPadding | public/app.js:24-25 | whitespace around the query does not change the result |
| NoteClient.FilterNotesIgnoresCase | public/app.js:25-26 | a query and its lower-cased form select the same notes |
| NoteScenarios.CreateOne | server.js:124-137 | the first note on a fresh store gets id 1 and the text exactly as given |
| NoteScenarios.CreateAndPin | server.js:140-150 | pinning the note keeps its text and `createdAt`, stamps `updatedAt`, and a list then returns just that note |
| NoteScenarios.PinAndDelete | server.js:153-160 | deleting the pinned note returns it as it was last updated and leaves the list empty |
| NoteScenarios.RestartReissuesId | server.js:44-45 | after the newest note is deleted, saved and reloaded, the next create hands out the deleted id again |

## Left out

- Express wiring (routing, body parsing, CORS, static files, the SPA fallback) is framework plumbing. The route bodies are methods and replies are `Reply` values.
- File I/O and JSON (`existsSync`, `readFile`, `JSON.parse`, `JSON.stringify`, the temp-file-and-rename write) are foreign calls. `Load` takes the parsed file as a `DataFile`, and `Flush` returns the `DataFile` it would write.
- The debounce timer (`setTimeout`/`clearTimeout`) and the SIGINT/SIGTERM shutdown save are timers and process signals. They are reduced to the `savePending` flag and `Flush`.
- A failed write (the `catch` in `saveData`) is not modelled; `Flush` always succeeds.
- NoteServer.NoteStore.Load: ids and `nextId` are unbounded integers here. In the source they are JavaScript numbers (doubles), which are exact only up to 2^53. Once the largest id in the file is 2^53 or more, `maxId + 1` (server.js:44-45) may round back to `maxId`: it does for 2^53 and for every id from 2^54 on, because rounding goes to the even neighbour. Even where it lands on a new value, the counter is then past 2^53, so `nextId++` stops advancing and a later create reuses an id. `nextId == MaxId(notes) + 1` and `Valid()` therefore describe the source only while every loaded id is below 2^53.
- NoteServer.NoteStore.Create: in the source, `nextId++` (server.js:128) stops advancing once `nextId` reaches 2^53, and every later create hands out that same id again. The promises that `nextId` goes up by one and that the new id was never held or issued describe the source only while `nextId` is below 2^53.
- Notes.MaxIdPlusOneIsFree: proved for unbounded integers. In the source, one more than a largest id of 2^53 or more may round to that id itself, so it is held; this happens for 2^53 and for every id from 2^54 on.
- NoteServer.NoteStore.Create: one `now` gives both `createdAt` and `updatedAt`, while the route reads the clock twice (server.js:130 and 132), so the two stamps may differ there by a millisecond.
- `Date` values: timestamps are integers passed in as `now`. Sorting on invalid dates (comparisons with `NaN`) is not modelled.
- `Number(req.params.id)`: `Update` and `Delete` take an integer id. A path id that is not a number, or not an integer, is not modelled.
- Numeric ids in the file that are not integers, or are `NaN`, are not modelled; a `NoteId` is an integer or non-numeric.
- NoteServer.NoteStore.Load: file entries that are neither `null` nor a note object are not modelled.
- NoteServer.NoteStore.Load: `loadData` keeps whatever objects the file holds, missing fields included. The model assumes every non-null entry is a complete note.
- Notes whose `text` is not a string make the client's `toLowerCase` throw. This is not modelled, because a `Note`'s text is always a string.
- Html.EscapeHtml: the server's version converts its argument with `String(s)` and defaults it to `''`. The model takes a string, as the client's version does. The server never calls its version.
- JsString.ToLowerCase: ASCII lower-casing only; JavaScript applies the full Unicode case mapping.
- JsString.IsWhitespace: the Zs category is fixed as of Unicode 15, and strings are sequences of Unicode scalar values rather than UTF-16 code units.
- User accounts, passwords, sessions and per-user ownership do not appear in the code: every route acts on the one global array (server.js:21, 119-160), so there is nothing of them to model.
- The browser client's DOM rendering, event handlers, `fetch` calls and `notesCache` are UI and network code and are not part of this model.
- Concurrency between overlapping requests and saves is not modelled; each route body runs to completion.
