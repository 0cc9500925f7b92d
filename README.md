# DevNotes note manager, modelled in Dafny

DevNotes is a browser note-taking widget. Its one class, `Note` in
`DevNotes/js/scripts.js`, keeps an ordered list of notes `{id, content, fixed}`
and mirrors it into browser storage under the key `notes`. It adds, deletes,
duplicates, pins and edits notes, searches them case-insensitively, exports
them as CSV and shows pinned notes first. This project models that class
without the page and the storage API. It proves what each operation does to
the list and to the stored copy.

- `Wrappers.dfy`: `Option`. It stands for an absent storage entry and for a `find` that matched nothing.
- `Notes.dfy`: the `Note` record and the list operations the mutations are built from. `Filter` is `Array.prototype.filter`. The module also holds deletion (`Without`), the pin toggle (`Toggled`), `find` by id (`FirstIndex`), the content update (`Updated`), appending (`Added`), duplication (`Duplicated`) and the pinned-first order (`DisplayOrder`).
- `Search.dfy`: lower-casing, the substring test `includes`, and `searchNotes`.
- `CsvExport.dfy`: the CSV text `exportToCsv` builds. A reader for that text (`ParseCsv`) is defined only to state the round trip: reading the export back gives every note's content and pin state in list order.
- `NoteStore.dfy`: the class `NoteStore`. It has the fields `notes` (the list) and `saved` (the storage entry; `None` while nothing was written). Its methods are the class's operations, each stated against the functions above.

Inputs the source takes from the environment are parameters here:
- the content of storage at start-up is the constructor argument;
- the id `generateId` would draw is the `id`/`newId` argument of `AddNote` and `DuplicateNote`, required to be fresh;
- the search box's text and the filtered list handed to `displayNotes` are method arguments.

Points where the code behaves other than one might expect, modelled as the code has them:
- `duplicateNote` on an id that no note has is not a silent no-op. `find` returns `undefined` and reading `.content` throws before anything changes. `DuplicateNote` reports this as `found == false` with the list and the stored copy unchanged.
- Malformed stored JSON makes `JSON.parse` throw; only an absent entry gives the empty list.
- `addNote` returns nothing, and it accepts empty content. Only the input box's handlers skip empty input, and `duplicateNote` can pass the content of a note that was edited to empty.
- Rows are separated by a line feed, not CRLF, and the last row has no line ending.

## Model

| member | source | states |
|---|---|---|
| Notes.Filter | DevNotes/js/scripts.js:37 | the result is no longer than the list and holds exactly the list's notes the test accepts |
| Notes.FilterIsSubsequence | DevNotes/js/scripts.js:68-70 | a filtered list keeps its notes in list order (it is a subsequence) |
| Notes.FilterCounts | DevNotes/js/scripts.js:101-102 | every occurrence of an accepted note is kept and every rejected note is dropped |
| Notes.FilterAll | DevNotes/js/scripts.js:37 | a test that accepts every note of the list returns the list unchanged |
| Notes.FilterIdempotent | DevNotes/js/scripts.js:37 | filtering twice with one test equals filtering once |
| Notes.FilterAgree | DevNotes/js/scripts.js:68-70 | tests that agree on the list's notes select the same notes |
| Notes.FilterKeepsIdsUnique | DevNotes/js/scripts.js:37 | filtering a list with distinct ids leaves the ids distinct |
| Notes.Without | DevNotes/js/scripts.js:37 | its contract is its definition, `Filter` with the test "id differs"; Notes.WithoutSpec and Notes.WithoutIdempotent state its properties |
| Notes.WithoutSpec | DevNotes/js/scripts.js:36-38 | deletion keeps exactly the notes with another id, in order; the id is gone from the ids; an absent id changes nothing |
| Notes.WithoutIdempotent | DevNotes/js/scripts.js:36-38 | deleting an id twice equals deleting it once |
| Notes.Toggled | DevNotes/js/scripts.js:47-53 | same length, ids and contents; a note's pin state is flipped exactly when its id matches |
| Notes.ToggledTwice | DevNotes/js/scripts.js:47-53 | toggling the same id twice restores the list |
| Notes.ToggledAbsent | DevNotes/js/scripts.js:47-53 | toggling an id no note has changes nothing |
| Notes.ToggledIds | DevNotes/js/scripts.js:47-53 | toggling keeps the set of ids and keeps distinct ids distinct |
| Notes.FirstIndex | DevNotes/js/scripts.js:59 | `find` by id: the index of the first note with the id, or None exactly when no note has it |
| Notes.Updated | DevNotes/js/scripts.js:58-64 | its contract is its definition, the content of the note at `FirstIndex` replaced; Notes.UpdatedSpec states its properties |
| Notes.UpdatedSpec | DevNotes/js/scripts.js:58-64 | length, ids and pin states unchanged; a missing id changes nothing; exactly the first note with the id gets the new content, whatever the ids; with distinct ids that is the one note with the id |
| Notes.UpdatedIds | DevNotes/js/scripts.js:58-64 | the update keeps the set of ids |
| Notes.UpdatedKeepsIdsUnique | DevNotes/js/scripts.js:58-64 | the update keeps distinct ids distinct |
| Notes.DuplicateIdsDisagree | DevNotes/js/scripts.js:47-64 | with two notes sharing an id, the update changes only the first while the toggle flips both |
| Notes.Added | DevNotes/js/scripts.js:23-30 | its contract is its definition, the list plus one unpinned note; Notes.AddedKeepsIdsUnique and NoteApp.NoteStore.AddNote state its properties |
| Notes.AddedKeepsIdsUnique | DevNotes/js/scripts.js:23-30 | appending a note with a fresh id keeps ids distinct |
| Notes.Duplicated | DevNotes/js/scripts.js:42-45 | fails exactly when no note has the id; otherwise the old list plus one unpinned note with the new id and the content of the first note with the id |
| Notes.DisplayOrder | DevNotes/js/scripts.js:99-105 | its contract is its definition, the pinned filter followed by the unpinned filter; Notes.DisplayOrderSpec states its properties |
| Notes.DisplayOrderSpec | DevNotes/js/scripts.js:99-105 | pinned notes before unpinned ones, a permutation of the input, each group a subsequence of the input |
| Search.Lower | DevNotes/js/scripts.js:67-69 | its contract is its definition, ASCII upper-case letters mapped to lower case; Search.SearchIgnoresCase uses it |
| Search.Contains | DevNotes/js/scripts.js:69 | its contract is its definition, "the query is a prefix of some suffix"; Search.ContainsIffOccurs relates it to occurrence at a position |
| Search.ContainsIffOccurs | DevNotes/js/scripts.js:69 | `includes` holds exactly when the query occurs at some position of the text |
| Search.SearchNotes | DevNotes/js/scripts.js:66-71 | its contract is its definition, `Filter` with the lower-cased substring test; Search.SearchSpec, Search.SearchEmptyQuery and Search.SearchIgnoresCase state its properties |
| Search.SearchSpec | DevNotes/js/scripts.js:66-71 | the result holds exactly the notes whose lower-cased content contains the lower-cased query, in list order |
| Search.SearchEmptyQuery | DevNotes/js/scripts.js:66-71 | the empty query returns the whole list |
| Search.SearchIgnoresCase | DevNotes/js/scripts.js:67 | queries equal up to letter case give equal results |
| Search.SearchExample | DevNotes/js/scripts.js:66-71 | the note "Buy Milk" is found by the query "milk" |
| CsvExport.Escape | DevNotes/js/scripts.js:75 | its contract is its definition, every `"` doubled; CsvExport.ScanEscaped proves it can be undone |
| CsvExport.Row | DevNotes/js/scripts.js:75-80 | its contract is its definition, quoted escaped content, a comma, `true`/`false`; CsvExport.ScanRow and CsvExport.ScanFlag read it back |
| CsvExport.Join | DevNotes/js/scripts.js:80 | its contract is its definition, `join`: parts separated by the separator, none after the last; CsvExport.LastRowEnds and CsvExport.NoTrailingNewline state its properties |
| CsvExport.Csv | DevNotes/js/scripts.js:74-81 | its contract is its definition, the header followed by the joined rows; CsvExport.CsvRoundTrip states what it promises |
| CsvExport.ScanEscaped | DevNotes/js/scripts.js:75 | an escaped field and its closing quote read back as the original content, whatever quotes it holds |
| CsvExport.ScanRow | DevNotes/js/scripts.js:75-80 | the quoted field of a row reads back as the note's content, followed by the rest of the row |
| CsvExport.ScanFlag | DevNotes/js/scripts.js:80 | the `,true`/`,false` column reads back as the pin state |
| CsvExport.RowsRoundTrip | DevNotes/js/scripts.js:74-80 | the rows joined by line feeds read back as the notes' contents and pin states in order |
| CsvExport.CsvRoundTrip | DevNotes/js/scripts.js:74-81 | the whole export reads back as the notes' contents and pin states; it is the header alone exactly when there are no notes |
| CsvExport.NoTrailingNewline | DevNotes/js/scripts.js:80-81 | a non-empty export does not end with a line feed |
| CsvExport.LastRowEnds | DevNotes/js/scripts.js:80 | the joined rows end with `,` and the last note's `true`/`false` |
| CsvExport.EscapeAppend | DevNotes/js/scripts.js:75 | escaping a concatenation escapes each part |
| CsvExport.EscapeWithoutQuotes | DevNotes/js/scripts.js:75 | text without double quotes is left as it is |
| CsvExport.EscapeQuotedWord | DevNotes/js/scripts.js:75 | `a"b"` escapes to `a""b""` |
| CsvExport.CsvOfOne | DevNotes/js/scripts.js:79-81 | the export of one note is the header followed by that note's row |
| CsvExport.CsvQuotedExample | DevNotes/js/scripts.js:74-81 | a pinned note `a"b"` (no quotes in `a`, `b`) exports as the header and the row `"a""b""",true` |
| CsvExport.CsvExample | DevNotes/js/scripts.js:74-81 | the pinned note `He said "hi"` exports as `Content,Fixed`, a line feed, `"He said ""hi""",true` |
| NoteApp.NoteStore.constructor | DevNotes/js/scripts.js:9 | the list is the stored list, or empty when storage has none; nothing is written |
| NoteApp.NoteStore.SaveNotes | DevNotes/js/scripts.js:19-21 | the stored copy becomes the current list; the list is unchanged |
| NoteApp.NoteStore.AddNote | DevNotes/js/scripts.js:23-31 | the list gains exactly one last note (new id, given content, unpinned), earlier notes unchanged; saved; ids stay distinct |
| NoteApp.NoteStore.DeleteNote | DevNotes/js/scripts.js:36-38 | the list becomes the notes with another id in order; absent id: unchanged; saved; ids stay distinct |
| NoteApp.NoteStore.DuplicateNote | DevNotes/js/scripts.js:42-45 | missing id: reported and nothing changes; otherwise one unpinned copy of a note with the id is appended and saved |
| NoteApp.NoteStore.ToggleFixNote | DevNotes/js/scripts.js:47-54 | the list becomes the toggled list; ids unchanged; saved |
| NoteApp.NoteStore.UpdateNote | DevNotes/js/scripts.js:58-64 | the first note with the id gets the new content and the list is saved; with no such note nothing changes and nothing is saved |
| NoteApp.NoteStore.SearchNotes | DevNotes/js/scripts.js:66-71 | the notes whose content contains the query ignoring case, in order; all notes for the empty query |
| NoteApp.NoteStore.ExportToCsv | DevNotes/js/scripts.js:73-81 | the CSV text, which reads back as every note's content and pin state |
| NoteApp.NoteStore.DisplayNotes | DevNotes/js/scripts.js:97-105 | the given list (or the whole list when none is given) with pinned notes first, a permutation of it |

## Left out

- Page elements, event listeners, rendering (`createNoteElement`, `createIcon`, `cleanNotes`, `addEventListeners`, lines 3-7 and 108-178): user-interface wiring. `DisplayNotes` returns the order in which notes would be rendered.
- Browser storage and JSON (`getNotes`, `saveNotes`, lines 15-21): saving is modelled as keeping a snapshot of the list. Loading is modelled as "absent gives empty"; malformed JSON, which throws, is not modelled.
- The CSV download (Blob, object URL, hidden link, lines 83-94): browser I/O. Only the CSV text is modelled.
- `generateId` (lines 180-182): it uses random numbers. The new id is a parameter.
- NoteApp.NoteStore.AddNote: requires the new id to be fresh. The random seven-character id can in principle collide with an existing one, and the model does not cover that case.
- NoteApp.NoteStore.DuplicateNote: the thrown `TypeError` is modelled as a `false` result with no change. How the exception travels up to the click handler is not modelled.
- Search.Lower: lower-cases ASCII letters only. The source's `toLowerCase` follows full Unicode case mapping.
- Notes are values here. The source mutates the note objects in place in `toggleFixNote` and `updateNote` (lines 50, 61). No other reference to a note object exists (the page keeps only ids), so the list contents are the same either way.
- Clearing the input box after adding a note (line 32) and re-rendering after each mutation (lines 33, 39, 55): user interface.
