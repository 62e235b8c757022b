# Penn class list scraper: the record extraction, in Dafny

The Penn class list scraper is a browser extension. It turns the rows of the
`.pdfClassListEntry` class-list table into JSON records. This project models
the core of its content script:

- **`extractDataFromRow`** builds one record from a row. It reads the image
  link and student ID, then splits the details cell on `<br>` and applies every
  `<b>KEY: </b>VALUE` piece. E-mail links are unwrapped to the address. Then,
  in order, it:
  - splits `Name` into `Last`/`First`;
  - turns `Privacy` into a boolean;
  - turns `Advisor` into a list;
  - splits `Primary Major` and `Primary Division` into a code and a title.
- **`fetchAllRecords`** adds `imageBlob` to each record. It drops the rows that
  throw and keeps the rest in row order.
- **`generateFilename`** names the download after the distinct registered
  sections.

Modules:

- `JsString` holds `includes`, `trim`, `split` and `join` with JavaScript's
  semantics. Strings are sequences of characters. `trim` removes JavaScript's
  whitespace and line terminators.
- `JsRegex` holds the four regular expressions the script uses. `MatchesAt`
  states declaratively when a pattern matches at an index with given capture
  groups. `Exec` finds the leftmost match, as `String.prototype.match` does.
  `.` stops at line terminators. `\d` is `[0-9]` and `\w` is `[A-Za-z0-9_]`.
- `ClassList` holds rows and records. A record is a JavaScript object, modelled
  as a map from property names to values. A row is the image element's `src`
  and `alt` (if there is an image) and the details cell's `innerHTML` (if there
  is a details cell).
  - `ExtractDataFromRow` builds the record by assignments, step by step. It
    loops over the pieces in `ReadDetails`, handles one piece in `ReadPiece`,
    and runs one normaliser per step method.
  - It is proved equal to the functional specification `RowRecord`. The
    properties of the source are proved about `RowRecord` and its parts.
  - The TypeError that `[1]` on a failed e-mail-link match throws is the
    error result `MailtoLinkMissing`.
- `Assembly` holds the map-and-filter of `fetchAllRecords`, with the image
  fetch as an input.
- `Filename` holds `generateFilename`.

JavaScript details that the model keeps:

- Assigning a string to `data["__proto__"]` changes nothing.
- `data.First = nameParts[1]?.trim()` stores `undefined` when there is no comma.
- Truthiness decides the `Privacy` test.
- `Array.prototype.join` writes `undefined` as nothing. So a class list whose
  only section is missing gets the default name, and one where some records
  lack the section gets an empty segment in the name.

## Model

| member | source | states |
|---|---|---|
| JsString.Includes | penn-classlist-scraper/content.js:29 | `includes` is true exactly when the pattern occurs at some index |
| JsString.TrimMeaning | penn-classlist-scraper/content.js:27-28 | `trim` returns a slice of the input that neither starts nor ends with whitespace, and only whitespace lies before and after that slice |
| JsString.TrimAvoids | penn-classlist-scraper/content.js:27 | trimming never introduces a character that the input does not hold |
| JsString.Split | penn-classlist-scraper/content.js:23 | `split` yields at least one piece and joining the pieces with the separator gives back the input |
| JsString.SplitPiecesAvoidSeparator | penn-classlist-scraper/content.js:51 | no piece of a split contains the separator |
| JsString.SplitCharCount | penn-classlist-scraper/content.js:51 | splitting on one character gives one more piece than that character occurs |
| JsString.SplitFirstTwoPieces | penn-classlist-scraper/content.js:39-41 | the first two pieces of a split on `c` are the texts before the first and the second `c` |
| JsRegex.MatchAt | penn-classlist-scraper/content.js:14 | a pattern matches at an index with groups `g` exactly when `MatchAt` returns `g` (greedy groups are maximal) |
| JsRegex.Exec | penn-classlist-scraper/content.js:14 | a match found is a match, and no match starts before it (`match` without the `g` flag is leftmost) |
| JsRegex.DetailLineFound | penn-classlist-scraper/content.js:25 | `/<b>([^:]+): <\/b>(.*)/` matches at the leftmost `<b>KEY: </b>` with a non-empty colon-free KEY, capturing KEY and the value to the end of the line |
| JsRegex.MailtoLinkFound | penn-classlist-scraper/content.js:30 | `/<a href="mailto:([^"]+)">/` matches at the leftmost complete link and captures its address |
| JsRegex.MailtoLinkOfMatch | penn-classlist-scraper/content.js:30 | whatever the link pattern matches is the leftmost complete link, its group the address |
| JsRegex.CodeTitleFound | penn-classlist-scraper/content.js:56 | `/(\w+) \(([^)]+)\)/` matches at the leftmost place where a run of word characters is followed by ` (TITLE)`, capturing the word and the title up to the first `)` |
| JsRegex.CodeWithTitleShape | penn-classlist-scraper/content.js:56 | any match has a non-empty word code, a non-empty title without `)`, and `CODE (TITLE)` occurs at the match |
| ClassList.ImageFields | penn-classlist-scraper/content.js:11-18 | `imageLink` is set exactly when there is an image, to its `src`, and `studentId` exactly when the alt text holds a digit |
| ClassList.StudentIdIsFirstDigitRun | penn-classlist-scraper/content.js:14-17 | `studentId` is the first maximal run of digits in the alt text |
| ClassList.Store | penn-classlist-scraper/content.js:32 | `data[key] = value` sets that property to the string and keeps every other one, and an assignment to `__proto__` changes nothing |
| ClassList.EntryFor | penn-classlist-scraper/content.js:29-32 | a key gets its value, except an `EmailAddress` that mentions `mailto:`: it fails exactly when no link matches, and otherwise gets the address of the leftmost complete link |
| ClassList.EmailLinkUnwrapped | penn-classlist-scraper/content.js:29-30 | an e-mail value whose leftmost complete link starts at `j` becomes that link's address |
| ClassList.EmailWithoutLinkFails | penn-classlist-scraper/content.js:29-30 | an e-mail value that mentions `mailto:` but holds no link is the error |
| ClassList.DetailEntry | penn-classlist-scraper/content.js:25-31 | the only error a piece raises names a value that mentions `mailto:` but holds no link |
| ClassList.DetailEntryMeaning | penn-classlist-scraper/content.js:25-28 | a piece contributes nothing exactly when the detail pattern matches nowhere in it, and a key it sets holds no colon and is trimmed |
| ClassList.BoldLineEntry | penn-classlist-scraper/content.js:25-28 | a piece whose leftmost `<b>KEY: </b>` is followed by VALUE contributes the entry for the trimmed KEY and the trimmed VALUE |
| ClassList.ApplyDetailsErrorPersists | penn-classlist-scraper/content.js:24-34 | once a piece throws, later pieces change nothing (the exception leaves the `forEach`) |
| ClassList.ApplyDetailsStopsAt | penn-classlist-scraper/content.js:24-34 | when the earlier pieces apply cleanly and a piece throws, the loop ends with that piece's error |
| ClassList.ApplyDetailsErrorFrom | penn-classlist-scraper/content.js:24-34 | an error of the loop is the error raised by one of the pieces |
| ClassList.ApplyDetailsFailsIff | penn-classlist-scraper/content.js:24-34 | applying the pieces fails exactly when some piece throws |
| ClassList.LastPieceWins | penn-classlist-scraper/content.js:24-34 | a key set by some piece holds the value of the last such piece; any other key, and `__proto__`, keeps its value |
| ClassList.ReadDetails | penn-classlist-scraper/content.js:22-35 | the loop over the pieces ends with the pieces applied in order, or with the first error |
| ClassList.ReadPiece | penn-classlist-scraper/content.js:25-33 | one piece's assignment to the record is the one its contribution prescribes |
| ClassList.SplitName | penn-classlist-scraper/content.js:38-42 | a non-empty `Name` adds `Last` (a string) and `First` and changes no other property; otherwise the record is unchanged |
| ClassList.NameWithComma | penn-classlist-scraper/content.js:39-41 | `Last` is the trimmed text before the first comma, `First` the trimmed text up to the second, and `Name` is kept |
| ClassList.NameWithoutComma | penn-classlist-scraper/content.js:39-41 | without a comma `Last` is the trimmed name and `First` is `undefined` |
| ClassList.NameStep | penn-classlist-scraper/content.js:38-42 | the in-place name split produces `SplitName` of the record |
| ClassList.CoercePrivacy | penn-classlist-scraper/content.js:45-47 | a truthy `Privacy` becomes a boolean that is true exactly for `Y`; otherwise nothing changes |
| ClassList.PrivacyStep | penn-classlist-scraper/content.js:45-47 | the in-place coercion produces `CoercePrivacy` of the record |
| ClassList.ListAdvisors | penn-classlist-scraper/content.js:50-52 | a non-empty `Advisor` becomes a list of trimmed parts, one more than its semicolons, none holding `;`; the untrimmed parts joined by `;` give back the original |
| ClassList.AdvisorStep | penn-classlist-scraper/content.js:50-52 | the in-place conversion produces `ListAdvisors` of the record |
| ClassList.SplitCodeTitle | penn-classlist-scraper/content.js:55-69 | when `CODE (TITLE)` matches in a non-empty field, the field becomes the word code and `... Title` the title, both taken from the field; otherwise nothing changes; other properties are kept |
| ClassList.CodeTitleSplit | penn-classlist-scraper/content.js:56-59 | for the leftmost run of word characters followed by ` (TITLE)`, the field becomes that word and `... Title` that title |
| ClassList.CodeTitleStep | penn-classlist-scraper/content.js:55-69 | the in-place split produces `SplitCodeTitle` of the record |
| ClassList.Normalise | penn-classlist-scraper/content.js:37-69 | the normalisers delete no property and keep every property other than `Last`, `First`, `Privacy`, `Advisor` and the two code fields with their titles |
| ClassList.NormalisedPrivacy | penn-classlist-scraper/content.js:44-69 | after all normalisers a non-empty `Privacy` is `true` exactly when it was `Y` |
| ClassList.ParsedRow | penn-classlist-scraper/content.js:8-35 | after the image and the details cell, the only error is an e-mail value that mentions `mailto:` but holds no link |
| ClassList.RowRecord | penn-classlist-scraper/content.js:7-72 | a row throws only the TypeError of an e-mail value that mentions `mailto:` but holds no link |
| ClassList.RowRecordFailsIff | penn-classlist-scraper/content.js:7-72 | a row throws exactly when some piece of its details cell throws |
| ClassList.ExtractDataFromRow | penn-classlist-scraper/content.js:7-72 | the step-by-step construction returns `RowRecord(row)`: image fields, the pieces applied in order, then the normalisers in source order |
| Assembly.ProcessRow | penn-classlist-scraper/content.js:99-108 | a row yields `null` exactly when extraction throws or the image read rejects; otherwise the record plus `imageBlob` (the data URL or `null`) |
| Assembly.PresentIsSubsequence | penn-classlist-scraper/content.js:111 | filtering out `null` keeps the present values at strictly increasing positions, exactly the positions holding a value |
| Assembly.FetchAllRecords | penn-classlist-scraper/content.js:97-112 | there are no more records than rows, and each record is the processed record of some row |
| Assembly.FetchAllRecordsInOrder | penn-classlist-scraper/content.js:97-112 | the records are the processed rows that did not fail, in row order |
| Assembly.NoFailureKeepsEveryRow | penn-classlist-scraper/content.js:97-112 | when no row fails there is one record per row |
| Filename.Dedup | penn-classlist-scraper/content.js:116 | the distinct values are the values of the input, each once |
| Filename.DedupFirstOccurrenceOrder | penn-classlist-scraper/content.js:116 | the distinct values are in the order of their first occurrence (a `Set` iterates in insertion order) |
| Filename.GenerateFilename | penn-classlist-scraper/content.js:115-119 | the name starts with `penn_class_list_data` and ends with `.json`; it is the default exactly when the joined sections are empty, and otherwise holds `_` and the joined sections in between |
| Filename.DefaultNameIff | penn-classlist-scraper/content.js:116-118 | the default name is chosen exactly when there is no distinct section, or only one, written as nothing |
| Filename.EmptyListGetsDefault | penn-classlist-scraper/content.js:118 | an empty class list gets `penn_class_list_data.json` |
| Filename.OneSection | penn-classlist-scraper/content.js:116-118 | when all records share one named section, the file is `penn_class_list_data_<section>.json` |

## Left out

- The DOM is left out. `querySelector`/`querySelectorAll` and `innerHTML` are
  replaced by the row's image (`src`, `alt`) and the details cell's HTML as
  inputs. Which elements the selectors pick is not modelled.
- `fetchAndEncodeImage` is left out: the network, `fetch`, `Blob` and
  `FileReader`. Each row's image outcome is an input to the model: a data URL,
  a caught failure (`null`), or a `FileReader` rejection. The rejection
  escapes that function's `try`, because the promise is returned without
  `await`, so that row is dropped.
- `Promise.all` and the concurrency of the per-row callbacks are left out.
  The rows are processed as a sequence, which is what `Promise.all`'s
  ordered result amounts to.
- The console warnings and errors are left out.
- The message listener, `JSON.stringify`, the `Blob` URL and the download are
  left out. The order in which a record's keys are inserted is not modelled,
  because a record is a map.
- `popup.js`, `background.js` and `combine.py` are not part of this model.
- Strings are sequences of Unicode scalar values, not UTF-16 code units.
  Characters outside the Basic Multilingual Plane do not occur in the
  patterns, so matches and trims are unaffected.
- Filename.Dedup: compares values structurally. A JavaScript `Set` compares
  arrays by identity. A `Registered Section` value is never an array, so
  this does not arise.
- Assembly.FetchAllRecords: its own contract states the length bound and that
  each record comes from some row. The order and selection of the records
  are stated by `Assembly.FetchAllRecordsInOrder`.
