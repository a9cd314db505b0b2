# z-love-read reading core in Dafny

z-love-read is a VS Code extension for reading `.txt` and `.epub` books in
the status bar, one short chunk at a time. This project models its
reading core and proves properties of it:

- The content normaliser (`processContent`). It trims raw lines, drops
  blank ones, runs the rest together and cuts the result into chunks of
  `lineLength` characters. It also counts the characters kept.
- The cleaning of EPUB chapter text. Markup tags are stripped, the text
  is split on line feeds, blank lines are dropped, and each chapter's
  lines are appended as its callback completes.
- The reading session of `src/extension.ts`, as the class
  `Reader.Session`:
  - the loaded `BookContent`;
  - the current position;
  - the current book;
  - the status-bar text and tooltip;
  - the commands `nextLine`, `prevLine`, `selectBook`, `loadBook`,
    `reloadContent`, `loadLastProgress` and `deactivate`;
  - `loadBookContent`, `updateStatusBar`, `saveProgress` and `getProgress`.
- The persisted `zloveread` configuration, as the class `Settings.Config`.
  It holds:
  - reading progress per book;
  - last-read time per book;
  - characters read per day;
  - the current book.
- The bookkeeping of the management page: removing a book's record, the
  reading history, and the statistics summary.

Modules:

| module | file | what it holds |
|---|---|---|
| `Wrappers` | `wrappers.dfy` | `Option` |
| `Strings` | `strings.dfy` | JavaScript `trim`, `split('\n')`, number rendering, concatenation |
| `Content` | `content.dfy` | `processContent` and its specification |
| `EpubText` | `epub_text.dfy` | tag stripping, line filtering, chapter collection |
| `Settings` | `settings.dfy` | the configuration object, `getProgress`, the day buckets |
| `BookManager` | `book_manager.dfy` | `removeBook`, `getReadingHistory`, the statistics summary |
| `Reader` | `reader.dfy` | extensions and the picker filter, status text, loading, the session class |

Three behaviours are modelled as the code has them:

- EPUB chapters are appended in the order their callbacks complete, not
  in the order of the book's flow. `EpubText.CleanAllAnyOrder` shows that
  every completion order yields the same lines, each as often. Only the
  order of the chapter blocks can differ.
- The stored position is restored without clamping against the new
  chunk count. A position past the end shows the text `undefined`, which
  is what appending an undefined chunk to a string gives, and no tooltip.
- `removeBook` asks for a reload when the removed book is the stored
  current book, and it clears only that stored one. The reload loads the
  session's own current book, which can differ from the stored one after
  `loadBook`. It is loaded at its own stored position. When the session's
  book is the removed book, it is loaded again from position 0, its
  progress being gone.

## Model

| member | source | states |
|---|---|---|
| `Strings.TrimStart` | src/extension.ts:348 | the result is a suffix of the line, only whitespace was dropped, and it does not start with whitespace |
| `Strings.TrimEnd` | src/extension.ts:348 | the result is a prefix, only whitespace was dropped, and it does not end with whitespace |
| `Strings.Trim` | src/extension.ts:348 | the trimmed line neither starts nor ends with whitespace; it is empty exactly when the line is all whitespace |
| `Strings.TrimEmptyIffAllWhitespace` | src/extension.ts:348 | trimming both ends leaves nothing exactly when every character of the line is whitespace |
| `Strings.TrimAround` | src/extension.ts:348 | the kept part is found in the line at some offset, with whitespace around it |
| `Strings.TrimIdempotent` | src/extension.ts:348 | trimming twice is trimming once |
| `Strings.BlankIffTrimEmpty` | src/extension.ts:262 | a line is dropped by `line.trim()` as falsy exactly when it is whitespace only |
| `Strings.BlankIffAllWhitespace` | src/extension.ts:349 | a line is blank exactly when every one of its characters is whitespace |
| `Strings.SplitLines` | src/extension.ts:236 | `split('\n')` gives at least one piece and no piece holds a line feed |
| `Strings.JoinSplitLines` | src/extension.ts:236 | joining the pieces of a split with line feeds gives back the text |
| `Strings.SplitJoinLines` | src/extension.ts:262 | splitting a join of line-feed-free pieces gives back the pieces |
| `Strings.ConcatOfAppend` | src/extension.ts:262 | the concatenation of two runs of blocks is the two concatenations one after the other |
| `Strings.SumLengthsIsConcatLength` | src/extension.ts:351 | adding lengths one line at a time counts exactly the characters of the lines joined |
| `Strings.NatToString` | src/extension.ts:295 | the rendering of a number is a non-empty run of decimal digits, with no leading zero unless the number is 0 |
| `Strings.DigitsValueOfNatToString` | src/extension.ts:295 | reading the rendered digits back gives the number |
| `Content.TrimmedNonBlank` | src/extension.ts:347-349 | the kept lines are no more than the raw lines and none is empty |
| `Content.ChunksConcat` | src/extension.ts:355-364 | the chunks concatenated give back the text: nothing dropped, duplicated or reordered |
| `Content.ChunksShape` | src/extension.ts:355-364 | every chunk but the last has exactly `lineLength` characters, the last between 1 and `lineLength`; no chunks exactly when the text is empty |
| `Content.ChunksUnique` | src/extension.ts:355-364 | any list of chunks with that shape is the chunking of its own concatenation, so the shape decides the chunks |
| `Content.ProcessContent` | src/extension.ts:341-367 | the loop's chunks are the fixed-width chunking of the trimmed non-blank lines run together, they concatenate to that text and have the chunk shape; its count is the total length of those lines |
| `Content.CutFullChunks` | src/extension.ts:355-358 | the inner loop moves text from the buffer to the chunks without loss, adds only full chunks and leaves less than `lineLength` in the buffer |
| `Content.FlushRemainder` | src/extension.ts:362-364 | pushing a non-empty leftover after full chunks gives a well-shaped chunk list |
| `Content.CutStep` | src/extension.ts:356-357 | cutting one chunk off the buffer keeps chunks-then-buffer unchanged |
| `Content.KeptStep` | src/extension.ts:348-352 | one more raw line adds its trim, when not empty, to the kept text and its length to the count |
| `Content.KeptEmptyIffAllBlank` | src/extension.ts:347-349 | no line is kept exactly when every raw line is blank |
| `Content.NoChunksIffAllBlank` | src/extension.ts:349 | there are no chunks exactly when every raw line is blank |
| `Content.TotalWordsIsJoinedLength` | src/extension.ts:351 | the count equals the number of characters in the chunks, whatever `lineLength` is |
| `EpubText.IndexOfClose` | src/extension.ts:261 | the first `>` of the text: a `>` with none before it |
| `EpubText.StripTags` | src/extension.ts:261 | stripping never lengthens the text |
| `EpubText.StripTagsKeepsChars` | src/extension.ts:261 | every character left after stripping was a character of the text: stripping adds none |
| `EpubText.StripTagsLeavesNoTag` | src/extension.ts:261 | after stripping, no `<` is followed by a `>`: no tag is left |
| `EpubText.StripTagsKeepsTagFree` | src/extension.ts:261 | text with no tag is left as it is |
| `EpubText.StripTagsIdempotent` | src/extension.ts:261 | stripping twice is stripping once |
| `EpubText.StripTagsKeepsPlainPrefix` | src/extension.ts:261 | text before the first `<` comes through unchanged, ahead of the stripped rest |
| `EpubText.StripTagsDropsTag` | src/extension.ts:261 | a `<`, the text up to the first `>` and that `>` are dropped together, and the rest is stripped on its own, so `a<b>c<d>e` gives `ace` |
| `EpubText.NonBlankLinesMembers` | src/extension.ts:262 | the filter keeps every non-blank line and only lines that are non-blank |
| `EpubText.NonBlankLinesOne` | src/extension.ts:262 | a single line is kept exactly when it is not blank |
| `EpubText.NonBlankLinesAppend` | src/extension.ts:262 | filtering two runs of lines gives the two filtered runs one after the other, so each non-blank line is kept as often as it occurs and in its place |
| `EpubText.NoTagPieces` | src/extension.ts:261-262 | splitting tag-free text yields tag-free lines |
| `EpubText.CleanChapterLines` | src/extension.ts:261-262 | every line a chapter contributes has no tag and no line feed and is not blank |
| `EpubText.CollectChapters` | src/extension.ts:254-266 | the callbacks yield lines exactly when no chapter failed, and then each chapter's lines appended in completion order |
| `EpubText.CleanAllStep` | src/extension.ts:262 | one more completed chapter appends its own lines to what was collected |
| `EpubText.CleanAllAppend` | src/extension.ts:262 | the lines of two runs of callbacks are the two runs' lines one after the other |
| `EpubText.CleanAllAnyOrder` | src/extension.ts:254-262 | any completion order of the same chapters yields the same lines, each as often |
| `EpubText.CleanAllLines` | src/extension.ts:261-262 | every line the EPUB branch passes to the normaliser has no tag and no line feed and is not blank |
| `Settings.GetProgress` | src/extension.ts:304-307 | the stored position of the book when it has one, and 0 when it has none or a stored 0 |
| `Settings.Bucket` | src/bookManager.ts:272-273 | a day's count, 0 for a day without a bucket |
| `Settings.ProgressReadBack` | src/extension.ts:304-317 | a saved position reads back as saved, and other books read as before |
| `Settings.ProgressAfterRemoval` | src/bookManager.ts:327 | once a book's entry is deleted its progress reads as 0 |
| `BookManager.RemoveBook` | src/bookManager.ts:313-337 | with no truthy progress entry (absent or 0), reports not-found and changes nothing; otherwise the book is gone from both maps, every other entry stays, the stored current book is cleared when it was the one removed, and a reload is asked for exactly then |
| `BookManager.RemovalKeepsOthers` | src/bookManager.ts:325-328 | deleting a key from a copy keeps every other key with its value |
| `BookManager.ReadingHistory` | src/bookManager.ts:292-310 | one row per listed key, each with the book's stored position, its line count (0 without a file) and its last-read time or now |
| `BookManager.HistoryOneRowPerBook` | src/bookManager.ts:292-309 | exactly one row per book with a progress entry and no other row, the stored position copied, and `now` for a book without a last-read time |
| `BookManager.SumBucketsAppend` | src/bookManager.ts:274 | the sum over two runs of keys is the sum of the two sums |
| `BookManager.SumBucketsAnyOrder` | src/bookManager.ts:274 | the all-time total does not depend on the order the keys are listed in |
| `BookManager.SumBucketsUpdate` | src/bookManager.ts:274 | changing one listed bucket changes the total by the same amount |
| `BookManager.SumBucketsUnchanged` | src/bookManager.ts:274 | a bucket for an unlisted day leaves the total alone |
| `BookManager.SummaryAfterReading` | src/bookManager.ts:272-274 | adding n characters to a day, new bucket or not, adds n to that day and to the total and leaves other days alone |
| `BookManager.ReadingKnownDay` | src/bookManager.ts:272-274 | adding n characters to a day that has a bucket adds n to the total over the same keys |
| `BookManager.ReadingNewDay` | src/bookManager.ts:272-274 | adding n characters to a day without a bucket adds that day to the keys and n to the total |
| `Reader.LastDot` | src/extension.ts:233 | the last `.` of the name, when there is one |
| `Reader.LowerAscii` | src/extension.ts:233 | lower-casing keeps the length and lowers each letter in place |
| `Reader.PickerEntries` | src/extension.ts:114-116 | the picker offers exactly the directory's entries that end in `.txt` or `.epub` |
| `Reader.PickerEntriesOne` | src/extension.ts:114-116 | a single directory entry is offered exactly when it ends in `.txt` or `.epub` |
| `Reader.PickerEntriesAppend` | src/extension.ts:114-116 | filtering two runs of entries gives the two filtered runs one after the other, so the picker keeps the listing's order and offers each entry as often as it occurs |
| `Reader.LastDotIs` | src/extension.ts:233 | a `.` with no `.` after it is the one `extname` starts from |
| `Reader.ListedExtension` | src/extension.ts:233 | a listed name longer than its suffix has that suffix as its extension |
| `Reader.DotNamesHaveNoExtension` | src/extension.ts:233 | `.txt` and `.epub` alone have an empty extension |
| `Reader.ListedFormat` | src/extension.ts:233-246 | a listed name longer than its suffix loads in the format its suffix names |
| `Reader.ListedBooksLoad` | src/extension.ts:114-116 | every name the picker lists loads in the format its suffix names, except the bare names `.txt` and `.epub`, which load nothing |
| `Reader.UpperCaseNotListed` | src/extension.ts:115 | `BOOK.TXT` is not offered by the case-sensitive picker yet loads as text |
| `Reader.StatusText` | src/extension.ts:288-300 | no text when there are no chunks; otherwise the chunk at the position, after the progress prefix when that is shown |
| `Reader.DigitRun` | src/extension.ts:295 | the leading digits of a text, up to the first non-digit |
| `Reader.DigitRunOf` | src/extension.ts:295 | the leading digits of a rendered number followed by a non-digit are that number |
| `Reader.StatusTextReadsBack` | src/extension.ts:295-298 | the prefixed status text reads back as the one-based position, the chunk count and the chunk shown |
| `Reader.ParsePrefixed` | src/extension.ts:295 | a `[` followed by the rendered position, `/`, the rendered count and `] ` reads back as those two numbers and the rest |
| `Reader.ParseShownOf` | src/extension.ts:295 | the rendered position, `/`, the rendered count and `] ` read back as those two numbers and the rest |
| `Reader.ParseTotalOf` | src/extension.ts:295 | the rendered count followed by `] ` reads back as that count and the rest |
| `Reader.LoadedBookShape` | src/extension.ts:232-286 | only a readable file loads; a loaded book's chunks concatenate to its kept text and are well-shaped; its count is their length; no chunks exactly when every line is blank; a text book's lines are the file split on line feeds; an EPUB book's lines are tag-free, line-feed-free and not blank |
| `Reader.Session.constructor` | src/extension.ts:29-36 | the session starts with the empty book at position 0 and no current book |
| `Reader.Session.UpdateStatusBar` | src/extension.ts:288-302 | with chunks: shows the status text, and the chunk as tooltip, or no tooltip past the last chunk; with none: keeps the old text and tooltip |
| `Reader.Session.SaveProgress` | src/extension.ts:309-318 | the current book's position and time are stored and every other entry is kept |
| `Reader.Session.NextLine` | src/extension.ts:157-171 | below the last chunk: moves one on, shows the new chunk as text and tooltip, saves progress, and adds the length of the chunk now shown to today's bucket, other days unchanged; otherwise changes neither position, progress, times, statistics nor the bar |
| `Reader.Session.PrevLine` | src/extension.ts:173-179 | above the first chunk: moves one back, shows that position on the bar and saves progress; at 0 changes nothing; never touches the statistics |
| `Reader.Session.LoadBookContent` | src/extension.ts:232-286 | a loadable file replaces the book with the one built from it, restores the stored position unclamped and shows it, except that a book with no chunks leaves the previous text and tooltip on the bar; when nothing loads, an unreadable file included, nothing changes |
| `Reader.Session.SelectBook` | src/extension.ts:107-139 | with a book directory and a pick, the pick, always a listed name, becomes the current book here and in the configuration, the book is emptied and then loaded, and the bar shows the loaded book or keeps its old text when nothing loads or no chunk results; otherwise nothing changes |
| `Reader.Session.LoadBook` | src/extension.ts:142-155 | an opened file becomes the session's current book and is loaded and shown; when it does not load, the book and the bar stay; the configuration's current book stays |
| `Reader.Session.ReloadContent` | src/extension.ts:198-203 | loads and shows the session's current book again when there is one and it loads; otherwise the book and the bar stay |
| `Reader.Session.LoadLastProgress` | src/extension.ts:320-331 | reopens and shows the stored current book when a directory is set and the file exists; otherwise the book and the bar stay |
| `Reader.Session.Deactivate` | src/extension.ts:334-339 | saves the current book's progress when there is a current book |
| `Reader.Session.RemoveBookAndReload` | src/bookManager.ts:313-337 | with no truthy progress entry: not found and the maps and stored current book unchanged; otherwise the book's key leaves both maps, every other entry stays, a matching stored current book is cleared, and the statistics never change; when a reload is asked for, the session's current book is loaded and shown, so removing the session's own book shows it again from the first chunk; otherwise the book and the bar stay |
| `Reader.NextLineCounted` | src/extension.ts:164-168 | after a move on, today's count and the all-time total on the management page both grow by the length of the chunk now shown |

## Left out

- The VS Code host is not modelled:
  - creating, showing, hiding and moving the status-bar item (`toggleReader`, `updateStatusBarPosition`);
  - command registration;
  - quick picks and dialogs;
  - messages;
  - the management page's HTML and its message handling.
- The file system is not modelled. These are inputs:
  - a book's text, or `None` when the file cannot be read;
  - the directory listing;
  - whether the last book's file exists, for `loadLastProgress`;
  - the history's line counts;
  - the default books copied at activation.
- The `epub` library is not modelled: parsing the container, the flow and `getChapter`. Each chapter is given as what its callback delivered, in completion order. A container that fails to parse is not modelled.
- Asynchrony is not modelled. `saveProgress` is not awaited where `nextLine`, `prevLine` and `deactivate` call it, nor is the statistics update of `nextLine`. Those can race with a later read-modify-write of the same setting. Here each command runs to completion on one in-memory configuration, so those races are absent.
- The clock and the date key are not modelled. `Date.now()` and `toISOString()` appear only as the `now` and `today` parameters.
- Strings are sequences of code points. JavaScript counts UTF-16 code units, so lengths of text outside the Basic Multilingual Plane differ.
- `Reader.LowerAscii`: lowers only `A` to `Z`. That is enough to compare an extension with `.txt` and `.epub`, but it is not full Unicode lower-casing.
- `Reader.ExtName`: takes a bare file name. The directory part of a path and its separators are not modelled. `loadBook` loads a path from any directory and the other commands join a name to the book directory, but `extname` reads only the last segment of the path, so the bare name decides the format.
- `Content.ProcessContent`: requires `lineLength > 0`. The settings field shows bounds 5 to 50, but it posts `parseInt` of whatever was typed and the handler stores that unchecked. A value of 0 or below never ends the source's inner loop, because the buffer's length is always at least that. An emptied field stores `NaN`, and what the configuration returns for it is up to the host. None of these is modelled.
- The reading-progress and daily-statistics maps hold natural numbers, and the last-read-time map holds integers. Hand-edited negative, fractional or non-numeric values are not modelled.
- The order `Object.keys` lists keys in is an input to `BookManager.ReadingHistory` and `BookManager.Summary`, which says only that it lists each key once.
- The unused `orderMap` and the status-bar order setting drive no behaviour and are left out.
