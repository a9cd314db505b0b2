/**
  The reading session of `src/extension.ts`: the loaded book, the index of
  the chunk shown in the status bar, and the commands that move through
  the book, load books and keep the stored progress and daily statistics.
  Reading files, parsing EPUB containers, dialogs and the clock are
  outside the model: what they deliver is passed in.
 */
module Reader {
  import opened Wrappers
  import opened Strings
  import opened Content
  import opened EpubText
  import opened Settings
  import BookManager

  datatype Format = Txt | Epub

  /** The `BookContent` record: the raw lines, the format, the character
      count and the chunks the status bar shows. */
  datatype BookContent = BookContent(
    content: seq<string>, format: Format, totalWords: nat, processedContent: seq<string>)

  /** The record the session starts with and `selectBook` resets to. */
  const EmptyBook := BookContent([], Txt, 0, [])

  /** The record `loadBookContent` builds from raw lines: their count and
      chunks, as `processContent` makes them. */
  function MakeBook(raw: seq<string>, format: Format, lineLength: nat): BookContent
    requires lineLength > 0
  {
    BookContent(raw, format, TotalWords(raw), Chunks(Joined(raw), lineLength))
  }

  // File names.

  /** The index of the last `.` in `name`, if any. */
  function LastDot(name: string): (r: Option<nat>)
    ensures r.None? ==> '.' !in name
    ensures r.Some? ==> r.value < |name| && name[r.value] == '.' && '.' !in name[r.value + 1..]
  {
    if name == [] then None
    else if name[|name| - 1] == '.' then Some(|name| - 1)
    else
      var r := LastDot(name[..|name| - 1]);
      assert r.Some? ==> name[r.value + 1..] == name[..|name| - 1][r.value + 1..] + [name[|name| - 1]];
      r
  }

  /** `path.extname` of a file name: from the last `.` to the end, or
      empty when there is no `.`, when the only `.` that counts is the
      first character (`.txt`), or for `..`. */
  function ExtName(name: string): string {
    match LastDot(name)
    case None => ""
    case Some(i) => if i == 0 || name == ".." then "" else name[i..]
  }

  function LowerChar(c: char): char {
    if 'A' <= c <= 'Z' then (c as int + 32) as char else c
  }

  /** `toLowerCase` on the letters that can spell a book extension. */
  function LowerAscii(s: string): (r: string)
    ensures |r| == |s|
    ensures forall i :: 0 <= i < |s| ==> r[i] == LowerChar(s[i])
  {
    seq(|s|, i requires 0 <= i < |s| => LowerChar(s[i]))
  }

  /** How `loadBookContent` reads a file, by the lower-cased extension of
      its name: as text, as EPUB, or not at all. */
  function KindOf(name: string): Option<Format> {
    var ext := LowerAscii(ExtName(name));
    if ext == ".txt" then Some(Txt)
    else if ext == ".epub" then Some(Epub)
    else None
  }

  predicate EndsWith(s: string, suffix: string) {
    |suffix| <= |s| && s[|s| - |suffix|..] == suffix
  }

  /** The filter of the book picker: names ending in `.txt` or `.epub`,
      case-sensitive. */
  predicate IsListed(name: string) {
    EndsWith(name, ".txt") || EndsWith(name, ".epub")
  }

  /** The entries of the book directory the picker offers, in order. */
  function PickerEntries(dir: seq<string>): (r: seq<string>)
    ensures forall k :: 0 <= k < |r| ==> IsListed(r[k]) && r[k] in dir
    ensures forall name :: name in dir && IsListed(name) ==> name in r
  {
    if dir == [] then []
    else
      var init := dir[..|dir| - 1];
      var last := dir[|dir| - 1];
      var r := PickerEntries(init) + (if IsListed(last) then [last] else []);
      assert dir == init + [last];
      r
  }

  /** A single entry is offered exactly when its name is listed. */
  lemma PickerEntriesOne(name: string)
    ensures PickerEntries([name]) == if IsListed(name) then [name] else []
  {
    assert [name][..0] == [];
  }

  /** The filter works entry by entry: the picker keeps the listing's
      order and offers each listed entry as often as it occurs, so a pick
      by index names the entry it was shown as. */
  lemma {:induction false} PickerEntriesAppend(a: seq<string>, b: seq<string>)
    ensures PickerEntries(a + b) == PickerEntries(a) + PickerEntries(b)
    decreases |b|
  {
    if b == [] {
      assert a + b == a;
    } else {
      var init := b[..|b| - 1];
      assert (a + b)[..|a + b| - 1] == a + init;
      PickerEntriesAppend(a, init);
    }
  }

  /** A `.` with no `.` after it is the last one. */
  lemma LastDotIs(name: string, i: nat)
    requires i < |name| && name[i] == '.' && '.' !in name[i + 1..]
    ensures LastDot(name) == Some(i)
  {
    assert name[i] in name;
  }

  /** A name made of a listed extension and something before it has that
      extension. */
  lemma {:induction false} ListedExtension(name: string, suffix: string)
    requires suffix == ".txt" || suffix == ".epub"
    requires EndsWith(name, suffix) && |name| > |suffix|
    ensures ExtName(name) == suffix
  {
    var i := |name| - |suffix|;
    assert name[i..] == suffix;
    assert name[i + 1..] == suffix[1..];
    LastDotIs(name, i);
  }

  /** `.txt` and `.epub` alone have no extension: their only `.` starts
      the name. */
  lemma DotNamesHaveNoExtension(name: string)
    requires name == ".txt" || name == ".epub"
    ensures ExtName(name) == ""
  {
    assert name[1..] == if name == ".txt" then "txt" else "epub";
    LastDotIs(name, 0);
  }

  /** A listed name that is more than its extension loads in the format
      the extension names, whatever the case of the letters before it. */
  lemma ListedFormat(name: string, suffix: string)
    requires suffix == ".txt" || suffix == ".epub"
    requires EndsWith(name, suffix) && |name| > |suffix|
    ensures KindOf(name) == Some(if suffix == ".txt" then Txt else Epub)
  {
    assert ExtName(name) == suffix by {
      ListedExtension(name, suffix);
    }
    assert LowerAscii(suffix) == suffix by {
      LowerExtensions();
    }
  }

  lemma LowerExtensions()
    ensures LowerAscii(".txt") == ".txt" && LowerAscii(".epub") == ".epub"
  {
  }

  /** Every book the picker lists is loaded as its extension says, except
      the names `.txt` and `.epub`: for those, `extname` is empty and
      nothing is loaded. */
  lemma {:induction false} ListedBooksLoad(name: string)
    requires IsListed(name)
    ensures KindOf(name).Some? <==> name != ".txt" && name != ".epub"
    ensures name != ".txt" && name != ".epub" ==>
      KindOf(name) == Some(if EndsWith(name, ".txt") then Txt else Epub)
  {
    if name == ".txt" || name == ".epub" {
      DotNamesHaveNoExtension(name);
      assert LowerAscii("") == "";
    } else if EndsWith(name, ".txt") {
      ListedFormat(name, ".txt");
    } else {
      ListedFormat(name, ".epub");
    }
  }

  /** The picker is case-sensitive but loading is not: `BOOK.TXT` is
      never offered, yet loads as text when opened another way. */
  lemma UpperCaseNotListed()
    ensures !IsListed("BOOK.TXT")
    ensures KindOf("BOOK.TXT") == Some(Txt)
  {
    var name := "BOOK.TXT";
    assert name[4..] == ".TXT";
    assert name[3..] != ".epub";
    assert name[5..] == "TXT";
    LastDotIs(name, 4);
    assert LowerAscii(".TXT") == ".txt";
  }

  // The status bar.

  /** `processedContent[currentPosition]` as string concatenation writes
      it: `undefined` past the end. */
  function ShownLine(chunks: seq<string>, position: nat): string {
    if position < |chunks| then chunks[position] else "undefined"
  }

  /** The status bar text for `chunks` at `position`, with or without the
      `[position+1/total] ` prefix; `None` when there are no chunks, in
      which case the bar keeps its text. */
  function StatusText(chunks: seq<string>, position: nat, showProgress: bool): (r: Option<string>)
    ensures r.None? <==> chunks == []
    ensures r.Some? && !showProgress ==> r.value == ShownLine(chunks, position)
    ensures r.Some? && showProgress ==> EndsWith(r.value, ShownLine(chunks, position))
  {
    if chunks == [] then None
    else
      var line := ShownLine(chunks, position);
      var prefix := "[" + NatToString(position + 1) + "/" + NatToString(|chunks|) + "] ";
      if showProgress then Some(prefix + line) else Some(line)
  }

  /** The bar's text once `updateStatusBar` has run: the status text, or
      the text it had `before` when there are no chunks. */
  function BarText(before: string, chunks: seq<string>, position: nat, showProgress: bool): string {
    match StatusText(chunks, position, showProgress)
    case Some(text) => text
    case None => before
  }

  /** The bar's tooltip once `updateStatusBar` has run: the chunk at the
      position, none (`""`) past the end where the chunk is `undefined`,
      and the tooltip it had `before` when there are no chunks. */
  function BarTooltip(before: string, chunks: seq<string>, position: nat): string {
    if chunks == [] then before
    else if position < |chunks| then chunks[position]
    else ""
  }

  /** The three parts of a status text with the progress prefix. */
  datatype StatusParts = StatusParts(shown: nat, total: nat, line: string)

  /** The length of the run of digits that starts `s`. */
  function DigitRun(s: string): (n: nat)
    ensures n <= |s| && AllDigits(s[..n])
    ensures n < |s| ==> !IsDigit(s[n])
  {
    if s == [] || !IsDigit(s[0]) then 0
    else
      var n := 1 + DigitRun(s[1..]);
      assert s[..n] == [s[0]] + s[1..][..n - 1];
      n
  }

  lemma {:induction false} DigitRunOf(digits: string, rest: string)
    requires AllDigits(digits)
    requires rest != [] && !IsDigit(rest[0])
    ensures DigitRun(digits + rest) == |digits|
  {
    if digits != [] {
      assert (digits + rest)[1..] == digits[1..] + rest;
      DigitRunOf(digits[1..], rest);
    } else {
      assert digits + rest == rest;
    }
  }

  /** Reads `[shown/total] line` back, as a reader of the status bar
      would. */
  function ParseStatus(t: string): Option<StatusParts> {
    if t == [] || t[0] != '[' then None else ParseShown(t[1..])
  }

  /** Reads `shown/total] line`, the part after the `[`. */
  function ParseShown(a: string): Option<StatusParts> {
    var i := DigitRun(a);
    if i == 0 || i == |a| || a[i] != '/' then None
    else
      match ParseTotal(a[i + 1..])
      case None => None
      case Some(rest) => Some(StatusParts(DigitsValue(a[..i]), rest.0, rest.1))
  }

  /** Reads `total] line`, the part after the `/`. */
  function ParseTotal(b: string): Option<(nat, string)> {
    var j := DigitRun(b);
    if j == 0 || j + 2 > |b| || b[j] != ']' || b[j + 1] != ' ' then None
    else Some((DigitsValue(b[..j]), b[j + 2..]))
  }

  /** The prefixed status text says which chunk is shown, one-based, out
      of how many, followed by the chunk itself. */
  lemma {:induction false} StatusTextReadsBack(chunks: seq<string>, position: nat)
    requires chunks != []
    ensures ParseStatus(StatusText(chunks, position, true).value)
         == Some(StatusParts(position + 1, |chunks|, ShownLine(chunks, position)))
  {
    var line := ShownLine(chunks, position);
    var shown, total := NatToString(position + 1), NatToString(|chunks|);
    assert StatusText(chunks, position, true).value == "[" + (shown + ("/" + (total + ("] " + line))));
    ParsePrefixed(shown, total, line);
    DigitsValueOfNatToString(position + 1);
    DigitsValueOfNatToString(|chunks|);
  }

  /** Any `[digits/digits] line` parses into its two numbers and its line. */
  lemma ParsePrefixed(shown: string, total: string, line: string)
    requires |shown| >= 1 && AllDigits(shown)
    requires |total| >= 1 && AllDigits(total)
    ensures ParseStatus("[" + (shown + ("/" + (total + ("] " + line)))))
         == Some(StatusParts(DigitsValue(shown), DigitsValue(total), line))
  {
    var a := shown + ("/" + (total + ("] " + line)));
    AfterPrefix("[", a);
    ParseShownOf(shown, total, line);
  }

  lemma ParseShownOf(shown: string, total: string, line: string)
    requires |shown| >= 1 && AllDigits(shown)
    requires |total| >= 1 && AllDigits(total)
    ensures ParseShown(shown + ("/" + (total + ("] " + line))))
         == Some(StatusParts(DigitsValue(shown), DigitsValue(total), line))
  {
    var b := total + ("] " + line);
    DigitRunOf(shown, "/" + b);
    AfterPrefix(shown, "/" + b);
    AfterPrefix("/", b);
    ParseTotalOf(total, line);
  }

  /** Any `digits] line` parses into its number and its line. */
  lemma ParseTotalOf(total: string, line: string)
    requires |total| >= 1 && AllDigits(total)
    ensures ParseTotal(total + ("] " + line)) == Some((DigitsValue(total), line))
  {
    var b := total + ("] " + line);
    var j := |total|;
    assert DigitRun(b) == j by {
      DigitRunOf(total, "] " + line);
    }
    assert b[j] == ']' && b[j + 1] == ' ' && b[..j] == total by {
      AfterPrefix(total, "] " + line);
    }
    assert b[j + 2..] == line by {
      AfterPrefix(total, "] " + line);
      AfterPrefix("] ", line);
    }
  }

  /** What follows a prefix, character by character. */
  lemma AfterPrefix(x: string, y: string)
    ensures (x + y)[..|x|] == x && (x + y)[|x|..] == y
    ensures y != [] ==> (x + y)[|x|] == y[0] && (x + y)[|x| + 1..] == y[1..]
  {
    if y != [] {
      assert (x + y)[|x| + 1..] == y[1..];
    }
  }

  // Loading.

  /** What `loadBookContent` makes of a file named `name` whose text is
      `fileText`, `None` when the file cannot be read, and whose chapter
      callbacks, in completion order, deliver `chapters`. For an EPUB only
      whether the file can be read matters; its text comes from the
      chapters. The result is `None` when nothing is loaded: the extension
      is neither `.txt` nor `.epub`, the file cannot be read (the read
      throws, or the EPUB never finishes parsing), or a chapter failed and
      the load never completes. */
  function Loaded(name: string, fileText: Option<string>, chapters: seq<ChapterResult>, lineLength: nat): Option<BookContent>
    requires lineLength > 0
  {
    match KindOf(name)
    case Some(Txt) =>
      if fileText.Some? then Some(MakeBook(SplitLines(fileText.value), Txt, lineLength)) else None
    case Some(Epub) =>
      if fileText.Some? && forall k :: 0 <= k < |chapters| ==> chapters[k].Text?
      then Some(MakeBook(CleanAll(chapters), Epub, lineLength))
      else None
    case None => None
  }

  /** A loaded book's chunks are its kept text cut to `lineLength`, its
      count is that text's length, and an EPUB book's lines hold no tag,
      no line feed and no blank line. */
  lemma {:induction false} LoadedBookShape(name: string, fileText: Option<string>, chapters: seq<ChapterResult>, lineLength: nat)
    requires lineLength > 0
    requires Loaded(name, fileText, chapters, lineLength).Some?
    ensures var book := Loaded(name, fileText, chapters, lineLength).value;
      && Concat(book.processedContent) == Joined(book.content)
      && WellShaped(book.processedContent, lineLength)
      && book.totalWords == |Concat(book.processedContent)|
      && (book.processedContent == [] <==> forall k :: 0 <= k < |book.content| ==> IsBlank(book.content[k]))
      && fileText.Some?
      && (book.format == Txt ==> book.content == SplitLines(fileText.value))
      && (book.format == Epub ==> forall k :: 0 <= k < |book.content| ==>
            NoTag(book.content[k]) && '\n' !in book.content[k] && !IsBlank(book.content[k]))
  {
    var book := Loaded(name, fileText, chapters, lineLength).value;
    ChunksConcat(Joined(book.content), lineLength);
    ChunksShape(Joined(book.content), lineLength);
    TotalWordsIsJoinedLength(book.content);
    NoChunksIffAllBlank(book.content, lineLength);
    if book.format == Epub {
      CleanAllLines(chapters);
    }
  }

  /** The session state of the extension: module-level variables of
      `src/extension.ts`, the status bar's text and tooltip, and the
      persisted configuration they read and write. */
  class Session {
    const config: Config
    var content: BookContent
    var currentPosition: nat
    var currentBook: string
    var statusText: string
    var tooltip: string  // "" when the bar has no tooltip

    constructor (config: Config)
      ensures this.config == config
      ensures content == EmptyBook && currentPosition == 0 && currentBook == ""
      ensures statusText == "" && tooltip == ""
    {
      this.config := config;
      content := EmptyBook;
      currentPosition := 0;
      currentBook := "";
      statusText := "";
      tooltip := "";
    }

    /** `updateStatusBar`: shows the current chunk, with the progress
        prefix when `showProgress` is set, and the chunk as tooltip, none
        past the end; with no chunks, the bar keeps what it showed. */
    method UpdateStatusBar(showProgress: bool)
      modifies this
      ensures content == old(content) && currentPosition == old(currentPosition) && currentBook == old(currentBook)
      ensures var text := StatusText(content.processedContent, currentPosition, showProgress);
        if text.Some? then
          && statusText == text.value
          && tooltip == (if currentPosition < |content.processedContent|
                         then content.processedContent[currentPosition] else "")
        else statusText == old(statusText) && tooltip == old(tooltip)
      ensures statusText == BarText(old(statusText), content.processedContent, currentPosition, showProgress)
      ensures tooltip == BarTooltip(old(tooltip), content.processedContent, currentPosition)
    {
      var chunks := content.processedContent;
      var text := StatusText(chunks, currentPosition, showProgress);
      if text.Some? {
        statusText := text.value;
        tooltip := if currentPosition < |chunks| then chunks[currentPosition] else "";
      }
    }

    /** `saveProgress`: records the position and the time for the current
        book; every other entry stays. */
    method SaveProgress(now: int)
      modifies config
      ensures config.readingProgress == old(config.readingProgress)[currentBook := currentPosition]
      ensures config.lastReadTime == old(config.lastReadTime)[currentBook := now]
      ensures config.dailyReadingStats == old(config.dailyReadingStats)
      ensures config.currentBook == old(config.currentBook)
    {
      var progress: map<string, nat> := config.readingProgress;
      var lastRead: map<string, int> := config.lastReadTime;
      progress := progress[currentBook := currentPosition];
      lastRead := lastRead[currentBook := now];
      config.readingProgress := progress;
      config.lastReadTime := lastRead;
    }

    /** `nextLine`: below the last chunk, moves one chunk on, shows it,
        saves the progress and adds the length of the chunk now shown to
        the bucket of `today`; at the last chunk, or past it, or with no
        chunks, changes nothing. */
    method NextLine(today: string, now: int, showProgress: bool)
      modifies this, config
      ensures content == old(content) && currentBook == old(currentBook)
      ensures config.currentBook == old(config.currentBook)
      ensures old(currentPosition) + 1 < |content.processedContent| ==>
        && currentPosition == old(currentPosition) + 1
        && config.readingProgress == old(config.readingProgress)[currentBook := currentPosition]
        && config.lastReadTime == old(config.lastReadTime)[currentBook := now]
        && config.dailyReadingStats == old(config.dailyReadingStats)[today :=
             Bucket(old(config.dailyReadingStats), today) + |content.processedContent[currentPosition]|]
        && Some(statusText) == StatusText(content.processedContent, currentPosition, showProgress)
        && tooltip == content.processedContent[currentPosition]
      ensures old(currentPosition) + 1 >= |content.processedContent| ==>
        && currentPosition == old(currentPosition)
        && config.readingProgress == old(config.readingProgress)
        && config.lastReadTime == old(config.lastReadTime)
        && config.dailyReadingStats == old(config.dailyReadingStats)
        && statusText == old(statusText) && tooltip == old(tooltip)
    {
      if currentPosition < |content.processedContent| - 1 {
        currentPosition := currentPosition + 1;
        UpdateStatusBar(showProgress);
        SaveProgress(now);

        var stats := config.dailyReadingStats;
        var currentLineWords := |content.processedContent[currentPosition]|;
        stats := stats[today := Bucket(stats, today) + currentLineWords];
        config.dailyReadingStats := stats;
      }
    }

    /** `prevLine`: above the first chunk, moves one chunk back, shows it
        and saves the progress; never touches the statistics. */
    method PrevLine(now: int, showProgress: bool)
      modifies this, config
      ensures content == old(content) && currentBook == old(currentBook)
      ensures config.dailyReadingStats == old(config.dailyReadingStats)
      ensures config.currentBook == old(config.currentBook)
      ensures old(currentPosition) > 0 ==>
        && currentPosition == old(currentPosition) - 1
        && config.readingProgress == old(config.readingProgress)[currentBook := currentPosition]
        && config.lastReadTime == old(config.lastReadTime)[currentBook := now]
        && statusText == BarText(old(statusText), content.processedContent, currentPosition, showProgress)
        && tooltip == BarTooltip(old(tooltip), content.processedContent, currentPosition)
      ensures old(currentPosition) == 0 ==>
        && currentPosition == 0
        && config.readingProgress == old(config.readingProgress)
        && config.lastReadTime == old(config.lastReadTime)
        && statusText == old(statusText) && tooltip == old(tooltip)
    {
      if currentPosition > 0 {
        currentPosition := currentPosition - 1;
        UpdateStatusBar(showProgress);
        SaveProgress(now);
      }
    }

    /** `loadBookContent`: reads the file as its extension says, builds
        the record, and puts the position back where the stored progress
        of the current book says, unchecked against the new chunks. When
        nothing loads, an unreadable file included, nothing changes. */
    method LoadBookContent(name: string, fileText: Option<string>, chapters: seq<ChapterResult>,
                           lineLength: nat, showProgress: bool)
      requires lineLength > 0
      modifies this
      ensures currentBook == old(currentBook)
      ensures var loaded := Loaded(name, fileText, chapters, lineLength);
        if loaded.Some? then
          && content == loaded.value
          && currentPosition == GetProgress(config.readingProgress, currentBook)
          && statusText == BarText(old(statusText), content.processedContent, currentPosition, showProgress)
          && tooltip == BarTooltip(old(tooltip), content.processedContent, currentPosition)
        else
          && content == old(content) && currentPosition == old(currentPosition)
          && statusText == old(statusText) && tooltip == old(tooltip)
    {
      var kind := KindOf(name);
      if kind == Some(Txt) {
        if fileText.None? {
          return;
        }
        var rawContent := SplitLines(fileText.value);
        var processedContent, totalWords := ProcessContent(rawContent, lineLength);
        content := BookContent(rawContent, Txt, totalWords, processedContent);
        currentPosition := GetProgress(config.readingProgress, currentBook);
        UpdateStatusBar(showProgress);
      } else if kind == Some(Epub) {
        if fileText.None? {
          return;
        }
        var allContent := CollectChapters(chapters);
        if allContent.Some? {
          var processedContent, totalWords := ProcessContent(allContent.value, lineLength);
          content := BookContent(allContent.value, Epub, totalWords, processedContent);
          currentPosition := GetProgress(config.readingProgress, currentBook);
          UpdateStatusBar(showProgress);
        }
      }
    }

    /** `selectBook`: with a book directory set and an entry picked, empties
        the session, makes the pick the current book both here and in the
        stored configuration, and loads it. */
    method SelectBook(bookPath: string, dir: seq<string>, choice: Option<nat>,
                      fileText: Option<string>, chapters: seq<ChapterResult>, lineLength: nat, showProgress: bool)
      requires lineLength > 0
      requires choice.Some? ==> choice.value < |PickerEntries(dir)|
      modifies this, config
      ensures config.readingProgress == old(config.readingProgress)
      ensures config.lastReadTime == old(config.lastReadTime)
      ensures config.dailyReadingStats == old(config.dailyReadingStats)
      ensures bookPath == "" || choice.None? ==>
        && content == old(content) && currentPosition == old(currentPosition)
        && currentBook == old(currentBook) && config.currentBook == old(config.currentBook)
        && statusText == old(statusText) && tooltip == old(tooltip)
      ensures bookPath != "" && choice.Some? ==>
        var selected := PickerEntries(dir)[choice.value];
        var loaded := Loaded(selected, fileText, chapters, lineLength);
        && IsListed(selected)
        && currentBook == selected && config.currentBook == selected
        && content == (if loaded.Some? then loaded.value else EmptyBook)
        && currentPosition == (if loaded.Some? then GetProgress(config.readingProgress, selected) else 0)
        && statusText == BarText(old(statusText), content.processedContent, currentPosition, showProgress)
        && tooltip == BarTooltip(old(tooltip), content.processedContent, currentPosition)
    {
      if bookPath == "" {
        return;
      }
      var files := PickerEntries(dir);
      if choice.None? {
        return;
      }
      var selected := files[choice.value];
      content := EmptyBook;
      currentPosition := 0;
      currentBook := selected;
      config.currentBook := selected;
      LoadBookContent(selected, fileText, chapters, lineLength, showProgress);
    }

    /** `loadBook`: a file opened from the dialog becomes the current book
        of the session, but not of the stored configuration, and is loaded
        over whatever was shown. */
    method LoadBook(file: Option<string>, fileText: Option<string>, chapters: seq<ChapterResult>,
                    lineLength: nat, showProgress: bool)
      requires lineLength > 0
      modifies this
      ensures file.None? ==>
        && content == old(content) && currentBook == old(currentBook) && currentPosition == old(currentPosition)
        && statusText == old(statusText) && tooltip == old(tooltip)
      ensures file.Some? ==>
        var loaded := Loaded(file.value, fileText, chapters, lineLength);
        && currentBook == file.value
        && (loaded.Some? ==>
              && content == loaded.value && currentPosition == GetProgress(config.readingProgress, file.value)
              && statusText == BarText(old(statusText), content.processedContent, currentPosition, showProgress)
              && tooltip == BarTooltip(old(tooltip), content.processedContent, currentPosition))
        && (loaded.None? ==>
              && content == old(content) && currentPosition == old(currentPosition)
              && statusText == old(statusText) && tooltip == old(tooltip))
    {
      if file.Some? {
        currentBook := file.value;
        LoadBookContent(file.value, fileText, chapters, lineLength, showProgress);
      }
    }

    /** `reloadContent`: loads the session's current book again, if any. */
    method ReloadContent(fileText: Option<string>, chapters: seq<ChapterResult>, lineLength: nat, showProgress: bool)
      requires lineLength > 0
      modifies this
      ensures currentBook == old(currentBook)
      ensures var loaded := Loaded(currentBook, fileText, chapters, lineLength);
        if currentBook != "" && loaded.Some? then
          && content == loaded.value && currentPosition == GetProgress(config.readingProgress, currentBook)
          && statusText == BarText(old(statusText), content.processedContent, currentPosition, showProgress)
          && tooltip == BarTooltip(old(tooltip), content.processedContent, currentPosition)
        else
          && content == old(content) && currentPosition == old(currentPosition)
          && statusText == old(statusText) && tooltip == old(tooltip)
    {
      if currentBook != "" {
        LoadBookContent(currentBook, fileText, chapters, lineLength, showProgress);
      }
    }

    /** `loadLastProgress`: at start-up, reopens the book stored as current
        when a book directory is set and the file exists there. */
    method LoadLastProgress(bookPath: string, fileExists: bool, fileText: Option<string>, chapters: seq<ChapterResult>,
                            lineLength: nat, showProgress: bool)
      requires lineLength > 0
      modifies this
      ensures var lastBook := config.currentBook;
        var loaded := Loaded(lastBook, fileText, chapters, lineLength);
        if lastBook != "" && bookPath != "" && fileExists then
          && currentBook == lastBook
          && (loaded.Some? ==>
                && content == loaded.value && currentPosition == GetProgress(config.readingProgress, lastBook)
                && statusText == BarText(old(statusText), content.processedContent, currentPosition, showProgress)
                && tooltip == BarTooltip(old(tooltip), content.processedContent, currentPosition))
          && (loaded.None? ==>
                && content == old(content) && currentPosition == old(currentPosition)
                && statusText == old(statusText) && tooltip == old(tooltip))
        else
          && content == old(content) && currentPosition == old(currentPosition) && currentBook == old(currentBook)
          && statusText == old(statusText) && tooltip == old(tooltip)
    {
      var lastBook := config.currentBook;
      if lastBook != "" && bookPath != "" && fileExists {
        currentBook := lastBook;
        LoadBookContent(lastBook, fileText, chapters, lineLength, showProgress);
      }
    }

    /** `deactivate`: saves the progress of the current book, if any. */
    method Deactivate(now: int)
      modifies config
      ensures currentBook != "" ==>
        && config.readingProgress == old(config.readingProgress)[currentBook := currentPosition]
        && config.lastReadTime == old(config.lastReadTime)[currentBook := now]
      ensures currentBook == "" ==>
        && config.readingProgress == old(config.readingProgress)
        && config.lastReadTime == old(config.lastReadTime)
      ensures config.dailyReadingStats == old(config.dailyReadingStats)
      ensures config.currentBook == old(config.currentBook)
    {
      if currentBook != "" {
        SaveProgress(now);
      }
    }

    /** The management page's `removeBook` followed, when it asks for one,
        by the `reloadContent` command. The reload uses the session's
        current book, which the removal does not clear: when that is the
        removed book and it loads, it is shown again from its first chunk,
        its progress being gone. */
    method RemoveBookAndReload(bookName: string, fileText: Option<string>, chapters: seq<ChapterResult>,
                               lineLength: nat, showProgress: bool)
      returns (outcome: BookManager.RemoveOutcome)
      requires lineLength > 0
      modifies this, config
      ensures currentBook == old(currentBook)
      ensures config.dailyReadingStats == old(config.dailyReadingStats)
      ensures !BookManager.HasRecord(old(config.readingProgress), bookName) ==>
        && outcome == BookManager.NotFound
        && config.readingProgress == old(config.readingProgress)
        && config.lastReadTime == old(config.lastReadTime)
        && config.currentBook == old(config.currentBook)
      ensures BookManager.HasRecord(old(config.readingProgress), bookName) ==>
        && outcome == BookManager.Removed(bookName == old(config.currentBook))
        && config.readingProgress == old(config.readingProgress) - {bookName}
        && config.lastReadTime == old(config.lastReadTime) - {bookName}
        && config.currentBook == (if bookName == old(config.currentBook) then "" else old(config.currentBook))
      ensures var loaded := Loaded(currentBook, fileText, chapters, lineLength);
        if outcome == BookManager.Removed(true) && currentBook != "" && loaded.Some? then
          && content == loaded.value
          && currentPosition == GetProgress(config.readingProgress, currentBook)
          && statusText == BarText(old(statusText), content.processedContent, currentPosition, showProgress)
          && tooltip == BarTooltip(old(tooltip), content.processedContent, currentPosition)
        else
          && content == old(content) && currentPosition == old(currentPosition)
          && statusText == old(statusText) && tooltip == old(tooltip)
      ensures outcome == BookManager.Removed(true) && currentBook == bookName
              && Loaded(bookName, fileText, chapters, lineLength).Some? ==>
        && content == Loaded(bookName, fileText, chapters, lineLength).value && currentPosition == 0
        && statusText == BarText(old(statusText), content.processedContent, 0, showProgress)
    {
      outcome := BookManager.RemoveBook(config, bookName);
      if outcome == BookManager.Removed(true) {
        ReloadContent(fileText, chapters, lineLength, showProgress);
      }
    }
  }

  /** After a successful `nextLine`, the management page's counts for that
      day and for all time both grow by the length of the chunk now shown. */
  lemma {:induction false} NextLineCounted(keys: seq<string>, stats: map<string, nat>, today: string,
                                           yesterday: string, chunks: seq<string>, position: nat)
    requires BookManager.Enumerates(keys, stats)
    requires position + 1 < |chunks|
    ensures var stats' := stats[today := Bucket(stats, today) + |chunks[position + 1]|];
      var keys' := if today in stats then keys else keys + [today];
      && BookManager.Enumerates(keys', stats')
      && BookManager.Summary(keys', stats', today, yesterday).today
           == BookManager.Summary(keys, stats, today, yesterday).today + |chunks[position + 1]|
      && BookManager.Summary(keys', stats', today, yesterday).total
           == BookManager.Summary(keys, stats, today, yesterday).total + |chunks[position + 1]|
  {
    BookManager.SummaryAfterReading(keys, stats, today, |chunks[position + 1]|, yesterday);
  }
}
