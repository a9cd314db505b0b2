/**
  The content normaliser of the reader (`processContent`): raw lines are
  trimmed, blank ones skipped, the rest run together with no separator and
  cut into chunks of `lineLength` characters, the last chunk possibly
  shorter. It also counts the characters of the kept lines (`totalWords`).
 */
module Content {
  import opened Strings

  /** The trimmed lines that are not blank, in input order. */
  function TrimmedNonBlank(lines: seq<string>): (r: seq<string>)
    ensures |r| <= |lines|
    ensures forall k :: 0 <= k < |r| ==> r[k] != []
  {
    if lines == [] then []
    else
      var t := Trim(lines[|lines| - 1]);
      TrimmedNonBlank(lines[..|lines| - 1]) + (if t == [] then [] else [t])
  }

  /** The text a reader sees, chunk boundaries aside: the kept lines run
      together with no separator. */
  function Joined(lines: seq<string>): string {
    Concat(TrimmedNonBlank(lines))
  }

  /** The word count the reader reports: the lengths of the kept lines,
      added one line at a time. */
  function TotalWords(lines: seq<string>): nat {
    SumLengths(TrimmedNonBlank(lines))
  }

  /** Cuts `s` into pieces of `width` characters from the front, the
      remainder (if any) becoming a last, shorter piece. */
  function Chunks(s: string, width: nat): seq<string>
    requires width > 0
    decreases |s|
  {
    if |s| >= width then [s[..width]] + Chunks(s[width..], width)
    else if s == [] then []
    else [s]
  }

  /** Every chunk but the last is exactly `width` long; the last holds
      between 1 and `width` characters. */
  predicate WellShaped(chunks: seq<string>, width: nat) {
    && (forall k :: 0 <= k < |chunks| - 1 ==> |chunks[k]| == width)
    && (chunks != [] ==> 1 <= |chunks[|chunks| - 1]| <= width)
  }

  /** Chunking loses and duplicates nothing: the chunks concatenated give
      back the text. */
  lemma {:induction false} ChunksConcat(s: string, width: nat)
    requires width > 0
    ensures Concat(Chunks(s, width)) == s
    decreases |s|
  {
    if |s| >= width {
      ChunksConcat(s[width..], width);
      ConcatPrepend(s[..width], Chunks(s[width..], width));
      assert s == s[..width] + s[width..];
    }
  }

  /** The chunks have the fixed-width shape, and there are none exactly
      when the text is empty. */
  lemma {:induction false} ChunksShape(s: string, width: nat)
    requires width > 0
    ensures WellShaped(Chunks(s, width), width)
    ensures Chunks(s, width) == [] <==> s == []
    decreases |s|
  {
    if |s| >= width {
      ChunksShape(s[width..], width);
    }
  }

  /** The fixed-width segmentation is unique: any well-shaped list of
      chunks is what `Chunks` makes of its own concatenation. */
  lemma {:induction false} ChunksUnique(chunks: seq<string>, width: nat)
    requires width > 0
    requires WellShaped(chunks, width)
    ensures Chunks(Concat(chunks), width) == chunks
  {
    if |chunks| == 1 {
      assert Concat(chunks) == chunks[0];
      if |chunks[0]| == width {
        assert chunks[0][..width] == chunks[0];
        assert Chunks(chunks[0][width..], width) == [];
      }
    } else if |chunks| > 1 {
      var rest := chunks[1..];
      assert WellShaped(rest, width);
      ChunksUnique(rest, width);
      var s := Concat(chunks);
      assert chunks == [chunks[0]] + rest;
      ConcatPrepend(chunks[0], rest);
      assert s == chunks[0] + Concat(rest);
      assert s[..width] == chunks[0];
      assert s[width..] == Concat(rest);
    }
  }

  /** `processContent`: the loop of the source, with its growing buffer.
      Its result is the fixed-width chunking of the kept lines run
      together, and its count is the length of the kept lines, whatever
      `lineLength` is. */
  method ProcessContent(rawContent: seq<string>, lineLength: nat)
    returns (processedContent: seq<string>, totalWords: nat)
    requires lineLength > 0
    ensures processedContent == Chunks(Joined(rawContent), lineLength)
    ensures Concat(processedContent) == Joined(rawContent)
    ensures WellShaped(processedContent, lineLength)
    ensures totalWords == TotalWords(rawContent)
  {
    processedContent := [];
    totalWords := 0;
    var buffer := "";
    for i := 0 to |rawContent|
      invariant Concat(processedContent) + buffer == Joined(rawContent[..i])
      invariant AllFull(processedContent, lineLength)
      invariant |buffer| < lineLength
      invariant totalWords == TotalWords(rawContent[..i])
    {
      var trimmedLine := Trim(rawContent[i]);
      KeptStep(rawContent, i);
      if trimmedLine == [] {
        continue;
      }
      totalWords := totalWords + |trimmedLine|;
      AppendAssoc(Concat(processedContent), buffer, trimmedLine);
      processedContent, buffer := CutFullChunks(processedContent, buffer + trimmedLine, lineLength);
    }
    assert rawContent[..|rawContent|] == rawContent;

    ghost var full := processedContent;
    if |buffer| > 0 {
      processedContent := processedContent + [buffer];
    }
    FlushRemainder(full, buffer, lineLength);
    ChunksShape(Joined(rawContent), lineLength);
  }

  /** After the last line, the full chunks plus the non-empty rest of the
      buffer are exactly the fixed-width chunking of their text. */
  lemma {:induction false} FlushRemainder(full: seq<string>, buffer: string, width: nat)
    requires width > 0
    requires AllFull(full, width)
    requires |buffer| < width
    ensures var chunks := if |buffer| > 0 then full + [buffer] else full;
      && Concat(chunks) == Concat(full) + buffer
      && chunks == Chunks(Concat(full) + buffer, width)
  {
    var chunks := if |buffer| > 0 then full + [buffer] else full;
    if |buffer| > 0 {
      ConcatAppend(full, buffer);
    } else {
      assert Concat(full) + buffer == Concat(full);
    }
    assert WellShaped(chunks, width);
    ChunksUnique(chunks, width);
  }

  /** The inner loop of `processContent`: while the buffer holds at least
      `lineLength` characters, its first `lineLength` become a new chunk.
      Chunks-then-buffer still spell the same text, every new chunk is
      full, and the buffer is left shorter than a chunk. */
  method CutFullChunks(chunks: seq<string>, buffer: string, lineLength: nat)
    returns (chunks': seq<string>, buffer': string)
    requires lineLength > 0
    requires AllFull(chunks, lineLength)
    ensures Concat(chunks') + buffer' == Concat(chunks) + buffer
    ensures AllFull(chunks', lineLength)
    ensures |buffer'| < lineLength
  {
    chunks', buffer' := chunks, buffer;
    while |buffer'| >= lineLength
      invariant Concat(chunks') + buffer' == Concat(chunks) + buffer
      invariant AllFull(chunks', lineLength)
      decreases |buffer'|
    {
      CutStep(chunks', buffer', lineLength);
      chunks' := chunks' + [buffer'[..lineLength]];
      buffer' := buffer'[lineLength..];
    }
  }

  /** Every chunk holds exactly `width` characters. */
  predicate AllFull(chunks: seq<string>, width: nat) {
    forall k :: 0 <= k < |chunks| ==> |chunks[k]| == width
  }

  /** Moving the first `width` characters of the buffer onto the chunk
      list keeps the chunks-then-buffer text the same. */
  lemma {:induction false} CutStep(chunks: seq<string>, buffer: string, width: nat)
    requires width <= |buffer|
    ensures Concat(chunks + [buffer[..width]]) + buffer[width..] == Concat(chunks) + buffer
  {
    ConcatAppend(chunks, buffer[..width]);
    assert buffer == buffer[..width] + buffer[width..];
  }

  /** Taking one more raw line into account adds its trim to the kept
      text and its trimmed length to the count, unless it is blank. */
  lemma {:induction false} KeptStep(lines: seq<string>, i: nat)
    requires i < |lines|
    ensures var t := Trim(lines[i]);
      && Joined(lines[..i + 1]) == Joined(lines[..i]) + t
      && TotalWords(lines[..i + 1]) == TotalWords(lines[..i]) + |t|
  {
    var t := Trim(lines[i]);
    var kept := TrimmedNonBlank(lines[..i]);
    assert lines[..i + 1][..i] == lines[..i];
    assert TrimmedNonBlank(lines[..i + 1]) == kept + (if t == [] then [] else [t]);
    if t != [] {
      assert (kept + [t])[..|kept|] == kept;
      ConcatAppend(kept, t);
    } else {
      assert kept + [] == kept;
    }
  }

  /** No chunk at all exactly when every raw line is blank. */
  lemma {:induction false} NoChunksIffAllBlank(rawContent: seq<string>, lineLength: nat)
    requires lineLength > 0
    ensures Chunks(Joined(rawContent), lineLength) == []
        <==> forall k :: 0 <= k < |rawContent| ==> IsBlank(rawContent[k])
  {
    ChunksShape(Joined(rawContent), lineLength);
    KeptEmptyIffAllBlank(rawContent);
    var kept := TrimmedNonBlank(rawContent);
    SumLengthsIsConcatLength(kept);
  }

  lemma {:induction false} KeptEmptyIffAllBlank(lines: seq<string>)
    ensures TrimmedNonBlank(lines) == []
        <==> forall k :: 0 <= k < |lines| ==> IsBlank(lines[k])
  {
    if lines != [] {
      var init := lines[..|lines| - 1];
      var last := lines[|lines| - 1];
      KeptEmptyIffAllBlank(init);
      BlankIffTrimEmpty(last);
      KeptEmptySnoc(lines);
      AllBlankSnoc(lines, init);
    }
  }

  lemma KeptEmptySnoc(lines: seq<string>)
    requires lines != []
    ensures TrimmedNonBlank(lines) == []
        <==> TrimmedNonBlank(lines[..|lines| - 1]) == [] && Trim(lines[|lines| - 1]) == []
  {
  }

  lemma AllBlankSnoc(lines: seq<string>, init: seq<string>)
    requires lines != [] && init == lines[..|lines| - 1]
    ensures (forall k :: 0 <= k < |lines| ==> IsBlank(lines[k]))
        <==> ((forall k :: 0 <= k < |init| ==> IsBlank(init[k])) && IsBlank(lines[|lines| - 1]))
  {
    assert forall k :: 0 <= k < |init| ==> init[k] == lines[k];
  }

  /** The word count is the length of the joined text, so it does not
      depend on how the text is chunked. */
  lemma {:induction false} TotalWordsIsJoinedLength(rawContent: seq<string>)
    ensures TotalWords(rawContent) == |Joined(rawContent)|
  {
    SumLengthsIsConcatLength(TrimmedNonBlank(rawContent));
  }
}
