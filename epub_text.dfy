/**
  The EPUB branch of `loadBookContent`: each chapter's markup is stripped
  with `text.replace(/<[^>]*>/g, '')`, the result is split on line feeds,
  blank lines are dropped, and the surviving lines of every chapter are
  appended to `allContent` as each chapter's callback completes.
  Parsing the container and extracting the chapters belong to the `epub`
  library; here a chapter is what its extraction callback delivered.
 */
module EpubText {
  import opened Strings
  import opened Wrappers

  /** What `getChapter` handed to its callback: the chapter's text, or an
      error. */
  datatype ChapterResult = Text(text: string) | Error

  /** No `<` is followed, anywhere later, by a `>`: nothing in `s` matches
      the pattern `<[^>]*>`. */
  predicate NoTag(s: string) {
    s == [] || ((s[0] == '<' ==> '>' !in s) && NoTag(s[1..]))
  }

  /** The position of the first `>`. */
  function IndexOfClose(s: string): (k: nat)
    requires '>' in s
    ensures k < |s| && s[k] == '>' && '>' !in s[..k]
  {
    if s[0] == '>' then 0
    else
      var k := 1 + IndexOfClose(s[1..]);
      assert s[..k] == [s[0]] + s[1..][..k - 1];
      k
  }

  /** `s.replace(/<[^>]*>/g, '')`, scanning from the left: a `<` with a
      `>` somewhere after it starts a match that ends at the first such
      `>`, and the whole match is dropped; any other character, including a
      `<` with no `>` after it, is kept. */
  function StripTags(s: string): (r: string)
    ensures |r| <= |s|
    decreases |s|
  {
    if s == [] then []
    else if s[0] == '<' && '>' in s then StripTags(s[IndexOfClose(s) + 1..])
    else [s[0]] + StripTags(s[1..])
  }

  /** Stripping adds no character that was not in the text. */
  lemma {:induction false} StripTagsKeepsChars(s: string)
    ensures forall c :: c in StripTags(s) ==> c in s
    decreases |s|
  {
    if s == [] {
    } else if s[0] == '<' && '>' in s {
      var rest := s[IndexOfClose(s) + 1..];
      StripTagsKeepsChars(rest);
      assert forall c :: c in rest ==> c in s;
    } else {
      StripTagsKeepsChars(s[1..]);
      assert forall c :: c in s[1..] ==> c in s;
    }
  }

  /** After stripping, no complete tag is left. */
  lemma {:induction false} StripTagsLeavesNoTag(s: string)
    ensures NoTag(StripTags(s))
    decreases |s|
  {
    if s == [] {
    } else if s[0] == '<' && '>' in s {
      StripTagsLeavesNoTag(s[IndexOfClose(s) + 1..]);
    } else {
      var rest := StripTags(s[1..]);
      StripTagsLeavesNoTag(s[1..]);
      var r := [s[0]] + rest;
      assert r[1..] == rest;
      if s[0] == '<' {
        assert '>' !in s[1..];
        StripTagsKeepsChars(s[1..]);
      }
    }
  }

  /** Text that holds no tag is left as it is. */
  lemma {:induction false} StripTagsKeepsTagFree(s: string)
    requires NoTag(s)
    ensures StripTags(s) == s
    decreases |s|
  {
    if s != [] {
      StripTagsKeepsTagFree(s[1..]);
    }
  }

  /** Stripping twice is stripping once. */
  lemma StripTagsIdempotent(s: string)
    ensures StripTags(StripTags(s)) == StripTags(s)
  {
    StripTagsLeavesNoTag(s);
    StripTagsKeepsTagFree(StripTags(s));
  }

  /** A character other than `<` is kept and the rest is stripped. */
  lemma StripTagsPlainHead(s: string)
    requires s != [] && s[0] != '<'
    ensures StripTags(s) == [s[0]] + StripTags(s[1..])
  {
  }

  /** Text before the first `<` survives stripping unchanged. */
  lemma {:induction false} StripTagsKeepsPlainPrefix(a: string, b: string)
    requires '<' !in a
    ensures StripTags(a + b) == a + StripTags(b)
    decreases |a|
  {
    if a == [] {
      assert a + b == b;
    } else {
      var rest := a[1..];
      assert '<' !in rest by {
        assert forall c :: c in rest ==> c in a;
      }
      assert StripTags(a + b) == [a[0]] + StripTags(rest + b) by {
        assert (a + b)[1..] == rest + b;
        StripTagsPlainHead(a + b);
      }
      assert StripTags(rest + b) == rest + StripTags(b) by {
        StripTagsKeepsPlainPrefix(rest, b);
      }
      assert a == [a[0]] + rest;
    }
  }

  /** A tag, from its `<` to the first `>`, is dropped whole and the
      text after it is stripped on its own: `a<b>c<d>e` gives `ace`. */
  lemma StripTagsDropsTag(t: string, b: string)
    requires '>' !in t
    ensures StripTags("<" + t + ">" + b) == StripTags(b)
  {
    var s := "<" + t + ">" + b;
    var n := |t| + 1;
    assert s[n] == '>';
    assert s[..n] == "<" + t;
    var k := IndexOfClose(s);
    assert k == n;
    assert s[n + 1..] == b;
  }

  /** `lines.filter(line => line.trim())`: the lines that are not blank,
      in order. */
  function NonBlankLines(lines: seq<string>): seq<string> {
    if lines == [] then []
    else
      var last := lines[|lines| - 1];
      NonBlankLines(lines[..|lines| - 1]) + (if IsBlank(last) then [] else [last])
  }

  /** The filter keeps exactly the lines of `lines` that are not blank. */
  lemma {:induction false} NonBlankLinesMembers(lines: seq<string>)
    ensures forall k :: 0 <= k < |NonBlankLines(lines)| ==>
      !IsBlank(NonBlankLines(lines)[k]) && NonBlankLines(lines)[k] in lines
    ensures forall l :: l in lines && !IsBlank(l) ==> l in NonBlankLines(lines)
  {
    if lines != [] {
      var init := lines[..|lines| - 1];
      var last := lines[|lines| - 1];
      NonBlankLinesMembers(init);
      assert lines == init + [last];
    }
  }

  /** A single line is kept exactly when it is not blank. */
  lemma NonBlankLinesOne(line: string)
    ensures NonBlankLines([line]) == if IsBlank(line) then [] else [line]
  {
    assert [line][..0] == [];
  }

  /** The filter works line by line: two runs of lines are filtered one
      after the other, so every non-blank line is kept, as often as it
      occurs and in its place. */
  lemma {:induction false} NonBlankLinesAppend(a: seq<string>, b: seq<string>)
    ensures NonBlankLines(a + b) == NonBlankLines(a) + NonBlankLines(b)
    decreases |b|
  {
    if b == [] {
      assert a + b == a;
    } else {
      var init := b[..|b| - 1];
      assert (a + b)[..|a + b| - 1] == a + init;
      NonBlankLinesAppend(a, init);
    }
  }

  /** One chapter's contribution to `allContent`. */
  function CleanChapter(text: string): seq<string> {
    NonBlankLines(SplitLines(StripTags(text)))
  }

  lemma {:induction false} NoTagSplit(a: string, b: string)
    requires NoTag(a + b)
    ensures NoTag(a) && NoTag(b)
    decreases |a|
  {
    if a == [] {
      assert a + b == b;
    } else {
      assert (a + b)[1..] == a[1..] + b;
      NoTagSplit(a[1..], b);
      if a[0] == '<' {
        assert forall c :: c in a ==> c in a + b;
      }
    }
  }

  /** The pieces of a tag-free text hold no tag either. */
  lemma {:induction false} NoTagPieces(parts: seq<string>)
    requires NoTag(JoinLines(parts))
    ensures forall k :: 0 <= k < |parts| ==> NoTag(parts[k])
  {
    if |parts| > 1 {
      var rest := JoinLines(parts[1..]);
      assert JoinLines(parts) == parts[0] + ("\n" + rest);
      NoTagSplit(parts[0], "\n" + rest);
      NoTagSplit("\n", rest);
      NoTagPieces(parts[1..]);
      forall k | 1 <= k < |parts| ensures NoTag(parts[k]) {
        assert parts[k] == parts[1..][k - 1];
      }
    }
  }

  /** Every line a chapter contributes is free of tags and line feeds and
      is not blank. */
  lemma CleanChapterLines(text: string)
    ensures forall k :: 0 <= k < |CleanChapter(text)| ==>
      var line := CleanChapter(text)[k];
      NoTag(line) && '\n' !in line && !IsBlank(line)
  {
    var stripped := StripTags(text);
    var pieces := SplitLines(stripped);
    StripTagsLeavesNoTag(text);
    JoinSplitLines(stripped);
    NoTagPieces(pieces);
    NonBlankLinesMembers(pieces);
    forall k | 0 <= k < |CleanChapter(text)|
      ensures NoTag(CleanChapter(text)[k]) && '\n' !in CleanChapter(text)[k]
    {
      var line := CleanChapter(text)[k];
      var m :| 0 <= m < |pieces| && pieces[m] == line;
    }
  }

  /** The lines one chapter's callback appends: none for an error. */
  function ChapterLines(chapter: ChapterResult): seq<string> {
    match chapter
    case Text(text) => CleanChapter(text)
    case Error => []
  }

  /** Each chapter's block of lines, in the order the chapters are given. */
  function Blocks(chapters: seq<ChapterResult>): (r: seq<seq<string>>)
    ensures |r| == |chapters|
  {
    seq(|chapters|, k requires 0 <= k < |chapters| => ChapterLines(chapters[k]))
  }

  /** `allContent` after the callbacks of `chapters` ran, in that order:
      each chapter's lines appended to the lines so far. */
  function CleanAll(chapters: seq<ChapterResult>): seq<string> {
    Concat(Blocks(chapters))
  }

  lemma BlocksAppend(a: seq<ChapterResult>, b: seq<ChapterResult>)
    ensures Blocks(a + b) == Blocks(a) + Blocks(b)
  {
  }

  /** The `Promise.all` over the chapter callbacks, taken in the order they
      completed. Each successful callback appends its lines to
      `allContent`; a failed one rejects the join, so the load never
      resolves and no content comes out. */
  method CollectChapters(chapters: seq<ChapterResult>) returns (allContent: Option<seq<string>>)
    ensures allContent.Some? <==> forall k :: 0 <= k < |chapters| ==> chapters[k].Text?
    ensures allContent.Some? ==> allContent.value == CleanAll(chapters)
  {
    var lines: seq<string> := [];
    var failed := false;
    for i := 0 to |chapters|
      invariant lines == CleanAll(chapters[..i])
      invariant !failed <==> forall k :: 0 <= k < i ==> chapters[k].Text?
    {
      var chapter := chapters[i];
      assert CleanAll(chapters[..i + 1]) == lines + ChapterLines(chapter) by {
        CleanAllStep(chapters, i);
      }
      TextPrefixStep(chapters, i);
      if chapter.Error? {
        assert ChapterLines(chapter) == [];
        failed := true;
      } else {
        lines := lines + ChapterLines(chapter);
      }
    }
    assert chapters[..|chapters|] == chapters;
    allContent := if failed then None else Some(lines);
  }

  lemma TextPrefixStep(chapters: seq<ChapterResult>, i: nat)
    requires i < |chapters|
    ensures (forall k :: 0 <= k < i + 1 ==> chapters[k].Text?)
        <==> (forall k :: 0 <= k < i ==> chapters[k].Text?) && chapters[i].Text?
  {
  }

  /** One more callback appends that chapter's lines. */
  lemma CleanAllStep(chapters: seq<ChapterResult>, i: nat)
    requires i < |chapters|
    ensures CleanAll(chapters[..i + 1]) == CleanAll(chapters[..i]) + ChapterLines(chapters[i])
  {
    assert chapters[..i + 1] == chapters[..i] + [chapters[i]];
    CleanAllAppend(chapters[..i], [chapters[i]]);
    assert Blocks([chapters[i]]) == [ChapterLines(chapters[i])];
    assert Concat([ChapterLines(chapters[i])]) == ChapterLines(chapters[i]) by {
      assert [ChapterLines(chapters[i])][..0] == [];
    }
  }

  /** The lines of consecutive runs of callbacks are the runs' lines one
      after the other: completion order decides the order of the lines. */
  lemma CleanAllAppend(a: seq<ChapterResult>, b: seq<ChapterResult>)
    ensures CleanAll(a + b) == CleanAll(a) + CleanAll(b)
  {
    BlocksAppend(a, b);
    ConcatOfAppend(Blocks(a), Blocks(b));
  }

  /** Whatever order the chapters complete in, the same lines come out,
      each as often: nothing is lost or repeated, only the order of the
      chapters' blocks depends on completion. */
  lemma {:induction false} CleanAllAnyOrder(a: seq<ChapterResult>, b: seq<ChapterResult>)
    requires multiset(a) == multiset(b)
    ensures multiset(CleanAll(a)) == multiset(CleanAll(b))
    decreases |a|
  {
    if a == [] {
      assert |b| == |multiset(b)| == 0;
    } else {
      var init := a[..|a| - 1];
      var last := a[|a| - 1];
      var before, after := PickOut(a, b);
      var lastLines := CleanAll([last]);
      assert multiset(CleanAll(a)) == multiset(CleanAll(init)) + multiset(lastLines) by {
        assert a == init + [last];
        CleanAllAppend(init, [last]);
      }
      assert multiset(CleanAll(b))
          == multiset(CleanAll(before)) + multiset(lastLines) + multiset(CleanAll(after)) by {
        CleanAllAppend(before + [last], after);
        CleanAllAppend(before, [last]);
      }
      assert multiset(CleanAll(init)) == multiset(CleanAll(before)) + multiset(CleanAll(after)) by {
        CleanAllAnyOrder(init, before + after);
        CleanAllAppend(before, after);
      }
    }
  }

  /** Every line that reaches the normaliser from an EPUB is free of tags
      and line feeds and is not blank. */
  lemma {:induction false} CleanAllLines(chapters: seq<ChapterResult>)
    ensures forall k :: 0 <= k < |CleanAll(chapters)| ==>
      var line := CleanAll(chapters)[k];
      NoTag(line) && '\n' !in line && !IsBlank(line)
  {
    if chapters != [] {
      var init := chapters[..|chapters| - 1];
      var last := chapters[|chapters| - 1];
      CleanAllLines(init);
      CleanAllStep(chapters, |chapters| - 1);
      assert chapters[..|chapters|] == chapters;
      if last.Text? {
        CleanChapterLines(last.text);
      }
      var done, more := CleanAll(init), ChapterLines(last);
      assert CleanAll(chapters) == done + more;
      forall k | 0 <= k < |done + more|
        ensures var line := (done + more)[k];
          NoTag(line) && '\n' !in line && !IsBlank(line)
      {
        if k < |done| {
          assert (done + more)[k] == done[k];
        } else {
          assert (done + more)[k] == more[k - |done|];
        }
      }
    }
  }
}
