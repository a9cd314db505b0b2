/**
  The bookkeeping of the management page (`src/bookManager.ts`): removing
  a book's reading record, listing the reading history, and the reading
  statistics summary. The page's HTML, its messages and the dialogs are
  left out; what the page shows is computed here from the stored maps.
 */
module BookManager {
  import opened Settings
  import opened Strings

  /** The outcome of `removeBook`: no record to remove, or the record was
      removed and, when it was the current book's, a reload was asked for. */
  datatype RemoveOutcome = NotFound | Removed(reloadRequested: bool)

  /** `progress[bookName]` is truthy: the book has an entry whose position
      is not 0. */
  predicate HasRecord(progress: map<string, nat>, bookName: string) {
    bookName in progress && progress[bookName] != 0
  }

  /** `removeBook`: refuses when the book has no truthy progress entry;
      otherwise writes back copies of both maps without the book, and
      clears the stored current book when it is the one removed. */
  method RemoveBook(config: Config, bookName: string) returns (outcome: RemoveOutcome)
    modifies config
    ensures !HasRecord(old(config.readingProgress), bookName) ==>
      && outcome == NotFound
      && config.readingProgress == old(config.readingProgress)
      && config.lastReadTime == old(config.lastReadTime)
      && config.currentBook == old(config.currentBook)
    ensures HasRecord(old(config.readingProgress), bookName) ==>
      && outcome == Removed(bookName == old(config.currentBook))
      && config.readingProgress == old(config.readingProgress) - {bookName}
      && config.lastReadTime == old(config.lastReadTime) - {bookName}
      && config.currentBook == (if bookName == old(config.currentBook) then "" else old(config.currentBook))
    ensures config.dailyReadingStats == old(config.dailyReadingStats)
  {
    var progress := config.readingProgress;
    var lastRead := config.lastReadTime;
    var currentBook := config.currentBook;

    if !HasRecord(progress, bookName) {
      return NotFound;
    }

    var newProgress := progress - {bookName};
    var newLastRead := lastRead - {bookName};

    config.readingProgress := newProgress;
    config.lastReadTime := newLastRead;

    if bookName == currentBook {
      config.currentBook := "";
      return Removed(true);
    }
    return Removed(false);
  }

  /** Removing a record drops exactly that book: every other book keeps
      its entry and its value, in both maps. */
  lemma {:induction false} RemovalKeepsOthers<V>(m: map<string, V>, bookName: string)
    ensures bookName !in m - {bookName}
    ensures forall k :: k != bookName ==> (k in m - {bookName} <==> k in m)
    ensures forall k :: k in m - {bookName} ==> (m - {bookName})[k] == m[k]
  {
  }

  /** `keys` lists each key of `m` exactly once, as `Object.keys` does. */
  predicate Enumerates<V>(keys: seq<string>, m: map<string, V>) {
    && (forall i, j :: 0 <= i < j < |keys| ==> keys[i] != keys[j])
    && (forall k :: k in m ==> k in keys)
    && (forall k :: k in keys ==> k in m)
  }

  /** One row of the reading history. */
  datatype HistoryRecord = HistoryRecord(name: string, progress: nat, total: nat, lastRead: int)

  /** The row for `bookName`: its stored position, the line count of its
      file (0 when the file is missing or unreadable), and its last-read
      time, falling back to `now` when missing or 0 (`lastRead[name] ||
      Date.now()`). */
  function HistoryRow(bookName: string, progress: map<string, nat>, lastRead: map<string, int>,
                      totals: map<string, nat>, now: int): HistoryRecord
    requires bookName in progress
  {
    HistoryRecord(
      bookName,
      progress[bookName],
      if bookName in totals then totals[bookName] else 0,
      if bookName in lastRead && lastRead[bookName] != 0 then lastRead[bookName] else now)
  }

  /** `getReadingHistory`: one row per key of the progress map, in the
      order `Object.keys` lists them. `totals` stands for the line counts
      of the book files that exist. */
  function ReadingHistory(keys: seq<string>, progress: map<string, nat>, lastRead: map<string, int>,
                          totals: map<string, nat>, now: int): (rows: seq<HistoryRecord>)
    requires Enumerates(keys, progress)
    ensures |rows| == |keys|
    ensures forall i :: 0 <= i < |rows| ==> rows[i] == HistoryRow(keys[i], progress, lastRead, totals, now)
  {
    seq(|keys|, i requires 0 <= i < |keys| => HistoryRow(keys[i], progress, lastRead, totals, now))
  }

  /** The history has exactly one row per book with a progress entry, no
      other rows, and every row shows the stored position; a book with no
      last-read time shows `now`. */
  lemma {:induction false} HistoryOneRowPerBook(keys: seq<string>, progress: map<string, nat>,
                                                lastRead: map<string, int>, totals: map<string, nat>, now: int)
    requires Enumerates(keys, progress)
    ensures var rows := ReadingHistory(keys, progress, lastRead, totals, now);
      && (forall b :: b in progress <==> exists i :: 0 <= i < |rows| && rows[i].name == b)
      && (forall i, j :: 0 <= i < j < |rows| ==> rows[i].name != rows[j].name)
      && (forall i :: 0 <= i < |rows| ==> rows[i].name in progress && rows[i].progress == progress[rows[i].name])
      && (forall i :: 0 <= i < |rows| && rows[i].name !in lastRead ==> rows[i].lastRead == now)
  {
    var rows := ReadingHistory(keys, progress, lastRead, totals, now);
    forall b | b in progress ensures exists i :: 0 <= i < |rows| && rows[i].name == b {
      var i :| 0 <= i < |keys| && keys[i] == b;
      assert rows[i].name == b;
    }
  }

  /** `Object.values(stats).reduce((a, b) => a + b, 0)`, the buckets taken
      in the order `keys` lists them. */
  function SumBuckets(keys: seq<string>, stats: map<string, nat>): nat
    requires forall k :: k in keys ==> k in stats
  {
    if keys == [] then 0
    else SumBuckets(keys[..|keys| - 1], stats) + stats[keys[|keys| - 1]]
  }

  /** What the statistics panel shows: today's count, yesterday's count,
      both 0 for a day without a bucket, and the all-time total. */
  datatype StatsSummary = StatsSummary(today: nat, yesterday: nat, total: nat)

  /** `updateReadingStats`, with the two day keys given. */
  function Summary(keys: seq<string>, stats: map<string, nat>, today: string, yesterday: string): StatsSummary
    requires Enumerates(keys, stats)
  {
    StatsSummary(Bucket(stats, today), Bucket(stats, yesterday), SumBuckets(keys, stats))
  }

  lemma {:induction false} SumBucketsAppend(a: seq<string>, b: seq<string>, stats: map<string, nat>)
    requires forall k :: k in a + b ==> k in stats
    ensures SumBuckets(a + b, stats) == SumBuckets(a, stats) + SumBuckets(b, stats)
    decreases |b|
  {
    if b == [] {
      assert a + b == a;
    } else {
      var init := b[..|b| - 1];
      assert (a + b)[..|a + b| - 1] == a + init;
      SumBucketsAppend(a, init, stats);
    }
  }

  /** The total does not depend on the order the keys are listed in. */
  lemma {:induction false} SumBucketsAnyOrder(a: seq<string>, b: seq<string>, stats: map<string, nat>)
    requires multiset(a) == multiset(b)
    requires forall k :: k in a ==> k in stats
    requires forall k :: k in b ==> k in stats
    ensures SumBuckets(a, stats) == SumBuckets(b, stats)
    decreases |a|
  {
    if a == [] {
      assert |b| == |multiset(b)| == 0;
    } else {
      var init := a[..|a| - 1];
      var last := a[|a| - 1];
      var before, after := PickOut(a, b);
      SumBucketsAnyOrder(init, before + after, stats);
      SumBucketsMoveLast(before, last, after, stats);
    }
  }

  lemma SumBucketsMoveLast(before: seq<string>, last: string, after: seq<string>, stats: map<string, nat>)
    requires forall k :: k in before + [last] + after ==> k in stats
    ensures SumBuckets(before + [last] + after, stats) == SumBuckets(before + after, stats) + stats[last]
  {
    SumBucketsAppend(before, after, stats);
    SumBucketsAppend(before + [last], after, stats);
    SumBucketsAppend(before, [last], stats);
    assert [last][..0] == [];
  }

  /** Changing one listed bucket changes the total by the same amount. */
  lemma {:induction false} SumBucketsUpdate(keys: seq<string>, stats: map<string, nat>, day: string, value: nat)
    requires forall k :: k in keys ==> k in stats
    requires forall i, j :: 0 <= i < j < |keys| ==> keys[i] != keys[j]
    requires day in keys
    ensures forall k :: k in keys ==> k in stats[day := value]
    ensures SumBuckets(keys, stats[day := value]) == SumBuckets(keys, stats) - stats[day] + value
  {
    var init := keys[..|keys| - 1];
    var last := keys[|keys| - 1];
    assert keys == init + [last];
    if last == day {
      assert day !in init by {
        forall i | 0 <= i < |init| ensures init[i] != day {
          assert keys[i] != keys[|keys| - 1];
        }
      }
      SumBucketsUnchanged(init, stats, day, value);
    } else {
      assert day in init;
      SumBucketsUpdate(init, stats, day, value);
    }
  }

  lemma {:induction false} SumBucketsUnchanged(keys: seq<string>, stats: map<string, nat>, day: string, value: nat)
    requires forall k :: k in keys ==> k in stats
    requires day !in keys
    ensures SumBuckets(keys, stats[day := value]) == SumBuckets(keys, stats)
  {
    if keys != [] {
      SumBucketsUnchanged(keys[..|keys| - 1], stats, day, value);
    }
  }

  /** Reading `n` more characters on `day` (the update `nextLine` makes)
      raises that day's count and the all-time total by `n` and leaves the
      other days alone, whether or not the day had a bucket; `Object.keys`
      lists a new key last. */
  lemma {:induction false} SummaryAfterReading(keys: seq<string>, stats: map<string, nat>, day: string, n: nat, other: string)
    requires Enumerates(keys, stats)
    ensures var stats' := stats[day := Bucket(stats, day) + n];
      var keys' := if day in stats then keys else keys + [day];
      && Enumerates(keys', stats')
      && Summary(keys', stats', day, other).today == Summary(keys, stats, day, other).today + n
      && Summary(keys', stats', day, other).total == Summary(keys, stats, day, other).total + n
      && (other != day ==> Summary(keys', stats', day, other).yesterday == Summary(keys, stats, day, other).yesterday)
  {
    if day in stats {
      ReadingKnownDay(keys, stats, day, n);
    } else {
      ReadingNewDay(keys, stats, day, n);
    }
  }

  /** A day that has a bucket keeps its place among the keys. */
  lemma ReadingKnownDay(keys: seq<string>, stats: map<string, nat>, day: string, n: nat)
    requires Enumerates(keys, stats)
    requires day in stats
    ensures Enumerates(keys, stats[day := stats[day] + n])
    ensures SumBuckets(keys, stats[day := stats[day] + n]) == SumBuckets(keys, stats) + n
  {
    SumBucketsUpdate(keys, stats, day, stats[day] + n);
  }

  /** A day without a bucket is listed last, holding `n`. */
  lemma ReadingNewDay(keys: seq<string>, stats: map<string, nat>, day: string, n: nat)
    requires Enumerates(keys, stats)
    requires day !in stats
    ensures Enumerates(keys + [day], stats[day := n])
    ensures SumBuckets(keys + [day], stats[day := n]) == SumBuckets(keys, stats) + n
  {
    EnumeratesAddKey(keys, stats, day, n);
    SumBucketsUnchanged(keys, stats, day, n);
    SumBucketsSnoc(keys, stats[day := n], day);
  }

  lemma SumBucketsSnoc(keys: seq<string>, stats: map<string, nat>, day: string)
    requires forall k :: k in keys + [day] ==> k in stats
    ensures SumBuckets(keys + [day], stats) == SumBuckets(keys, stats) + stats[day]
  {
    assert (keys + [day])[..|keys|] == keys;
  }

  /** A key new to the map is listed once when put last. */
  lemma EnumeratesAddKey<V>(keys: seq<string>, m: map<string, V>, day: string, v: V)
    requires Enumerates(keys, m)
    requires day !in m
    ensures Enumerates(keys + [day], m[day := v])
  {
    var keys' := keys + [day];
    forall i, j | 0 <= i < j < |keys'| ensures keys'[i] != keys'[j] {
      if j == |keys| {
        assert keys'[i] == keys[i];
      }
    }
  }
}
