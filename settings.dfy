/**
  The persisted `zloveread` configuration section that the reader and the
  management page share: reading progress and last-read time per book,
  characters read per day, and the book last chosen in the picker.
  The host stores it; here it is one object whose fields the commands
  reassign.
 */
module Settings {

  class Config {
    /** `readingProgress`: book name to the index of the chunk shown. */
    var readingProgress: map<string, nat>
    /** `lastReadTime`: book name to a millisecond timestamp. */
    var lastReadTime: map<string, int>
    /** `dailyReadingStats`: `YYYY-MM-DD` to characters read that day. */
    var dailyReadingStats: map<string, nat>
    /** `currentBook`: the book last chosen in the picker, `""` if none. */
    var currentBook: string

    constructor ()
      ensures readingProgress == map[] && lastReadTime == map[]
      ensures dailyReadingStats == map[] && currentBook == ""
    {
      readingProgress := map[];
      lastReadTime := map[];
      dailyReadingStats := map[];
      currentBook := "";
    }
  }

  /** `progress[bookName] || 0`: the stored position, 0 when the book has
      none. A stored 0 and a missing entry read alike. */
  function GetProgress(progress: map<string, nat>, bookName: string): (r: nat)
    ensures r != 0 <==> bookName in progress && progress[bookName] != 0
    ensures bookName in progress ==> r == progress[bookName]
  {
    if bookName in progress then progress[bookName] else 0
  }

  /** `stats[day] || 0`: the characters counted for `day`, 0 for a day
      without a bucket. */
  function Bucket(stats: map<string, nat>, day: string): (r: nat)
    ensures r != 0 ==> day in stats && stats[day] == r
    ensures day in stats ==> r == stats[day]
  {
    if day in stats then stats[day] else 0
  }

  /** Storing a position and reading it back gives that position, and the
      other books read as before. */
  lemma {:induction false} ProgressReadBack(progress: map<string, nat>, book: string, position: nat, other: string)
    ensures GetProgress(progress[book := position], book) == position
    ensures other != book ==> GetProgress(progress[book := position], other) == GetProgress(progress, other)
  {
    assert book in progress[book := position];
  }

  /** Once a book's entry is gone, its progress reads as 0. */
  lemma {:induction false} ProgressAfterRemoval(progress: map<string, nat>, book: string)
    ensures GetProgress(progress - {book}, book) == 0
  {
    assert book !in progress - {book};
  }
}
