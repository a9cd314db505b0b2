/**
  String operations of JavaScript that the reader relies on: `trim()`,
  `split('\n')`, the decimal rendering of a number inside a template
  literal, and the concatenation of a list of strings.
  A string is a sequence of characters, one character per code point.
 */
module Strings {

  /** The characters `String.prototype.trim` removes: the ECMAScript
      WhiteSpace and LineTerminator code points. */
  predicate IsWhitespace(c: char) {
    || c == '\t' || c == '\n' || c == '\U{000B}' || c == '\U{000C}' || c == '\r'
    || c == ' ' || c == '\U{00A0}' || c == '\U{1680}'
    || ('\U{2000}' <= c <= '\U{200A}')
    || c == '\U{2028}' || c == '\U{2029}' || c == '\U{202F}' || c == '\U{205F}'
    || c == '\U{3000}' || c == '\U{FEFF}'
  }

  predicate AllWhitespace(s: string) {
    forall i :: 0 <= i < |s| ==> IsWhitespace(s[i])
  }

  /** Drops the leading whitespace: what is left is a suffix of `s`, what
      was dropped is all whitespace, and the suffix does not start with any. */
  function TrimStart(s: string): (r: string)
    ensures |r| <= |s| && r == s[|s| - |r|..]
    ensures AllWhitespace(s[..|s| - |r|])
    ensures r != [] ==> !IsWhitespace(r[0])
  {
    if s != [] && IsWhitespace(s[0]) then
      var r := TrimStart(s[1..]);
      var n := |s| - |r|;
      assert r == s[n..] && AllWhitespace(s[..n]) by {
        WhitespaceHeadStep(s, r);
      }
      r
    else
      s
  }

  /** One leading whitespace character more in front of a trimmed tail. */
  lemma WhitespaceHeadStep(s: string, r: string)
    requires s != [] && IsWhitespace(s[0])
    requires |r| <= |s| - 1 && r == s[1..][|s| - 1 - |r|..]
    requires AllWhitespace(s[1..][..|s| - 1 - |r|])
    ensures r == s[|s| - |r|..] && AllWhitespace(s[..|s| - |r|])
  {
    var n := |s| - |r|;
    assert s[1..][n - 1..] == s[n..];
    assert forall i :: 1 <= i < n ==> s[..n][i] == s[1..][..n - 1][i - 1];
  }

  /** Drops the trailing whitespace: what is left is a prefix of `s`, what
      was dropped is all whitespace, and the prefix does not end with any. */
  function TrimEnd(s: string): (r: string)
    ensures |r| <= |s| && r == s[..|r|]
    ensures AllWhitespace(s[|r|..])
    ensures r != [] ==> !IsWhitespace(r[|r| - 1])
  {
    if s != [] && IsWhitespace(s[|s| - 1]) then
      var r := TrimEnd(s[..|s| - 1]);
      assert r == s[..|r|] && AllWhitespace(s[|r|..]) by {
        WhitespaceTailStep(s, r);
      }
      r
    else
      s
  }

  /** One trailing whitespace character more behind a trimmed head. */
  lemma WhitespaceTailStep(s: string, r: string)
    requires s != [] && IsWhitespace(s[|s| - 1])
    requires |r| <= |s| - 1 && r == s[..|s| - 1][..|r|]
    requires AllWhitespace(s[..|s| - 1][|r|..])
    ensures r == s[..|r|] && AllWhitespace(s[|r|..])
  {
    assert forall k :: 0 <= k < |s| - 1 - |r| ==> s[|r|..][k] == s[..|s| - 1][|r|..][k];
  }

  /** JavaScript's `s.trim()`: it neither starts nor ends with whitespace,
      and it is empty exactly when `s` is all whitespace. */
  function Trim(s: string): (r: string)
    ensures r != [] ==> !IsWhitespace(r[0]) && !IsWhitespace(r[|r| - 1])
    ensures r == [] <==> AllWhitespace(s)
  {
    var t := TrimStart(s);
    var r := TrimEnd(t);
    TrimEmptyIffAllWhitespace(s);
    r
  }

  /** Whitespace dropped from the front of `s` and then from the back of
      what is left leaves an infix with whitespace around it. */
  lemma InfixAround(s: string, t: string, r: string)
    requires |t| <= |s| && t == s[|s| - |t|..] && AllWhitespace(s[..|s| - |t|])
    requires |r| <= |t| && r == t[..|r|] && AllWhitespace(t[|r|..])
    ensures Around(s, |s| - |t|, r)
  {
    var i := |s| - |t|;
    assert r == s[i..i + |r|];
    assert t[|r|..] == s[i + |r|..];
  }

  /** `trim` leaves nothing exactly when `s` is all whitespace. */
  lemma {:induction false} TrimEmptyIffAllWhitespace(s: string)
    ensures TrimEnd(TrimStart(s)) == [] <==> AllWhitespace(s)
  {
    KeptIffNotAllWhitespace(s, TrimStart(s), TrimEnd(TrimStart(s)));
  }

  /** A whitespace prefix dropped from `s` leaves a suffix `t` that does
      not start with whitespace; a prefix `r` of `t` is kept and the rest
      of `t` is whitespace. Nothing is kept exactly when `s` is all
      whitespace. */
  lemma KeptIffNotAllWhitespace(s: string, t: string, r: string)
    requires |t| <= |s| && t == s[|s| - |t|..] && AllWhitespace(s[..|s| - |t|])
    requires t != [] ==> !IsWhitespace(t[0])
    requires |r| <= |t| && r == t[..|r|] && AllWhitespace(t[|r|..])
    ensures r == [] <==> AllWhitespace(s)
  {
    var i := |s| - |t|;
    if r == [] {
      assert t[|r|..] == t;
      assert s == s[..i] + t;
      AllWhitespaceConcat(s[..i], t);
    } else {
      assert t[0] == s[i];
    }
  }

  /** What `trim` keeps is an infix of `s` with only whitespace around
      it. */
  lemma {:induction false} TrimAround(s: string)
    ensures exists i :: 0 <= i <= |s| - |Trim(s)| && Around(s, i, Trim(s))
  {
    var t := TrimStart(s);
    var r := TrimEnd(t);
    InfixAround(s, t, r);
    assert r == Trim(s);
  }

  lemma AllWhitespaceConcat(a: string, b: string)
    requires AllWhitespace(a) && AllWhitespace(b)
    ensures AllWhitespace(a + b)
  {
  }

  /** `r` stands in `s` at offset `i` with only whitespace around it. */
  predicate Around(s: string, i: nat, r: string) {
    && i + |r| <= |s|
    && r == s[i..i + |r|]
    && AllWhitespace(s[..i]) && AllWhitespace(s[i + |r|..])
  }

  /** A line made of whitespace only, the lines whose `line.trim()`
      JavaScript treats as false. */
  predicate IsBlank(s: string) {
    s == [] || (IsWhitespace(s[0]) && IsBlank(s[1..]))
  }

  /** A line is blank exactly when `trim` leaves nothing of it. */
  lemma {:induction false} BlankIffTrimEmpty(s: string)
    ensures IsBlank(s) <==> Trim(s) == []
  {
    BlankIffAllWhitespace(s);
  }

  lemma {:induction false} BlankIffAllWhitespace(s: string)
    ensures IsBlank(s) <==> AllWhitespace(s)
  {
    if s != [] {
      BlankIffAllWhitespace(s[1..]);
      assert forall i :: 0 < i < |s| ==> s[i] == s[1..][i - 1];
    }
  }

  lemma {:induction false} TrimIdempotent(s: string)
    ensures Trim(Trim(s)) == Trim(s)
  {
    var r := Trim(s);
    if r != [] {
      assert TrimStart(r) == r;
      assert TrimEnd(r) == r;
    }
  }

  /** JavaScript's `s.split('\n')`: always at least one piece, none holding
      a line feed. */
  function SplitLines(s: string): (r: seq<string>)
    ensures |r| >= 1
    ensures forall k :: 0 <= k < |r| ==> '\n' !in r[k]
  {
    if s == [] then [""]
    else
      var rest := SplitLines(s[1..]);
      if s[0] == '\n' then [""] + rest
      else [[s[0]] + rest[0]] + rest[1..]
  }

  /** `parts.join('\n')`. */
  function JoinLines(parts: seq<string>): string {
    if parts == [] then ""
    else if |parts| == 1 then parts[0]
    else parts[0] + "\n" + JoinLines(parts[1..])
  }

  /** Splitting then joining gives the text back: no character is lost. */
  lemma {:induction false} JoinSplitLines(s: string)
    ensures JoinLines(SplitLines(s)) == s
  {
    if s != [] {
      var rest := SplitLines(s[1..]);
      JoinSplitLines(s[1..]);
      if s[0] == '\n' {
        assert SplitLines(s) == [""] + rest;
        assert s == "" + "\n" + s[1..];
      } else if |rest| == 1 {
        assert SplitLines(s) == [[s[0]] + rest[0]];
      } else {
        var r := SplitLines(s);
        assert r[1..] == rest[1..];
        assert JoinLines(rest) == rest[0] + "\n" + JoinLines(rest[1..]);
      }
    }
  }

  /** Joining pieces that hold no line feed, then splitting, gives the
      pieces back: `split` and `join` are inverse on such pieces. */
  lemma {:induction false} SplitJoinLines(parts: seq<string>)
    requires |parts| >= 1
    requires forall k :: 0 <= k < |parts| ==> '\n' !in parts[k]
    ensures SplitLines(JoinLines(parts)) == parts
  {
    if |parts| == 1 {
      SplitLineFree(parts[0], []);
    } else {
      SplitJoinLines(parts[1..]);
      SplitLineFree(parts[0], parts[1..]);
    }
  }

  /** Splitting `p + "\n" + JoinLines(more)` (or just `p` when `more` is
      empty), where `p` holds no line feed, yields `p` followed by the
      pieces of the rest. */
  lemma {:induction false} SplitLineFree(p: string, more: seq<string>)
    requires '\n' !in p
    requires more != [] ==> SplitLines(JoinLines(more)) == more
    ensures SplitLines(if more == [] then p else p + "\n" + JoinLines(more))
         == [p] + more
  {
    var t := if more == [] then p else p + "\n" + JoinLines(more);
    if p == [] {
      if more != [] {
        assert t[1..] == JoinLines(more);
      }
    } else {
      var tail := if more == [] then p[1..] else p[1..] + "\n" + JoinLines(more);
      assert t[1..] == tail;
      SplitLineFree(p[1..], more);
      assert [p[0]] + p[1..] == p;
    }
  }

  /** The concatenation of a list of sequences, in order. */
  function Concat<T>(parts: seq<seq<T>>): seq<T> {
    if parts == [] then [] else Concat(parts[..|parts| - 1]) + parts[|parts| - 1]
  }

  lemma AppendAssoc<T>(a: seq<T>, b: seq<T>, c: seq<T>)
    ensures a + (b + c) == (a + b) + c
  {
  }

  lemma {:induction false} ConcatAppend<T>(parts: seq<seq<T>>, last: seq<T>)
    ensures Concat(parts + [last]) == Concat(parts) + last
  {
    assert (parts + [last])[..|parts|] == parts;
  }

  /** Concatenation turns `+` on lists into `+` on their contents. */
  lemma {:induction false} ConcatOfAppend<T>(a: seq<seq<T>>, b: seq<seq<T>>)
    ensures Concat(a + b) == Concat(a) + Concat(b)
    decreases |b|
  {
    if b == [] {
      assert a + b == a;
    } else {
      var init := b[..|b| - 1];
      ConcatOfAppend(a, init);
      assert (a + b)[..|a + b| - 1] == a + init;
      AppendAssoc(Concat(a), Concat(init), b[|b| - 1]);
    }
  }

  lemma {:induction false} ConcatPrepend<T>(first: seq<T>, parts: seq<seq<T>>)
    ensures Concat([first] + parts) == first + Concat(parts)
  {
    if parts != [] {
      var init := parts[..|parts| - 1];
      ConcatPrepend(first, init);
      assert ([first] + parts)[..|parts|] == [first] + init;
    }
  }

  /** The sum of the lengths of a list of strings, summed in list order. */
  function SumLengths(parts: seq<string>): nat {
    if parts == [] then 0 else SumLengths(parts[..|parts| - 1]) + |parts[|parts| - 1]|
  }

  /** Summing the lengths one by one counts exactly the characters of the
      concatenation. */
  lemma {:induction false} SumLengthsIsConcatLength(parts: seq<string>)
    ensures SumLengths(parts) == |Concat(parts)|
  {
    if parts != [] {
      SumLengthsIsConcatLength(parts[..|parts| - 1]);
    }
  }

  predicate IsDigit(c: char) {
    '0' <= c <= '9'
  }

  predicate AllDigits(s: string) {
    forall i :: 0 <= i < |s| ==> IsDigit(s[i])
  }

  /** The decimal rendering of a natural number, as a template literal
      `${n}` writes it: digits only, never empty. */
  function NatToString(n: nat): (r: string)
    ensures |r| >= 1 && AllDigits(r)
    ensures r[0] == '0' ==> n == 0
  {
    if n < 10 then [DigitChar(n)] else NatToString(n / 10) + [DigitChar(n % 10)]
  }

  function DigitChar(d: nat): (c: char)
    requires d < 10
    ensures IsDigit(c)
  {
    ['0', '1', '2', '3', '4', '5', '6', '7', '8', '9'][d]
  }

  /** The number a string of decimal digits denotes. */
  function DigitsValue(s: string): nat
    requires AllDigits(s)
  {
    if s == [] then 0
    else DigitsValue(s[..|s| - 1]) * 10 + (s[|s| - 1] as int - '0' as int)
  }

  /** Reading the decimal rendering back gives the number. */
  lemma {:induction false} DigitsValueOfNatToString(n: nat)
    ensures DigitsValue(NatToString(n)) == n
  {
    if n >= 10 {
      var r := NatToString(n);
      assert r[..|r| - 1] == NatToString(n / 10);
      DigitsValueOfNatToString(n / 10);
    }
  }

  /** Finds the last element of `a` in `b`, a permutation of `a`, and what
      stands around it there. */
  lemma PickOut<T>(a: seq<T>, b: seq<T>) returns (before: seq<T>, after: seq<T>)
    requires a != [] && multiset(a) == multiset(b)
    ensures b == before + [a[|a| - 1]] + after
    ensures multiset(a[..|a| - 1]) == multiset(before + after)
  {
    var init := a[..|a| - 1];
    var last := a[|a| - 1];
    assert a == init + [last];
    assert last in multiset(b) by {
      assert last in multiset(a);
    }
    var m :| 0 <= m < |b| && b[m] == last;
    before, after := b[..m], b[m + 1..];
    assert b == before + [last] + after;
    MultisetCancel(init, last, before, after);
  }

  lemma MultisetCancel<T>(init: seq<T>, last: T, before: seq<T>, after: seq<T>)
    requires multiset(init + [last]) == multiset(before + [last] + after)
    ensures multiset(init) == multiset(before + after)
  {
    calc {
      multiset(init) + multiset{last};
      multiset(init + [last]);
      multiset(before + [last] + after);
      multiset(before) + multiset{last} + multiset(after);
      multiset(before + after) + multiset{last};
    }
    forall x ensures multiset(init)[x] == multiset(before + after)[x] {
      assert (multiset(init) + multiset{last})[x] == (multiset(before + after) + multiset{last})[x];
    }
  }
}
