/** search_string_in_file of src/23.c: the text is read line by line into a buffer, and each line
    is scanned with strstr, jumping over every hit. */
module Occurrences {
  import opened CStrings

  predicate OccursAt(s: string, str: string, i: nat) {
    i + |str| <= |s| && s[i..i + |str|] == str
  }

  /** strstr from position p on: the first occurrence, or -1. */
  function Strstr(s: string, str: string, p: nat): (r: int)
    requires p <= |s|
    ensures r == -1 || (p <= r && r + |str| <= |s| && OccursAt(s, str, r))
    ensures r == -1 ==> forall i: nat :: p <= i ==> !OccursAt(s, str, i)
    ensures r != -1 ==> forall i: nat :: p <= i < r ==> !OccursAt(s, str, i)
    decreases |s| - p
  {
    if OccursAt(s, str, p) then p
    else if p == |s| then -1
    else Strstr(s, str, p + 1)
  }

  /** The occurrences the scan counts from position p on. */
  function Greedy(s: string, str: string, p: nat): (r: seq<nat>)
    requires p <= |s| && |str| > 0
    decreases |s| - p
  {
    var i := Strstr(s, str, p);
    if i == -1 then [] else [i] + Greedy(s, str, i + |str|)
  }

  /** What one fgets takes: up to and including a newline, and at most size - 1 characters. */
  function LineLength(text: string, size: nat): (r: nat)
    requires size >= 2 && text != []
    ensures 0 < r <= |text| && r < size
    ensures '\n' !in text[..r - 1]
    ensures text[r - 1] == '\n' || r == |text| || r == size - 1
  {
    if text[0] == '\n' || |text| == 1 || size == 2 then 1
    else 1 + LineLength(text[1..], size - 1)
  }

  function Lines(text: string, size: nat): (r: seq<string>)
    requires size >= 2
  {
    if text == [] then []
    else [text[..LineLength(text, size)]] + Lines(text[LineLength(text, size)..], size)
  }

  function Total(lines: seq<string>, str: string): (r: nat)
    requires |str| > 0
  {
    if lines == [] then 0 else |Greedy(CString(lines[0]), str, 0)| + Total(lines[1..], str)
  }

  /** The inner loop; an empty search string would never advance p. */
  method CountLine(line: string, str: string) returns (count: nat)
    requires |str| > 0
    ensures count == |Greedy(line, str, 0)|
  {
    count := 0;
    var p := 0;
    while true
      invariant p <= |line|
      invariant count + |Greedy(line, str, p)| == |Greedy(line, str, 0)|
      decreases |line| - p
    {
      var i := Strstr(line, str, p);
      if i == -1 {
        break;
      }
      count := count + 1;
      p := i + |str|;
    }
  }

  method SearchStringInFile(text: string, str: string, size: nat) returns (count: nat)
    requires |str| > 0 && size >= 2
    ensures count == Total(Lines(text, size), str)
  {
    count := 0;
    var rest := text;
    while rest != []
      invariant count + Total(Lines(rest, size), str) == Total(Lines(text, size), str)
      decreases |rest|
    {
      var n := LineLength(rest, size);
      var c := CountLine(CString(rest[..n]), str);
      count := count + c;
      rest := rest[n..];
    }
  }

  // ---------------------------------------------------------------- the scan is optimal

  /** Occurrences that do not overlap, in order, none before from. */
  ghost predicate Packing(ps: seq<nat>, s: string, str: string, from: nat) {
    && (forall k :: 0 <= k < |ps| ==> OccursAt(s, str, ps[k]))
    && (ps != [] ==> from <= ps[0])
    && (forall k :: 0 < k < |ps| ==> ps[k - 1] + |str| <= ps[k])
  }

  lemma {:induction false} GreedyIsPacking(s: string, str: string, p: nat)
    requires p <= |s| && |str| > 0
    ensures Packing(Greedy(s, str, p), s, str, p)
    decreases |s| - p
  {
    hide OccursAt, Strstr;
    var i := Strstr(s, str, p);
    if i != -1 {
      GreedyIsPacking(s, str, i + |str|);
    }
  }

  lemma PackingTail(ps: seq<nat>, s: string, str: string, p: nat, i: nat)
    requires Packing(ps, s, str, p) && ps != [] && i <= ps[0]
    ensures Packing(ps[1..], s, str, i + |str|)
  {
    hide OccursAt;
  }

  /** No way of choosing occurrences that do not overlap has more. */
  lemma {:induction false} GreedyIsMaximal(ps: seq<nat>, s: string, str: string, p: nat)
    requires p <= |s| && |str| > 0 && Packing(ps, s, str, p)
    ensures |ps| <= |Greedy(s, str, p)|
    decreases |s| - p
  {
    hide OccursAt, Strstr;
    if ps != [] {
      var i := Strstr(s, str, p);
      assert OccursAt(s, str, ps[0]);
      assert i != -1 && i <= ps[0];
      PackingTail(ps, s, str, p, i);
      GreedyIsMaximal(ps[1..], s, str, i + |str|);
    }
  }

  // ---------------------------------------------------------------- lines and the whole text

  /** No occurrence lies across the cut between a and b. */
  ghost predicate CutIsSafe(a: string, b: string, str: string) {
    forall i: nat :: i < |a| < i + |str| ==> !OccursAt(a + b, str, i)
  }

  lemma OccursConcat(a: string, b: string, str: string, i: nat)
    requires CutIsSafe(a, b, str) && |str| > 0
    ensures OccursAt(a + b, str, i) <==> if i < |a| then OccursAt(a, str, i) else OccursAt(b, str, i - |a|)
  {
    var s := a + b;
    if i + |str| <= |a| {
      assert s[i..i + |str|] == a[i..i + |str|];
    } else if |a| <= i && i + |str| <= |s| {
      assert s[i..i + |str|] == b[i - |a|..i - |a| + |str|];
    }
  }

  lemma StrstrConcat(a: string, b: string, str: string, p: nat)
    requires |str| > 0 && p <= |a|
    requires CutIsSafe(a, b, str)
    ensures Strstr(a + b, str, p) == if Strstr(a, str, p) != -1 then Strstr(a, str, p)
                                     else if Strstr(b, str, 0) != -1 then |a| + Strstr(b, str, 0) else -1
  {
    var i := Strstr(a + b, str, p);
    forall j: nat {
      OccursConcat(a, b, str, j);
    }
    var x, y := Strstr(a, str, p), Strstr(b, str, 0);
    if x != -1 {
      assert OccursAt(a + b, str, x);
    } else if y != -1 {
      assert OccursAt(a + b, str, |a| + y);
    }
    if i != -1 {
      assert if i < |a| then OccursAt(a, str, i) else OccursAt(b, str, i - |a|);
    }
  }

  lemma {:induction false} StrstrShift(a: string, b: string, str: string, p: nat)
    requires |str| > 0 && p <= |b|
    requires CutIsSafe(a, b, str)
    ensures Strstr(a + b, str, |a| + p) == if Strstr(b, str, p) == -1 then -1 else |a| + Strstr(b, str, p)
    decreases |b| - p
  {
    hide OccursAt, CutIsSafe;
    OccursConcat(a, b, str, |a| + p);
    if !OccursAt(b, str, p) && p < |b| {
      StrstrShift(a, b, str, p + 1);
    }
  }

  lemma {:induction false} GreedyShift(a: string, b: string, str: string, p: nat)
    requires |str| > 0 && p <= |b|
    requires CutIsSafe(a, b, str)
    ensures |Greedy(a + b, str, |a| + p)| == |Greedy(b, str, p)|
    decreases |b| - p
  {
    hide Strstr, OccursAt, CutIsSafe;
    StrstrShift(a, b, str, p);
    var i := Strstr(b, str, p);
    if i != -1 {
      GreedyShift(a, b, str, i + |str|);
    }
  }

  /** A cut that no occurrence lies across splits the count. */
  lemma {:induction false} GreedyConcat(a: string, b: string, str: string, p: nat)
    requires |str| > 0 && p <= |a|
    requires CutIsSafe(a, b, str)
    ensures |Greedy(a + b, str, p)| == |Greedy(a, str, p)| + |Greedy(b, str, 0)|
    decreases |a| - p
  {
    hide Strstr, OccursAt;
    StrstrConcat(a, b, str, p);
    var i := Strstr(a, str, p);
    if i != -1 {
      GreedyConcat(a, b, str, i + |str|);
    } else {
      var j := Strstr(b, str, 0);
      if j != -1 {
        GreedyShift(a, b, str, j + |str|);
      }
    }
  }

  function Shift(ps: seq<nat>, d: nat): (r: seq<nat>)
    ensures |r| == |ps|
  {
    seq(|ps|, k requires 0 <= k < |ps| => ps[k] + d)
  }

  lemma OccursLeft(a: string, b: string, str: string, i: nat)
    requires OccursAt(a, str, i)
    ensures OccursAt(a + b, str, i) && i + |str| <= |a|
  {
    assert (a + b)[i..i + |str|] == a[i..i + |str|];
  }

  lemma OccursRight(a: string, b: string, str: string, i: nat)
    requires OccursAt(b, str, i)
    ensures OccursAt(a + b, str, i + |a|)
  {
    assert (a + b)[i + |a|..i + |a| + |str|] == b[i..i + |str|];
  }

  lemma PackingConcat(ps: seq<nat>, a: string, qs: seq<nat>, b: string, str: string)
    requires |str| > 0 && Packing(ps, a, str, 0) && Packing(qs, b, str, 0)
    ensures Packing(ps + Shift(qs, |a|), a + b, str, 0)
  {
    hide OccursAt;
    var s, all := a + b, ps + Shift(qs, |a|);
    forall k | 0 <= k < |all| ensures OccursAt(s, str, all[k]) && (k < |ps| ==> all[k] + |str| <= |a|) {
      if k < |ps| {
        OccursLeft(a, b, str, ps[k]);
      } else {
        OccursRight(a, b, str, qs[k - |ps|]);
      }
    }
  }

  /** Cutting a text anywhere can only lose occurrences. */
  lemma CutNeverAdds(a: string, b: string, str: string)
    requires |str| > 0
    ensures |Greedy(a, str, 0)| + |Greedy(b, str, 0)| <= |Greedy(a + b, str, 0)|
  {
    GreedyIsPacking(a, str, 0);
    GreedyIsPacking(b, str, 0);
    PackingConcat(Greedy(a, str, 0), a, Greedy(b, str, 0), b, str);
    GreedyIsMaximal(Greedy(a, str, 0) + Shift(Greedy(b, str, 0), |a|), a + b, str, 0);
  }

  /** The occurrences before the first NUL, or before any other cut, are occurrences. */
  lemma PrefixNeverAdds(s: string, n: nat, str: string)
    requires |str| > 0 && n <= |s|
    ensures |Greedy(s[..n], str, 0)| <= |Greedy(s, str, 0)|
  {
    hide Greedy;
    CutNeverAdds(s[..n], s[n..], str);
    assert s == s[..n] + s[n..];
  }

  lemma {:induction false} CStringIsPrefix(s: string)
    ensures |CString(s)| <= |s| && CString(s) == s[..|CString(s)|]
  {
    if s != [] && s[0] != NUL {
      CStringIsPrefix(s[1..]);
    }
  }

  /** However long the lines and whatever the characters, the count is never too high. */
  lemma {:induction false} TotalNeverTooHigh(text: string, str: string, size: nat)
    requires |str| > 0 && size >= 2
    ensures Total(Lines(text, size), str) <= |Greedy(text, str, 0)|
    decreases |text|
  {
    hide Greedy, CString;
    if text != [] {
      var n := LineLength(text, size);
      TotalNeverTooHigh(text[n..], str, size);
      CStringIsPrefix(text[..n]);
      PrefixNeverAdds(text[..n], |CString(text[..n])|, str);
      CutNeverAdds(text[..n], text[n..], str);
      assert text == text[..n] + text[n..];
    }
  }

  // ---------------------------------------------------------------- when nothing is missed

  /** A newline, if any, only at the end. */
  predicate OneLine(str: string)
    requires |str| > 0
  {
    '\n' !in str[..|str| - 1]
  }

  /** 1 when the newline is part of what is searched. */
  function EndNewline(str: string): (r: nat)
    requires |str| > 0
    ensures r <= 1
  {
    if str[|str| - 1] == '\n' then 1 else 0
  }

  /** Every line has at most n characters before its newline: n + 1 characters in a row hold one. */
  ghost predicate LinesUpTo(s: string, n: nat) {
    forall i: nat :: NewlineWithin(s, i, n)
  }

  ghost predicate NewlineWithin(s: string, i: nat, n: nat) {
    i + n < |s| ==> exists k :: i <= k <= i + n && s[k] == '\n'
  }

  lemma PartHasLinesUpTo(s: string, from: nat, to: nat, n: nat)
    requires LinesUpTo(s, n) && from <= to <= |s|
    ensures LinesUpTo(s[from..to], n)
  {
    forall i: nat ensures NewlineWithin(s[from..to], i, n) {
      assert NewlineWithin(s, from + i, n);
      if i + n < to - from {
        var k :| from + i <= k <= from + i + n && s[k] == '\n';
        assert s[from..to][k - from] == '\n';
      }
    }
  }

  lemma OccursChar(s: string, str: string, i: nat, k: nat)
    requires OccursAt(s, str, i) && k < |str|
    ensures s[i + k] == str[k]
  {
    assert s[i..i + |str|][k] == s[i + k];
  }

  /** Where fgets cuts is safe when one character is searched, or when every line fits the buffer,
      with its newline if that is part of what is searched. */
  lemma LineCutIsSafe(text: string, str: string, size: nat)
    requires |str| > 0 && size >= 2 && text != [] && OneLine(str)
    requires |str| == 1 || LinesUpTo(text, size - 1 - EndNewline(str))
    ensures var n := LineLength(text, size); CutIsSafe(text[..n], text[n..], str)
  {
    hide LineLength;
    var n := LineLength(text, size);
    assert text == text[..n] + text[n..];
    assert forall j :: 0 <= j < n - 1 ==> text[..n - 1][j] == text[j] != '\n';
    assert forall j :: 0 <= j < |str| - 1 ==> str[..|str| - 1][j] == str[j] != '\n';
    if |str| > 1 {
      assert NewlineWithin(text, 0, size - 1 - EndNewline(str));
    }
    forall i: nat | i < n < i + |str| && OccursAt(text, str, i) ensures false {
      OccursChar(text, str, i, n - 1 - i);
      OccursChar(text, str, i, n - i);
    }
  }

  lemma GreedyEmpty(str: string)
    requires |str| > 0
    ensures Greedy([], str, 0) == []
  {
  }

  /** Then the lines together have as many as one scan of the whole text. */
  lemma {:induction false} TotalIsMaximal(text: string, str: string, size: nat)
    requires |str| > 0 && size >= 2 && OneLine(str) && NUL !in text
    requires |str| == 1 || LinesUpTo(text, size - 1 - EndNewline(str))
    ensures Total(Lines(text, size), str) == |Greedy(text, str, 0)|
    decreases |text|
  {
    hide Greedy, LineLength, LinesUpTo, CutIsSafe, CString;
    if text != [] {
      var n := LineLength(text, size);
      var line, rest := text[..n], text[n..];
      if |str| > 1 {
        PartHasLinesUpTo(text, n, |text|, size - 1 - EndNewline(str));
        assert text[n..|text|] == rest;
      }
      TotalIsMaximal(rest, str, size);
      CStringWhole(line);
      LineCutIsSafe(text, str, size);
      GreedyConcat(line, rest, str, 0);
      assert text == line + rest;
    } else {
      GreedyEmpty(str);
    }
  }

  /** No selection of occurrences in the whole text beats the count, and one attains it. */
  lemma CountIsBest(text: string, str: string, size: nat, ps: seq<nat>)
    requires |str| > 0 && size >= 2 && OneLine(str) && NUL !in text
    requires |str| == 1 || LinesUpTo(text, size - 1 - EndNewline(str))
    requires Packing(ps, text, str, 0)
    ensures |ps| <= Total(Lines(text, size), str)
    ensures exists best :: Packing(best, text, str, 0) && |best| == Total(Lines(text, size), str)
  {
    TotalIsMaximal(text, str, size);
    GreedyIsMaximal(ps, text, str, 0);
    GreedyIsPacking(text, str, 0);
  }

  // ---------------------------------------------------------------- when something is missed

  lemma NoOccurrence(s: string, str: string)
    requires |str| > 0 && forall i: nat :: !OccursAt(s, str, i)
    ensures Greedy(s, str, 0) == []
  {
  }

  lemma OneOccurrence(s: string, str: string, i: nat)
    requires |str| > 0 && OccursAt(s, str, i)
    ensures |Greedy(s, str, 0)| >= 1
  {
    hide OccursAt;
    GreedyIsMaximal([i], s, str, 0);
  }

  /** A string with a newline before its end is never found. */
  lemma {:induction false} InnerNewlineNeverFound(text: string, str: string, size: nat)
    requires |str| > 0 && size >= 2 && !OneLine(str)
    ensures Total(Lines(text, size), str) == 0
    decreases |text|
  {
    hide Greedy, LineLength;
    if text != [] {
      var n := LineLength(text, size);
      InnerNewlineNeverFound(text[n..], str, size);
      var line := text[..n];
      CStringIsPrefix(line);
      var k :| 0 <= k < |str| - 1 && str[k] == '\n';
      assert forall j :: 0 <= j < n - 1 ==> text[..n - 1][j] == text[j] != '\n';
      forall i: nat | OccursAt(CString(line), str, i) ensures false {
        OccursChar(CString(line), str, i, k);
      }
      NoOccurrence(CString(line), str);
    }
  }

  /** Neither is one that is too long for the buffer. */
  lemma {:induction false} TooLongNeverFound(text: string, str: string, size: nat)
    requires |str| >= size >= 2
    ensures Total(Lines(text, size), str) == 0
    decreases |text|
  {
    hide Greedy, LineLength;
    if text != [] {
      var n := LineLength(text, size);
      TooLongNeverFound(text[n..], str, size);
      CStringIsPrefix(text[..n]);
      NoOccurrence(CString(text[..n]), str);
    }
  }

  /** A character to fill lines with. */
  function Filler(c: char): (r: char)
    ensures r != c && r != NUL && r != '\n'
  {
    if c == 'x' then 'y' else 'x'
  }

  /** One line, one character too long, with the search string at its end. */
  function OverlongLine(str: string, size: nat): (r: string)
    requires |str| > 0
    ensures |r| == if |str| < size then size else |str|
    ensures r[|r| - |str|..] == str
  {
    if |str| < size then seq(size - |str|, i => Filler(str[0])) + str else str
  }

  /** The occurrence at the end of that line is missed. */
  lemma OccurrenceIsMissed(str: string, size: nat)
    requires size >= 2 && |str| >= 2 && OneLine(str) && NUL !in str
    ensures var text := OverlongLine(str, size);
      && NUL !in text
      && Total(Lines(text, size), str) == 0 && |Greedy(text, str, 0)| >= 1
  {
    hide Greedy, LineLength, CString;
    var text := OverlongLine(str, size);
    OneOccurrence(text, str, |text| - |str|);
    if |str| >= size {
      TooLongNeverFound(text, str, size);
    } else {
      FirstPieceOf(str, size);
      var line, rest := text[..size - 1], text[size - 1..];
      assert Lines(text, size) == [line] + Lines(rest, size);
      CStringWhole(line);
      forall i: nat ensures !OccursAt(line, str, i) {
        if i + |str| <= size - 1 {
          assert line[i..i + |str|][0] == Filler(str[0]);
        }
      }
      NoOccurrence(line, str);
      NothingIn(rest, str, size);
    }
  }

  lemma FirstPieceOf(str: string, size: nat)
    requires size >= 2 && 2 <= |str| < size && OneLine(str)
    ensures LineLength(OverlongLine(str, size), size) == size - 1
  {
    hide LineLength;
    var text := OverlongLine(str, size);
    var d := size - |str|;
    var n := LineLength(text, size);
    assert n - 1 >= d ==> text[n - 1] == str[n - 1 - d];
    assert n < |text| && n - 1 >= d ==> str[n - 1 - d] == str[..|str| - 1][n - 1 - d];
  }

  lemma {:induction false} NothingIn(rest: string, str: string, size: nat)
    requires size >= 2 && |rest| < |str|
    ensures Total(Lines(rest, size), str) == 0
  {
    hide Greedy;
    TotalNeverTooHigh(rest, str, size);
    NoOccurrence(rest, str);
  }

  lemma OverlongLineIsUpTo(str: string, size: nat, n: nat)
    requires |str| >= 2 && OneLine(str) && LinesUpTo(str, n) && size <= n + EndNewline(str)
    ensures LinesUpTo(OverlongLine(str, size), n)
  {
    var text := OverlongLine(str, size);
    if |str| < size {
      assert EndNewline(str) == 1 ==> text[size - 1] == '\n';
    }
  }

  /** No occurrence is missed in any text with lines of at most n characters if and only if none can
      be there, the search string having a longer line itself, or the search string has no newline
      before its end and is a single character or leaves such a line, with the newline when that
      is searched for, room in the buffer. */
  lemma CountIsBestExactly(str: string, size: nat, n: nat)
    requires |str| > 0 && NUL !in str && size >= 2
    ensures (forall text :: NUL !in text && LinesUpTo(text, n)
               ==> Total(Lines(text, size), str) == |Greedy(text, str, 0)|)
       <==> !LinesUpTo(str, n) || (OneLine(str) && (|str| == 1 || n + EndNewline(str) < size))
  {
    hide Greedy, LinesUpTo, Total, Lines, OneLine, OverlongLine, EndNewline;
    if !LinesUpTo(str, n) {
      forall text | NUL !in text && LinesUpTo(text, n)
        ensures Total(Lines(text, size), str) == |Greedy(text, str, 0)|
      {
        TotalNeverTooHigh(text, str, size);
        LongerLineOccursNowhere(text, str, n);
      }
    } else if !OneLine(str) {
      InnerNewlineNeverFound(str, str, size);
      OneOccurrence(str, str, 0);
    } else if |str| == 1 || n + EndNewline(str) < size {
      forall text | NUL !in text && LinesUpTo(text, n)
        ensures Total(Lines(text, size), str) == |Greedy(text, str, 0)|
      {
        if |str| > 1 {
          LinesUpToMore(text, n, size - 1 - EndNewline(str));
        }
        TotalIsMaximal(text, str, size);
      }
    } else {
      OccurrenceIsMissed(str, size);
      OverlongLineIsUpTo(str, size, n);
    }
  }

  lemma LinesUpToMore(s: string, n: nat, m: nat)
    requires LinesUpTo(s, n) && n <= m
    ensures LinesUpTo(s, m)
  {
    forall i: nat ensures NewlineWithin(s, i, m) {
      assert NewlineWithin(s, i, n);
    }
  }

  lemma LongerLineOccursNowhere(text: string, str: string, n: nat)
    requires |str| > 0 && LinesUpTo(text, n) && !LinesUpTo(str, n)
    ensures Greedy(text, str, 0) == []
  {
    hide Greedy, LinesUpTo;
    forall i: nat ensures !OccursAt(text, str, i) {
      if OccursAt(text, str, i) {
        PartHasLinesUpTo(text, i, i + |str|, n);
      }
    }
    NoOccurrence(text, str);
  }

  /** Of a line that holds a NUL only what stands before it is searched. */
  lemma NulHidesRest(a: string, b: string, str: string, size: nat)
    requires |str| > 0 && NUL !in a && '\n' !in a + b && |a| + 1 + |b| < size
    ensures Total(Lines(a + [NUL] + b, size), str) == |Greedy(a, str, 0)|
  {
    hide LineLength, Greedy, CString;
    var line := a + [NUL] + b;
    WholeLine(line, size);
    CStringStops(a, b);
    assert Lines(line, size) == [line] + Lines([], size);
  }

  lemma WholeLine(line: string, size: nat)
    requires line != [] && '\n' !in line && |line| < size && size >= 2
    ensures LineLength(line, size) == |line| && line[..|line|] == line && line[|line|..] == []
  {
    hide LineLength;
    var n := LineLength(line, size);
    assert line[n - 1] in line;
  }
}
