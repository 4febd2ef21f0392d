/** The newline-terminated lines of a text that grows at its end. */
module Lines {
  import opened Bytes
  import opened Splitting

  const LF: byte := 10

  /** The offset just past the last newline among the first n bytes, or 0. */
  function BoundaryUpTo(s: seq<byte>, n: nat): (end: nat)
    requires n <= |s|
    ensures end <= n
  {
    if n == 0 then 0 else if s[n - 1] == LF then n else BoundaryUpTo(s, n - 1)
  }

  function CompleteEnd(s: seq<byte>): (end: nat)
    ensures end <= |s|
  {
    BoundaryUpTo(s, |s|)
  }

  predicate AtBoundary(s: seq<byte>, n: nat) {
    n <= |s| && (n == 0 || s[n - 1] == LF)
  }

  /** What f yields for each line ended by a newline among the first n bytes, in order. */
  function LinesUpTo<L>(f: seq<byte> -> seq<L>, s: seq<byte>, n: nat): seq<L>
    requires n <= |s|
  {
    if n == 0 then []
    else if s[n - 1] != LF then LinesUpTo(f, s, n - 1)
    else LinesUpTo(f, s, n - 1) + f(s[BoundaryUpTo(s, n - 1)..n - 1])
  }

  lemma {:induction false} BoundaryIsLastNewline(s: seq<byte>, n: nat)
    requires n <= |s|
    ensures AtBoundary(s, BoundaryUpTo(s, n))
    ensures forall i :: BoundaryUpTo(s, n) <= i < n ==> s[i] != LF
  {
    if n > 0 && s[n - 1] != LF {
      BoundaryIsLastNewline(s, n - 1);
    }
  }

  lemma {:induction false} BoundaryIsMonotone(s: seq<byte>, m: nat, n: nat)
    requires m <= n <= |s|
    ensures BoundaryUpTo(s, m) <= BoundaryUpTo(s, n)
  {
    if m < n {
      BoundaryIsMonotone(s, m, n - 1);
    }
  }

  lemma {:induction false} LinesOfPrefix<L>(f: seq<byte> -> seq<L>, s: seq<byte>, t: seq<byte>, n: nat)
    requires n <= |s| <= |t| && s == t[..|s|]
    ensures BoundaryUpTo(s, n) == BoundaryUpTo(t, n)
    ensures LinesUpTo(f, s, n) == LinesUpTo(f, t, n)
  {
    if n > 0 {
      LinesOfPrefix(f, s, t, n - 1);
      var b := BoundaryUpTo(s, n - 1);
      assert s[n - 1] == t[n - 1];
      assert s[b..n - 1] == t[b..n - 1];
    }
  }

  /** Bytes after the last newline contribute nothing yet. */
  lemma {:induction false} UnfinishedLineIsHeldBack<L>(f: seq<byte> -> seq<L>, s: seq<byte>, m: nat, n: nat)
    requires m <= n <= |s| && BoundaryUpTo(s, n) <= m
    ensures LinesUpTo(f, s, n) == LinesUpTo(f, s, m)
  {
    if n > m {
      UnfinishedLineIsHeldBack(f, s, m, n - 1);
    }
  }

  /** After a newline boundary, lines are found as if the text started there. */
  lemma {:induction false} LinesAfterBoundary<L>(f: seq<byte> -> seq<L>, s: seq<byte>, cut: nat,
                                                  text: seq<byte>, n: nat)
    requires AtBoundary(s, cut) && s[cut..] == text && n <= |text|
    ensures BoundaryUpTo(s, cut + n) == cut + BoundaryUpTo(text, n)
    ensures LinesUpTo(f, s, cut + n) == LinesUpTo(f, s, cut) + LinesUpTo(f, text, n)
  {
    if n > 0 {
      LinesAfterBoundary(f, s, cut, text, n - 1);
      assert s[cut + n - 1] == text[n - 1];
      if text[n - 1] == LF {
        LineAfterBoundary(f, s, cut, text, n);
      }
    }
  }

  /** The same line ends there in the text and behind the boundary. */
  lemma LineAfterBoundary<L>(f: seq<byte> -> seq<L>, s: seq<byte>, cut: nat, text: seq<byte>, n: nat)
    requires cut <= |s| && s[cut..] == text && 0 < n <= |text| && text[n - 1] == s[cut + n - 1] == LF
    requires BoundaryUpTo(s, cut + n - 1) == cut + BoundaryUpTo(text, n - 1)
    requires LinesUpTo(f, s, cut + n - 1) == LinesUpTo(f, s, cut) + LinesUpTo(f, text, n - 1)
    ensures BoundaryUpTo(s, cut + n) == cut + BoundaryUpTo(text, n)
    ensures LinesUpTo(f, s, cut + n) == LinesUpTo(f, s, cut) + LinesUpTo(f, text, n)
  {
    var b := BoundaryUpTo(text, n - 1);
    var line := text[b..n - 1];
    assert s[cut + b..cut + n - 1] == line;
    assert LinesUpTo(f, s, cut + n) == LinesUpTo(f, s, cut + n - 1) + f(line);
    ConcatIsAssociative(LinesUpTo(f, s, cut), LinesUpTo(f, text, n - 1), f(line));
  }

  /** What a text holds up to its last newline, taken in two pieces cut at a boundary. */
  lemma LinesFromBoundary<L>(f: seq<byte> -> seq<L>, s: seq<byte>, cut: nat)
    requires AtBoundary(s, cut)
    ensures AtBoundary(s, CompleteEnd(s)) && cut + CompleteEnd(s[cut..]) == CompleteEnd(s)
    ensures LinesUpTo(f, s, CompleteEnd(s)) == LinesUpTo(f, s, cut) + LinesUpTo(f, s[cut..], |s[cut..]|)
  {
    var text := s[cut..];
    assert cut + |text| == |s|;
    LinesAfterBoundary(f, s, cut, text, |text|);
    BoundaryIsLastNewline(s, |s|);
    UnfinishedLineIsHeldBack(f, s, CompleteEnd(s), |s|);
  }

  /** Output that holds the lines of a history up to a cut grows to hold those up to the last
      newline of some content read from the cut. */
  lemma OutputFollowsHistory<L>(f: seq<byte> -> seq<L>, content: seq<byte>, cut: nat, history: seq<byte>,
                             earlier: seq<L>, out: seq<L>)
    requires cut <= |content| <= |history| && content == history[..|content|] && AtBoundary(history, cut)
    requires out == earlier + LinesUpTo(f, history, cut)
    ensures var text, end := content[cut..], CompleteEnd(content);
            && cut + CompleteEnd(text) == end && AtBoundary(history, end)
            && out + LinesUpTo(f, text, |text|) == earlier + LinesUpTo(f, history, end)
  {
    var text, end := content[cut..], CompleteEnd(content);
    LinesFromBoundary(f, content, cut);
    LinesOfPrefix(f, content, history, end);
    LinesOfPrefix(f, content, history, cut);
    ConcatIsAssociative(earlier, LinesUpTo(f, history, cut), LinesUpTo(f, text, |text|));
  }

  lemma {:induction false} NoNewlineNoLine<L>(f: seq<byte> -> seq<L>, s: seq<byte>, n: nat)
    requires n <= |s| && forall i :: 0 <= i < n ==> s[i] != LF
    ensures BoundaryUpTo(s, n) == 0 && LinesUpTo(f, s, n) == []
  {
    if n > 0 {
      NoNewlineNoLine(f, s, n - 1);
    }
  }

  /** The first line of a text. */
  lemma FirstLine<L>(f: seq<byte> -> seq<L>, s: seq<byte>, n: nat)
    requires n < |s| && s[n] == LF && forall i :: 0 <= i < n ==> s[i] != LF
    ensures AtBoundary(s, n + 1) && BoundaryUpTo(s, n + 1) == n + 1
    ensures LinesUpTo(f, s, n + 1) == f(s[..n])
  {
    NoNewlineNoLine(f, s, n);
    assert s[0..n] == s[..n];
  }

  // ----- The same lines by splitting the whole text

  function LengthUpTo(lines: seq<seq<byte>>, n: nat): nat
    requires n <= |lines|
  {
    if n == 0 then 0 else LengthUpTo(lines, n - 1) + |lines[n - 1]| + 1
  }

  lemma {:induction false} LengthSuffix(head: seq<byte>, parts: seq<seq<byte>>, n: nat)
    requires n <= |parts|
    ensures LengthUpTo([head] + parts, 1 + n) == |head| + 1 + LengthUpTo(parts, n)
  {
    if n > 0 {
      LengthSuffix(head, parts, n - 1);
    }
  }

  lemma FirstPart<L>(f: seq<byte> -> seq<L>, s: seq<byte>, head: seq<byte>, tail: seq<byte>)
    requires LF !in head && s == head + ([LF] + tail)
    ensures var parts, rest := Split(s, LF), Split(tail, LF);
            && |parts| == |rest| + 1
            && FlatMapUpTo(f, parts, |parts| - 1) == f(head) + FlatMapUpTo(f, rest, |rest| - 1)
            && LengthUpTo(parts, |parts| - 1) == |head| + 1 + LengthUpTo(rest, |rest| - 1)
  {
    var rest := Split(tail, LF);
    SplitFirst(head, tail, LF);
    FlatMapSuffix(f, [head], rest, |rest| - 1);
    assert FlatMap(f, [head]) == FlatMapUpTo(f, [head], 0) + f(head);
    LengthSuffix(head, rest, |rest| - 1);
  }

  /** Splitting at newlines and leaving out the unfinished part gives the lines of a text and its
      last boundary. */
  ghost predicate SplitsIntoLines<L>(f: seq<byte> -> seq<L>, s: seq<byte>) {
    var parts := Split(s, LF);
    && FlatMapUpTo(f, parts, |parts| - 1) == LinesUpTo(f, s, |s|)
    && LengthUpTo(parts, |parts| - 1) == CompleteEnd(s)
  }

  lemma LinesBehindFirst<L>(f: seq<byte> -> seq<L>, s: seq<byte>, head: seq<byte>, tail: seq<byte>)
    requires LF !in head && s == head + ([LF] + tail)
    ensures LinesUpTo(f, s, |s|) == f(head) + LinesUpTo(f, tail, |tail|)
    ensures CompleteEnd(s) == |head| + 1 + CompleteEnd(tail)
  {
    var n := |head|;
    assert s[..n] == head && s[n] == LF && s[n + 1..] == tail;
    assert forall i :: 0 <= i < n ==> s[i] == head[i];
    FirstLine(f, s, n);
    LinesAfterBoundary(f, s, n + 1, tail, |tail|);
  }

  lemma FirstLineSplits<L>(f: seq<byte> -> seq<L>, s: seq<byte>, head: seq<byte>, tail: seq<byte>)
    requires LF !in head && s == head + ([LF] + tail) && SplitsIntoLines(f, tail)
    ensures SplitsIntoLines(f, s)
  {
    FirstPart(f, s, head, tail);
    LinesBehindFirst(f, s, head, tail);
  }

  lemma FirstNewline(s: seq<byte>) returns (n: nat)
    requires LF in s
    ensures n < |s| && s[n] == LF && forall i :: 0 <= i < n ==> s[i] != LF
    ensures LF !in s[..n] && s == s[..n] + ([LF] + s[n + 1..])
  {
    n := 0;
    while s[n] != LF
      invariant n < |s| && forall i :: 0 <= i < n ==> s[i] != LF
      decreases |s| - n
    {
      n := n + 1;
    }
  }

  lemma {:induction false} TextSplitsIntoLines<L>(f: seq<byte> -> seq<L>, s: seq<byte>)
    ensures SplitsIntoLines(f, s)
    decreases |s|
  {
    if LF in s {
      var n := FirstNewline(s);
      TextSplitsIntoLines(f, s[n + 1..]);
      FirstLineSplits(f, s, s[..n], s[n + 1..]);
    } else {
      SplitFree(s, LF);
      NoNewlineNoLine(f, s, |s|);
    }
  }

  /** Splitting at newlines and leaving out the unfinished last part gives the same lines,
      and their lengths add up to the last boundary. */
  lemma SplittingYieldsLines<L>(f: seq<byte> -> seq<L>, s: seq<byte>)
    ensures var parts := Split(s, LF);
            && FlatMapUpTo(f, parts, |parts| - 1) == LinesUpTo(f, s, |s|)
            && LengthUpTo(parts, |parts| - 1) == CompleteEnd(s)
  {
    TextSplitsIntoLines(f, s);
  }
}
