/** Incremental tailing of log files: complete lines are forwarded once, as they appear. */
module LogTailer {
  import opened Bytes
  import opened Lines
  import opened Splitting

  const CR: byte := 13

  datatype Event = Event(line: seq<byte>, src: string)

  /** What one look at a file yields: its size when opened, then its bytes when read.
      The file may change in between. */
  datatype Poll =
    | Unreadable
    | ReadFailed(statSize: nat)
    | Snapshot(statSize: nat, content: seq<byte>)

  /** How much of the first n bytes is left without the carriage returns at their end. */
  function TrimmedLength(s: seq<byte>, n: nat): (m: nat)
    requires n <= |s|
    ensures m <= n && (m == 0 || s[m - 1] != CR)
    ensures forall i :: m <= i < n ==> s[i] == CR
  {
    if n > 0 && s[n - 1] == CR then TrimmedLength(s, n - 1) else n
  }

  function TrimRightCR(s: seq<byte>): seq<byte> {
    s[..TrimmedLength(s, |s|)]
  }

  /** A line as forwarded: trailing carriage returns trimmed, nothing if none is left. */
  function Kept(line: seq<byte>): seq<seq<byte>> {
    var trimmed := TrimRightCR(line);
    if trimmed == [] then [] else [trimmed]
  }

  /** What a file's bytes amount to when they are taken in one go. */
  function LinesOf(s: seq<byte>): seq<seq<byte>> {
    LinesUpTo(Kept, s, |s|)
  }

  // ----- The tailer

  datatype State = State(cursors: map<string, nat>, out: seq<Event>)

  const START := State(map[], [])

  function Cursor(st: State, path: string): nat {
    if path in st.cursors then st.cursors[path] else 0
  }

  /** Where reading starts: a file smaller than the cursor is taken to be a new one. */
  function ReadBase(cursor: nat, statSize: nat): nat {
    if statSize < cursor then 0 else cursor
  }

  function Events(path: string, lines: seq<seq<byte>>): seq<Event> {
    seq(|lines|, i requires 0 <= i < |lines| => Event(lines[i], path))
  }

  /** What a poll that reads stores and forwards. */
  function AfterReading(st: State, path: string, base: nat, text: seq<byte>): State {
    State(st.cursors[path := base + CompleteEnd(text)], st.out + Events(path, LinesOf(text)))
  }

  /** One poll of one file. */
  function AfterPoll(st: State, path: string, poll: Poll): State {
    match poll
    case Unreadable => st
    case ReadFailed(_) => st
    case Snapshot(statSize, content) =>
      var base := ReadBase(Cursor(st, path), statSize);
      if statSize == base || base >= |content| then st
      else AfterReading(st, path, base, content[base..])
  }

  class LogTailer {
    var cursors: map<string, nat>
    var out: seq<Event>

    constructor ()
      ensures State(cursors, out) == START
    {
      cursors, out := map[], [];
    }

    method Tail(path: string, poll: Poll)
      modifies this
      ensures State(cursors, out) == AfterPoll(State(old(cursors), old(out)), path, poll)
    {
      if poll.Unreadable? {
        return;
      }
      var cursor := if path in cursors then cursors[path] else 0;
      if poll.statSize < cursor {
        cursor := 0;
      }
      if poll.statSize == cursor {
        return;
      }
      if poll.ReadFailed? || cursor >= |poll.content| {
        return;
      }
      ForwardText(path, cursor, poll.content[cursor..]);
    }

    method ForwardText(path: string, cursor: nat, text: seq<byte>)
      modifies this
      ensures State(cursors, out) == AfterReading(State(old(cursors), old(out)), path, cursor, text)
    {
      var advanced := ForwardLines(path, Split(text, LF));
      SplittingYieldsLines(Kept, text);
      cursors := cursors[path := cursor + advanced];
    }

    /** Forwards all parts but the last, which no newline ends, and adds up their lengths. */
    method ForwardLines(path: string, lines: seq<seq<byte>>) returns (advanced: nat)
      requires |lines| > 0
      modifies this`out
      ensures advanced == LengthUpTo(lines, |lines| - 1)
      ensures out == old(out) + Events(path, FlatMapUpTo(Kept, lines, |lines| - 1))
    {
      advanced := 0;
      var i := 0;
      while i < |lines|
        invariant 0 <= i < |lines|
        invariant advanced == LengthUpTo(lines, i)
        invariant out == old(out) + Events(path, FlatMapUpTo(Kept, lines, i))
      {
        if i == |lines| - 1 {
          break;
        }
        advanced := advanced + |lines[i]| + 1;
        ForwardLine(path, lines[i]);
        EventsTogether(path, FlatMapUpTo(Kept, lines, i), Kept(lines[i]));
        i := i + 1;
      }
    }

    method ForwardLine(path: string, rawLine: seq<byte>)
      modifies this`out
      ensures out == old(out) + Events(path, Kept(rawLine))
    {
      var line := TrimRightCR(rawLine);
      if line != [] {
        out := out + [Event(line, path)];
      }
    }
  }

  lemma EventsTogether(path: string, a: seq<seq<byte>>, b: seq<seq<byte>>)
    ensures Events(path, a + b) == Events(path, a) + Events(path, b)
  {
  }

  // ----- The output for one file

  function LineFor(path: string): Event -> seq<seq<byte>> {
    (e: Event) => if e.src == path then [e.line] else []
  }

  /** The lines forwarded for one file. */
  function OutOf(out: seq<Event>, path: string): seq<seq<byte>> {
    FlatMap(LineFor(path), out)
  }

  lemma OutOfEvents(path: string, lines: seq<seq<byte>>, other: string)
    ensures OutOf(Events(path, lines), other) == if path == other then lines else []
  {
    var events := Events(path, lines);
    if path == other {
      FlatMapOfSingletons(LineFor(other), events, lines, |lines|);
      assert lines[..|lines|] == lines;
    } else {
      FlatMapOfNothing(LineFor(other), events, |lines|);
    }
  }

  lemma OutOfMore(out: seq<Event>, path: string, lines: seq<seq<byte>>, other: string)
    ensures OutOf(out + Events(path, lines), other) == OutOf(out, other) + if path == other then lines else []
  {
    FlatMapTogether(LineFor(other), out, Events(path, lines));
    OutOfEvents(path, lines, other);
  }

  lemma ReadingForwardsText(st: State, path: string, base: nat, text: seq<byte>)
    ensures var st' := AfterReading(st, path, base, text);
            && Cursor(st', path) == base + CompleteEnd(text)
            && OutOf(st'.out, path) == OutOf(st.out, path) + LinesOf(text)
  {
    OutOfMore(st.out, path, LinesOf(text), path);
  }

  /** Polling one file leaves the cursor and the output of every other file alone. */
  lemma PollLeavesOtherFiles(st: State, path: string, poll: Poll, other: string)
    requires path != other
    ensures var st' := AfterPoll(st, path, poll);
            Cursor(st', other) == Cursor(st, other) && OutOf(st'.out, other) == OutOf(st.out, other)
  {
    if poll.Snapshot? {
      var base := ReadBase(Cursor(st, path), poll.statSize);
      if base < |poll.content| {
        OutOfMore(st.out, path, LinesOf(poll.content[base..]), other);
      }
    }
  }

  // ----- Exactly once, in order, whatever the schedule

  /** The tailer has forwarded, after some earlier output, exactly the lines of the file's
      history up to its cursor, which stands at a newline boundary. */
  ghost predicate Tracks(st: State, path: string, earlier: seq<seq<byte>>, history: seq<byte>) {
    && AtBoundary(history, Cursor(st, path))
    && OutOf(st.out, path) == earlier + LinesUpTo(Kept, history, Cursor(st, path))
  }

  /** A look at an append-only file: its bytes are a prefix of the history, at least what
      was seen before, and it only grew between being opened and being read. */
  ghost predicate AppendOnlyPoll(poll: Poll, seen: nat, history: seq<byte>) {
    poll.Snapshot? ==> seen <= poll.statSize <= |poll.content| <= |history| && poll.content == history[..|poll.content|]
  }

  lemma PollKeepsTrack(st: State, path: string, poll: Poll, seen: nat, earlier: seq<seq<byte>>, history: seq<byte>)
    requires Tracks(st, path, earlier, history) && Cursor(st, path) <= seen
    requires AppendOnlyPoll(poll, seen, history)
    ensures var st' := AfterPoll(st, path, poll);
            && Tracks(st', path, earlier, history)
            && (poll.Snapshot? ==> BoundaryUpTo(history, poll.statSize) <= Cursor(st', path) <= |poll.content|)
  {
    if poll.Snapshot? && poll.statSize != Cursor(st, path) && Cursor(st, path) < |poll.content| {
      ReadingKeepsTrack(st, path, poll.content, earlier, history);
      LinesOfPrefix(Kept, poll.content, history, poll.statSize);
      BoundaryIsMonotone(poll.content, poll.statSize, |poll.content|);
    }
  }

  lemma ReadingKeepsTrack(st: State, path: string, content: seq<byte>, earlier: seq<seq<byte>>, history: seq<byte>)
    requires Tracks(st, path, earlier, history)
    requires Cursor(st, path) <= |content| <= |history| && content == history[..|content|]
    ensures var st' := AfterReading(st, path, Cursor(st, path), content[Cursor(st, path)..]);
            Tracks(st', path, earlier, history) && Cursor(st', path) == CompleteEnd(content)
  {
    ReadingForwardsText(st, path, Cursor(st, path), content[Cursor(st, path)..]);
    OutputFollowsHistory(Kept, content, Cursor(st, path), history, earlier, OutOf(st.out, path));
  }

  // ----- Runs

  datatype Look = Look(path: string, poll: Poll)

  function Run(st: State, looks: seq<Look>): State
    decreases |looks|
  {
    if looks == [] then st else Run(AfterPoll(st, looks[0].path, looks[0].poll), looks[1..])
  }

  /** Looks at one file, among looks at any others, see an append-only history of it. */
  ghost predicate AppendOnly(looks: seq<Look>, path: string, seen: nat, history: seq<byte>)
    decreases |looks|
  {
    if looks == [] then true
    else if looks[0].path != path || !looks[0].poll.Snapshot? then AppendOnly(looks[1..], path, seen, history)
    else
      && AppendOnlyPoll(looks[0].poll, seen, history)
      && AppendOnly(looks[1..], path, |looks[0].poll.content|, history)
  }

  /** The size the file had when it was last opened and read. */
  function LastSize(looks: seq<Look>, path: string, size: nat): nat
    decreases |looks|
  {
    if looks == [] then size
    else if looks[0].path == path && looks[0].poll.Snapshot? then LastSize(looks[1..], path, looks[0].poll.statSize)
    else LastSize(looks[1..], path, size)
  }

  /** Tailing is schedule-independent. However the looks at an append-only file are placed
      among looks at other files, its forwarded lines are those of its whole history up to
      the cursor, and the cursor is past every newline the file had at the last look. */
  lemma {:induction false} TailingForwardsEachLineOnce(st: State, looks: seq<Look>, path: string, seen: nat,
                                                       earlier: seq<seq<byte>>, history: seq<byte>, size: nat)
    requires Tracks(st, path, earlier, history) && Cursor(st, path) <= seen
    requires AppendOnly(looks, path, seen, history)
    requires size <= |history| && BoundaryUpTo(history, size) <= Cursor(st, path)
    ensures Tracks(Run(st, looks), path, earlier, history)
    ensures LastSize(looks, path, size) <= |history|
    ensures BoundaryUpTo(history, LastSize(looks, path, size)) <= Cursor(Run(st, looks), path)
    decreases |looks|
  {
    if looks != [] {
      var look := looks[0];
      var st' := AfterPoll(st, look.path, look.poll);
      if look.path != path {
        PollLeavesOtherFiles(st, look.path, look.poll, path);
        TailingForwardsEachLineOnce(st', looks[1..], path, seen, earlier, history, size);
      } else if !look.poll.Snapshot? {
        TailingForwardsEachLineOnce(st', looks[1..], path, seen, earlier, history, size);
      } else {
        PollKeepsTrack(st, path, look.poll, seen, earlier, history);
        TailingForwardsEachLineOnce(st', looks[1..], path, |look.poll.content|, earlier, history, look.poll.statSize);
      }
    }
  }

  lemma TailingFromStart(looks: seq<Look>, path: string, history: seq<byte>)
    requires AppendOnly(looks, path, 0, history)
    ensures Tracks(Run(START, looks), path, [], history)
    ensures LastSize(looks, path, 0) <= |history|
    ensures BoundaryUpTo(history, LastSize(looks, path, 0)) <= Cursor(Run(START, looks), path)
  {
    TailingForwardsEachLineOnce(START, looks, path, 0, [], history, 0);
  }

  /** Once the last look has seen the last newline, the forwarded lines are exactly those of
      splitting the whole file, so any two schedules end with the same output. */
  lemma TailingCatchesUp(looks: seq<Look>, path: string, history: seq<byte>)
    requires AppendOnly(looks, path, 0, history)
    requires LastSize(looks, path, 0) <= |history| ==>
               CompleteEnd(history) <= BoundaryUpTo(history, LastSize(looks, path, 0))
    ensures var parts := Split(history, LF);
            OutOf(Run(START, looks).out, path) == FlatMapUpTo(Kept, parts, |parts| - 1)
  {
    TailingFromStart(looks, path, history);
    var c := Cursor(Run(START, looks), path);
    assert [] + LinesUpTo(Kept, history, c) == LinesUpTo(Kept, history, c);
    UnfinishedLineIsHeldBack(Kept, history, c, |history|);
    SplittingYieldsLines(Kept, history);
  }

  // ----- What is forwarded, read off the bytes

  /** The longest start of a raw line that does not end in a carriage return. */
  ghost predicate IsTrimmed(raw: seq<byte>, line: seq<byte>) {
    && line <= raw && (line == [] || line[|line| - 1] != CR)
    && forall i :: |line| <= i < |raw| ==> raw[i] == CR
  }

  ghost predicate OnlyReturns(raw: seq<byte>) {
    forall i :: 0 <= i < |raw| ==> raw[i] == CR
  }

  /** The lines are the raw ones in order, each trimmed, without those that hold carriage returns
      only. */
  ghost predicate AreForwarded(raw: seq<seq<byte>>, lines: seq<seq<byte>>) {
    if |raw| == 0 then lines == []
    else
      var n, m := |raw| - 1, |lines| - 1;
      if OnlyReturns(raw[n]) then AreForwarded(raw[..n], lines)
      else m >= 0 && IsTrimmed(raw[n], lines[m]) && AreForwarded(raw[..n], lines[..m])
  }

  function Terminated(raw: seq<seq<byte>>): seq<byte> {
    if |raw| == 0 then [] else Terminated(raw[..|raw| - 1]) + raw[|raw| - 1] + [LF]
  }

  /** A text is made up of these raw lines, each ended by a newline. */
  ghost predicate HoldsLines(text: seq<byte>, raw: seq<seq<byte>>) {
    text == Terminated(raw) && forall i :: 0 <= i < |raw| ==> LF !in raw[i]
  }

  lemma KeptIsTrimmed(raw: seq<byte>)
    ensures if OnlyReturns(raw) then Kept(raw) == []
            else |Kept(raw)| == 1 && IsTrimmed(raw, Kept(raw)[0])
  {
    var m := TrimmedLength(raw, |raw|);
    assert m > 0 ==> raw[m - 1] != CR;
  }

  lemma OneMoreRaw(raw: seq<seq<byte>>, lines: seq<seq<byte>>, last: seq<byte>)
    requires AreForwarded(raw, lines)
    ensures AreForwarded(raw + [last], lines + Kept(last))
  {
    KeptIsTrimmed(last);
    assert (raw + [last])[..|raw|] == raw;
    if OnlyReturns(last) {
      assert lines + Kept(last) == lines;
    } else {
      assert (lines + Kept(last))[..|lines|] == lines;
    }
  }

  lemma HoldsOneMore(text: seq<byte>, raw: seq<seq<byte>>, last: seq<byte>)
    requires HoldsLines(text, raw) && LF !in last
    ensures HoldsLines(text + last + [LF], raw + [last])
  {
    assert (raw + [last])[..|raw|] == raw;
  }

  lemma LastLine(s: seq<byte>, b: nat, n: nat)
    requires 0 < n <= |s| && s[n - 1] == LF && b == BoundaryUpTo(s, n - 1)
    ensures s[..b] + s[b..n - 1] + [LF] == s[..n] && LF !in s[b..n - 1]
  {
    BoundaryIsLastNewline(s, n - 1);
    var last := s[b..n - 1];
    assert forall i :: 0 <= i < |last| ==> last[i] == s[b + i];
  }

  lemma LinesUpToLast(s: seq<byte>, b: nat, n: nat)
    requires 0 < n <= |s| && s[n - 1] == LF && b == BoundaryUpTo(s, n - 1)
    ensures LinesUpTo(Kept, s, n) == LinesUpTo(Kept, s, b) + Kept(s[b..n - 1])
  {
    BoundaryIsLastNewline(s, n - 1);
    BoundaryUpToBoundary(s, b);
    UnfinishedLineIsHeldBack(Kept, s, b, n - 1);
  }

  lemma OneMoreLine(s: seq<byte>, b: nat, n: nat, before: seq<seq<byte>>)
    requires 0 < n <= |s| && s[n - 1] == LF && b == BoundaryUpTo(s, n - 1)
    requires HoldsLines(s[..b], before) && AreForwarded(before, LinesUpTo(Kept, s, b))
    ensures HoldsLines(s[..n], before + [s[b..n - 1]])
    ensures AreForwarded(before + [s[b..n - 1]], LinesUpTo(Kept, s, n))
  {
    LastLine(s, b, n);
    HoldsOneMore(s[..b], before, s[b..n - 1]);
    LinesUpToLast(s, b, n);
    OneMoreRaw(before, LinesUpTo(Kept, s, b), s[b..n - 1]);
  }

  /** What the lines up to a boundary amount to. */
  lemma {:induction false} LinesAreForwarded(s: seq<byte>, n: nat) returns (raw: seq<seq<byte>>)
    requires AtBoundary(s, n)
    ensures HoldsLines(s[..n], raw) && AreForwarded(raw, LinesUpTo(Kept, s, n))
  {
    if n == 0 {
      raw := [];
    } else {
      var b := BoundaryUpTo(s, n - 1);
      BoundaryIsLastNewline(s, n - 1);
      var before := LinesAreForwarded(s, b);
      OneMoreLine(s, b, n, before);
      raw := before + [s[b..n - 1]];
    }
  }

  lemma BoundaryUpToBoundary(s: seq<byte>, b: nat)
    requires AtBoundary(s, b)
    ensures BoundaryUpTo(s, b) == b
  {
  }

  /** What has been forwarded for a tracked file: its raw lines up to the cursor, trimmed. */
  lemma TrackedOutput(st: State, path: string, earlier: seq<seq<byte>>, history: seq<byte>)
    returns (raw: seq<seq<byte>>, lines: seq<seq<byte>>)
    requires Tracks(st, path, earlier, history)
    ensures HoldsLines(history[..Cursor(st, path)], raw) && AreForwarded(raw, lines)
    ensures OutOf(st.out, path) == earlier + lines
  {
    raw := LinesAreForwarded(history, Cursor(st, path));
    lines := LinesUpTo(Kept, history, Cursor(st, path));
  }

  /** However looks at an append-only file are placed among looks at others, what is forwarded for
      it is the raw lines of its history up to the cursor, each once, trimmed, and in order; and
      no newline that the last look saw lies behind the cursor. */
  lemma EveryLineIsForwardedOnce(looks: seq<Look>, path: string, history: seq<byte>)
    returns (raw: seq<seq<byte>>)
    requires AppendOnly(looks, path, 0, history)
    ensures var st := Run(START, looks);
            && Cursor(st, path) <= |history|
            && HoldsLines(history[..Cursor(st, path)], raw) && AreForwarded(raw, OutOf(st.out, path))
            && LastSize(looks, path, 0) <= |history|
            && forall i :: Cursor(st, path) <= i < LastSize(looks, path, 0) ==> history[i] != LF
  {
    TailingFromStart(looks, path, history);
    var st := Run(START, looks);
    var lines;
    raw, lines := TrackedOutput(st, path, [], history);
    assert [] + lines == lines;
    BoundaryIsLastNewline(history, LastSize(looks, path, 0));
  }

  lemma CrlfLine(word: seq<byte>)
    requires word != [] && CR !in word && LF !in word
    ensures var text := word + [CR, LF];
            LinesOf(text) == [word] && CompleteEnd(text) == |text| && LinesOf(text[..|word| + 1]) == []
            && CompleteEnd(text[..|word| + 1]) == 0
  {
    var text, n := word + [CR, LF], |word| + 1;
    var raw := text[..n];
    assert raw == word + [CR] && forall i :: 0 <= i < |word| ==> raw[i] == word[i];
    FirstLine(Kept, text, n);
    NoNewlineNoLine(Kept, raw, n);
    assert raw[|word| - 1] != CR && TrimmedLength(raw, |word|) == |word|;
    assert raw[..|word|] == word;
  }

  lemma FirstPoll(st: State, path: string, text: seq<byte>)
    requires Cursor(st, path) == 0 && text != []
    ensures var st' := Run(st, [Look(path, Snapshot(|text|, text))]);
            && OutOf(st'.out, path) == OutOf(st.out, path) + LinesOf(text)
            && Cursor(st', path) == CompleteEnd(text)
  {
    OneLook(st, Look(path, Snapshot(|text|, text)));
    assert text[0..] == text;
    ReadingForwardsText(st, path, 0, text);
  }

  lemma RunOfTwo(st: State, look: Look, next: Look)
    ensures Run(st, [look, next]) == Run(Run(st, [look]), [next])
  {
    OneLook(st, look);
    assert [look, next][1..] == [next];
  }

  /** A line that ends in CR LF is forwarded without either, also when a poll falls between the two
      bytes. */
  lemma CrlfLineIsForwarded(path: string, word: seq<byte>)
    requires word != [] && CR !in word && LF !in word
    ensures var text := word + [CR, LF];
            var early := text[..|word| + 1];
            var whole := Run(START, [Look(path, Snapshot(|text|, text))]);
            var split := Run(START, [Look(path, Snapshot(|early|, early)), Look(path, Snapshot(|text|, text))]);
            && OutOf(whole.out, path) == [word] && Cursor(whole, path) == |text|
            && OutOf(split.out, path) == [word] && Cursor(split, path) == |text|
  {
    var text, early := word + [CR, LF], (word + [CR, LF])[..|word| + 1];
    CrlfLine(word);
    assert OutOf([], path) == [] && [] + LinesOf(early) == [] && [] + [word] == [word];
    FirstPoll(START, path, text);
    FirstPoll(START, path, early);
    RunOfTwo(START, Look(path, Snapshot(|early|, early)), Look(path, Snapshot(|text|, text)));
    FirstPoll(Run(START, [Look(path, Snapshot(|early|, early))]), path, text);
  }

  // ----- A file that is replaced by another

  /** What one poll of a replaced file forwards when its size is that of its content. */
  function ForwardedAfterReplacement(cursor: nat, g: seq<byte>): seq<seq<byte>> {
    var base := ReadBase(cursor, |g|);
    if |g| == base then [] else LinesOf(g[base..])
  }

  lemma PollAfterReplacement(st: State, path: string, g: seq<byte>)
    ensures OutOf(AfterPoll(st, path, Snapshot(|g|, g)).out, path) ==
            OutOf(st.out, path) + ForwardedAfterReplacement(Cursor(st, path), g)
  {
    var base := ReadBase(Cursor(st, path), |g|);
    if |g| != base {
      ReadingForwardsText(st, path, base, g[base..]);
    }
  }

  /** An empty file is passed over with the cursor where it was. */
  lemma EmptyPollChangesNothing(st: State, path: string)
    ensures AfterPoll(st, path, Snapshot(0, [])) == st
  {
  }

  /** The lines that looks at a file add to what had been forwarded for it are given ones. */
  ghost predicate Forwards(st: State, path: string, polls: seq<Poll>, lines: seq<seq<byte>>) {
    OutOf(Run(st, seq(|polls|, i requires 0 <= i < |polls| => Look(path, polls[i]))).out, path)
    == OutOf(st.out, path) + lines
  }

  /** A poll that sees a replacement forwards it whole, whatever its content, exactly when its
      size is below the old cursor (or too small to hold a line at all). Having seen the file
      empty before makes no difference: one cut to nothing and regrown to the old cursor loses
      lines. */
  lemma ReplacementForwardedWholeIff(st: State, path: string, n: nat)
    requires Cursor(st, path) > 0
    ensures (forall g: seq<byte> :: |g| == n ==> Forwards(st, path, [Snapshot(|g|, g)], LinesOf(g)))
            <==> n < Cursor(st, path) || n <= 1
    ensures (forall g: seq<byte> :: |g| == n ==> Forwards(st, path, [Snapshot(0, []), Snapshot(|g|, g)], LinesOf(g)))
            <==> n < Cursor(st, path) || n <= 1
  {
    var cursor := Cursor(st, path);
    WholeIff(cursor, n);
    forall g: seq<byte> | |g| == n
      ensures Forwards(st, path, [Snapshot(|g|, g)], LinesOf(g)) <==> ForwardedAfterReplacement(cursor, g) == LinesOf(g)
      ensures Forwards(st, path, [Snapshot(0, []), Snapshot(|g|, g)], LinesOf(g))
              <==> ForwardedAfterReplacement(cursor, g) == LinesOf(g)
    {
      PollsOfReplacement(st, path, g);
    }
  }

  lemma PollsOfReplacement(st: State, path: string, g: seq<byte>)
    ensures var whole := ForwardedAfterReplacement(Cursor(st, path), g) == LinesOf(g);
            && (Forwards(st, path, [Snapshot(|g|, g)], LinesOf(g)) <==> whole)
            && (Forwards(st, path, [Snapshot(0, []), Snapshot(|g|, g)], LinesOf(g)) <==> whole)
  {
    var look, first := Look(path, Snapshot(|g|, g)), Look(path, Snapshot(0, []));
    PollAfterReplacement(st, path, g);
    EmptyPollChangesNothing(st, path);
    OneLook(st, look);
    assert [first, look][1..] == [look];
    var polls, two := [Snapshot(|g|, g)], [Snapshot(0, []), Snapshot(|g|, g)];
    assert seq(|polls|, i requires 0 <= i < |polls| => Look(path, polls[i])) == [look];
    assert seq(|two|, i requires 0 <= i < |two| => Look(path, two[i])) == [first, look];
    assert Run(st, [first, look]) == Run(st, [look]);
    SamePrefix(OutOf(st.out, path), ForwardedAfterReplacement(Cursor(st, path), g), LinesOf(g));
  }

  lemma OneLook(st: State, look: Look)
    ensures Run(st, [look]) == AfterPoll(st, look.path, look.poll)
  {
    assert [look][1..] == [];
  }

  lemma SamePrefix(front: seq<seq<byte>>, a: seq<seq<byte>>, b: seq<seq<byte>>)
    ensures front + a == front + b <==> a == b
  {
    if front + a == front + b {
      CancelHead(front, a, b);
    }
  }

  lemma WholeIff(cursor: nat, n: nat)
    requires cursor > 0
    ensures (forall g: seq<byte> :: |g| == n ==> ForwardedAfterReplacement(cursor, g) == LinesOf(g)) <==>
            n < cursor || n <= 1
  {
    if n < cursor {
      forall g: seq<byte> | |g| == n ensures ForwardedAfterReplacement(cursor, g) == LinesOf(g) {
        assert g[0..] == g;
      }
    } else if n <= 1 {
      forall g: seq<byte> | |g| == n ensures ForwardedAfterReplacement(cursor, g) == LinesOf(g) {
        TinyFileHasNoLine(g);
      }
    } else {
      var g := OneLineFile(n - 1);
      OneLineFileHasOneLine(n - 1);
      if cursor < n {
        assert g[cursor..] == OneLineFile(n - 1 - cursor);
        OneLineFileHasOneLine(n - 1 - cursor);
      }
    }
  }

  function OneLineFile(n: nat): (g: seq<byte>)
    ensures |g| == n + 1
  {
    seq(n, _ => 0x78) + [LF]
  }

  lemma OneLineFileHasOneLine(n: nat)
    ensures LinesOf(OneLineFile(n)) == if n == 0 then [] else [OneLineFile(n)[..n]]
  {
    var g := OneLineFile(n);
    FirstLine(Kept, g, n);
    assert TrimmedLength(g[..n], n) == n;
    assert g[..n][..n] == g[..n];
  }

  lemma TinyFileHasNoLine(g: seq<byte>)
    requires |g| <= 1
    ensures LinesOf(g) == []
  {
    if |g| == 1 && g[0] == LF {
      FirstLine(Kept, g, 0);
    } else {
      NoNewlineNoLine(Kept, g, |g|);
    }
  }

  /** A replaced file noticed by its smaller size is tracked from its start like a new one:
      everything forwarded before stays, and its own lines follow. */
  lemma NoticedReplacementIsTracked(st: State, path: string, g: seq<byte>)
    requires 0 < |g| < Cursor(st, path)
    ensures Tracks(AfterPoll(st, path, Snapshot(|g|, g)), path, OutOf(st.out, path), g)
  {
    var restarted := State(st.cursors[path := 0], st.out);
    var earlier := OutOf(st.out, path);
    assert earlier + [] == earlier;
    ReadingKeepsTrack(restarted, path, g, earlier, g);
    assert restarted.cursors[path := CompleteEnd(g[0..])] == st.cursors[path := CompleteEnd(g[0..])];
  }
}
