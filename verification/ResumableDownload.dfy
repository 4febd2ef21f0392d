/**
 * Downloading one file to disk, resuming from what an earlier attempt left there. SHA-1 is
 * taken to be free of collisions, so an expected digest stands for the one content it has.
 */
module ResumableDownload {
  import opened Bytes
  import opened Wrappers

  type Content = seq<byte>

  /** What the listing says about a file: its size, if positive, and its digest, if known. */
  datatype File = File(size: int, sha1: Option<Content>)

  datatype Status = OK | PartialContent | RangeNotSatisfiable | OtherStatus

  /** A server's answer: the body bytes that arrived, and whether the transfer broke off. */
  datatype Reply =
    | NoConnection
    | Response(status: Status, body: Content, cut: bool)

  datatype Error = ConnectionFailed | HttpError | TransferCut | DigestMismatch

  datatype Outcome = Outcome(disk: Option<Content>, result: Result<nat, Error>)

  // ----- One attempt

  predicate HasDigest(content: Content, f: File) {
    f.sha1.None? || content == f.sha1.value
  }

  /** Whether the file on disk is taken for a finished download. */
  predicate AlreadyComplete(disk: Option<Content>, f: File) {
    && disk.Some?
    && !(f.size > 0 && |disk.value| != f.size)
    && (if f.sha1.Some? then disk.value == f.sha1.value else f.size > 0 && |disk.value| == f.size)
  }

  function ResumeFrom(disk: Option<Content>): nat {
    if disk.Some? then |disk.value| else 0
  }

  /** What writing a reply's body leaves: a full answer replaces the file, a partial one is
      appended to it. */
  function Written(disk: Option<Content>, status: Status, body: Content): Content {
    if status.OK? || disk.None? then body else disk.value + body
  }

  predicate RangeRefused(first: Reply) {
    first.Response? && first.status.RangeNotSatisfiable?
  }

  /** The reply whose body is written: the second one, to a request without a range, after
      the range was refused. */
  function FinalReply(first: Reply, second: Reply): Reply {
    if RangeRefused(first) then second else first
  }

  function Attempt(disk: Option<Content>, f: File, first: Reply, second: Reply): Outcome {
    if AlreadyComplete(disk, f) then Outcome(disk, Ok(|disk.value|))
    else
      var reply := FinalReply(first, second);
      if reply.NoConnection? then Outcome(disk, Err(ConnectionFailed))
      else if !reply.status.OK? && !reply.status.PartialContent? then Outcome(disk, Err(HttpError))
      else
        var content := Written(disk, reply.status, reply.body);
        if reply.cut then Outcome(Some(content), Err(TransferCut))
        else if !HasDigest(content, f) then Outcome(None, Err(DigestMismatch))
        else
          var from := if reply.status.OK? || RangeRefused(first) then 0 else ResumeFrom(disk);
          Outcome(Some(content), Ok(from + |reply.body|))
  }

  class Disk {
    var file: Option<Content>

    method DownloadOne(f: File, first: Reply, second: Reply) returns (r: Result<nat, Error>)
      modifies this
      ensures Outcome(file, r) == Attempt(old(file), f, first, second)
    {
      if AlreadyComplete(file, f) {
        return Ok(|file.value|);
      }
      var resumeFrom := 0;
      if file.Some? {
        resumeFrom := |file.value|;
      }
      var resp := first;
      if resp.NoConnection? {
        return Err(ConnectionFailed);
      }
      if resp.status.RangeNotSatisfiable? {
        resumeFrom := 0;
        resp := second;
        if resp.NoConnection? {
          return Err(ConnectionFailed);
        }
      }
      if !resp.status.OK? && !resp.status.PartialContent? {
        return Err(HttpError);
      }
      if resp.status.OK? || file.None? {
        file := Some([]);
      }
      if resp.status.OK? {
        resumeFrom := 0;
      }
      assert [] + resp.body == resp.body;
      file := Some(file.value + resp.body);
      if resp.cut {
        return Err(TransferCut);
      }
      if f.sha1.Some? && file.value != f.sha1.value {
        file := None;
        return Err(DigestMismatch);
      }
      return Ok(resumeFrom + |resp.body|);
    }
  }

  // ----- Servers

  /** Bytes that arrive in order: all of them, unless the transfer broke off. */
  predicate IsTransfer(source: Content, body: Content, cut: bool) {
    body <= source && (!cut ==> body == source)
  }

  /** An answer of a server that holds remote, to a request for the bytes from an offset on
      (0 asks for the whole file). It may ignore the range and may fail or break off. */
  predicate Faithful(remote: Content, from: nat, reply: Reply) {
    match reply
    case NoConnection => true
    case Response(status, body, cut) =>
      match status
      case OK => IsTransfer(remote, body, cut)
      case PartialContent => 0 < from < |remote| && IsTransfer(remote[from..], body, cut)
      case RangeNotSatisfiable => 0 < from && |remote| <= from
      case OtherStatus => true
  }

  predicate FaithfulAttempt(remote: Content, disk: Option<Content>, first: Reply, second: Reply) {
    Faithful(remote, ResumeFrom(disk), first) && Faithful(remote, 0, second)
  }

  /** A reply that brings all it has to bring. */
  predicate Delivers(reply: Reply) {
    reply.Response? && (reply.status.OK? || reply.status.PartialContent?) && !reply.cut
  }

  /** An attempt that no broken connection or error status got in the way of: the first reply
      delivers, or it refuses the range and the second one does. */
  predicate Uncut(first: Reply, second: Reply) {
    Delivers(first) || (first.Response? && first.status.RangeNotSatisfiable? && Delivers(second))
  }

  predicate IsPartOf(disk: Option<Content>, remote: Content) {
    disk.Some? ==> disk.value <= remote
  }

  // ----- What one attempt promises

  /** With a digest, success means exactly the expected content, whatever the server sent
      and whatever was on disk before; and content that fails the digest never stays. */
  lemma SuccessHasDigest(disk: Option<Content>, f: File, first: Reply, second: Reply)
    requires f.sha1.Some?
    ensures var o := Attempt(disk, f, first, second);
            && (o.result.Ok? ==> o.disk == f.sha1)
            && (o.result == Err(DigestMismatch) ==> o.disk == None)
  {
  }

  /** Every attempt against a faithful server keeps the disk a prefix of the remote file. */
  lemma AttemptKeepsPrefix(remote: Content, disk: Option<Content>, f: File, first: Reply, second: Reply)
    requires FaithfulAttempt(remote, disk, first, second) && IsPartOf(disk, remote)
    ensures IsPartOf(Attempt(disk, f, first, second).disk, remote)
  {
    var reply := FinalReply(first, second);
    if reply.Response? && reply.status.PartialContent? && disk.Some? {
      assert disk.value + reply.body <= disk.value + remote[|disk.value|..];
      assert disk.value + remote[|disk.value|..] == remote;
    }
  }

  /** The reported size is that of the file. */
  lemma ReportedSizeIsFileSize(remote: Content, disk: Option<Content>, f: File, first: Reply, second: Reply)
    requires FaithfulAttempt(remote, disk, first, second)
    ensures var o := Attempt(disk, f, first, second); o.result.Ok? ==> o.disk.Some? && o.result.value == |o.disk.value|
  {
  }

  /** A refused range is asked for again as a whole: the answer replaces whatever was on disk. */
  lemma RefusedRangeIsRetried(remote: Content, disk: Option<Content>, f: File, body: Content, cut: bool)
    requires !AlreadyComplete(disk, f) && (f.sha1 == Some(remote) || f.sha1 == None)
    ensures Attempt(disk, f, Response(RangeNotSatisfiable, body, cut), Response(OK, remote, false)) ==
            Outcome(Some(remote), Ok(|remote|))
  {
  }

  /** Three bytes left over from another file, and a remote file of two: the range is refused, and
      the file fetched whole. */
  method RefetchLeftover(d: Disk) returns (r: Result<nat, Error>)
    requires d.file == Some([9, 9, 9])
    modifies d
    ensures d.file == Some([1, 2]) && r == Ok(2)
  {
    ghost var remote: Content := [1, 2];
    r := d.DownloadOne(File(2, Some([1, 2])), Response(RangeNotSatisfiable, [], false), Response(OK, [1, 2], false));
    RefusedRangeIsRetried(remote, Some([9, 9, 9]), File(2, Some(remote)), [], false);
  }

  /** What a reply to the first request does to a file that is not complete: an answer with the
      whole file replaces it, one with the rest is appended, also when either breaks off, and
      anything else leaves it alone. Content that fails the digest is removed. */
  lemma FirstReplyDecides(disk: Option<Content>, f: File, body: Content, cut: bool, second: Reply)
    requires !AlreadyComplete(disk, f)
    ensures var had := if disk.Some? then disk.value else [];
            && Attempt(disk, f, NoConnection, second) == Outcome(disk, Err(ConnectionFailed))
            && Attempt(disk, f, Response(OtherStatus, body, cut), second) == Outcome(disk, Err(HttpError))
            && Attempt(disk, f, Response(OK, body, cut), second) == Received(f, body, cut)
            && Attempt(disk, f, Response(PartialContent, body, cut), second) == Received(f, had + body, cut)
  {
    assert [] + body == body;
  }

  /** The file and the result once these bytes are on disk. */
  function Received(f: File, content: Content, cut: bool): Outcome {
    if cut then Outcome(Some(content), Err(TransferCut))
    else if f.sha1.None? || f.sha1 == Some(content) then Outcome(Some(content), Ok(|content|))
    else Outcome(None, Err(DigestMismatch))
  }

  /** Nothing that was listed makes a prefix of the remote file pass for all of it. */
  predicate ListsWhole(f: File, remote: Content) {
    f.sha1 == Some(remote) || (f.sha1 == None && (f.size <= 0 || |remote| <= f.size))
  }

  /** An uncut attempt from a prefix completes the file, with a digest or without. */
  lemma UncutAttemptCompletesPrefix(remote: Content, disk: Option<Content>, f: File, first: Reply, second: Reply)
    requires FaithfulAttempt(remote, disk, first, second) && IsPartOf(disk, remote)
    requires ListsWhole(f, remote) && Uncut(first, second)
    ensures Attempt(disk, f, first, second) == Outcome(Some(remote), Ok(|remote|))
  {
    if AlreadyComplete(disk, f) {
      assert disk.value == remote;
    } else {
      var reply := FinalReply(first, second);
      if reply.status.PartialContent? {
        assert disk.value + remote[|disk.value|..] == remote;
      }
    }
  }

  /** From any disk state, an uncut attempt either completes the file or clears the disk. */
  lemma UncutAttemptCompletesOrClears(remote: Content, disk: Option<Content>, f: File, first: Reply, second: Reply)
    requires FaithfulAttempt(remote, disk, first, second)
    requires f.sha1 == Some(remote) && Uncut(first, second)
    ensures var o := Attempt(disk, f, first, second);
            o == Outcome(Some(remote), Ok(|remote|)) || o == Outcome(None, Err(DigestMismatch))
  {
    ReportedSizeIsFileSize(remote, disk, f, first, second);
  }

  // ----- Without a digest

  /** Without a digest, a prefix is only ever reported complete when it is, against every
      faithful server, exactly when the listed size is absent or not too small. */
  lemma SizeMustNotBeTooSmall(remote: Content, size: int)
    ensures (forall disk, first, second :: FaithfulAttempt(remote, disk, first, second) && IsPartOf(disk, remote) ==>
               SucceedsOnlyWith(remote, disk, File(size, None), first, second)) <==>
            size <= 0 || |remote| <= size
  {
    if size <= 0 || |remote| <= size {
      forall disk, first, second | FaithfulAttempt(remote, disk, first, second) && IsPartOf(disk, remote)
        ensures SucceedsOnlyWith(remote, disk, File(size, None), first, second)
      {
        PrefixSucceedsOnlyWhole(remote, disk, size, first, second);
      }
    } else {
      var disk := Some(remote[..size]);
      assert FaithfulAttempt(remote, disk, NoConnection, NoConnection) && IsPartOf(disk, remote);
      assert !SucceedsOnlyWith(remote, disk, File(size, None), NoConnection, NoConnection);
    }
  }

  predicate SucceedsOnlyWith(remote: Content, disk: Option<Content>, f: File, first: Reply, second: Reply) {
    var o := Attempt(disk, f, first, second);
    o.result.Ok? ==> o.disk == Some(remote)
  }

  lemma PrefixSucceedsOnlyWhole(remote: Content, disk: Option<Content>, size: int, first: Reply, second: Reply)
    requires size <= 0 || |remote| <= size
    requires FaithfulAttempt(remote, disk, first, second) && IsPartOf(disk, remote)
    ensures SucceedsOnlyWith(remote, disk, File(size, None), first, second)
  {
    var reply := FinalReply(first, second);
    if AlreadyComplete(disk, File(size, None)) {
      assert disk.value == remote;
    } else if reply.Response? && reply.status.PartialContent? {
      assert disk.value + remote[|disk.value|..] == remote;
    }
  }

  // ----- Runs of attempts

  datatype Replies = Replies(first: Reply, second: Reply)

  function RunAttempts(disk: Option<Content>, f: File, run: seq<Replies>): Option<Content>
    decreases |run|
  {
    if run == [] then disk else RunAttempts(Attempt(disk, f, run[0].first, run[0].second).disk, f, run[1..])
  }

  predicate FaithfulRun(remote: Content, disk: Option<Content>, f: File, run: seq<Replies>)
    decreases |run|
  {
    run == [] ||
    (&& FaithfulAttempt(remote, disk, run[0].first, run[0].second)
     && FaithfulRun(remote, Attempt(disk, f, run[0].first, run[0].second).disk, f, run[1..]))
  }

  function UncutCount(run: seq<Replies>): nat {
    if run == [] then 0
    else (if Uncut(run[0].first, run[0].second) then 1 else 0) + UncutCount(run[1..])
  }

  /** The listed size does not make a complete file look unfinished. */
  predicate SizeFits(f: File, remote: Content) {
    f.size <= 0 || f.size == |remote|
  }

  /** A complete file stays on disk through any further attempts exactly when the listed
      size fits it; otherwise a cut re-download can lose it. */
  lemma CompleteFileIsKeptIff(remote: Content, f: File)
    requires f.sha1 == Some(remote)
    ensures (forall first, second :: FaithfulAttempt(remote, Some(remote), first, second) ==>
               Attempt(Some(remote), f, first, second).disk == Some(remote)) <==>
            SizeFits(f, remote) || remote == []
  {
    if !SizeFits(f, remote) && remote != [] {
      var refused := Response(RangeNotSatisfiable, [], false);
      var broken := Response(OK, [], true);
      assert FaithfulAttempt(remote, Some(remote), refused, broken);
      assert Attempt(Some(remote), f, refused, broken).disk == Some([]);
    }
  }

  lemma {:induction false} CompleteFileStays(remote: Content, f: File, run: seq<Replies>)
    requires f.sha1 == Some(remote) && (SizeFits(f, remote) || remote == [])
    requires FaithfulRun(remote, Some(remote), f, run)
    ensures RunAttempts(Some(remote), f, run) == Some(remote)
    decreases |run|
  {
    if run != [] {
      CompleteFileIsKeptIff(remote, f);
      CompleteFileStays(remote, f, run[1..]);
    }
  }

  /** The last attempt of a run is an uncut one. */
  predicate EndsUncut(run: seq<Replies>) {
    run != [] && Uncut(run[|run| - 1].first, run[|run| - 1].second)
  }

  /** From a prefix, a run that ends in an uncut attempt leaves the remote file on disk, with a
      digest whatever size is listed, and without one unless the size is too small. */
  lemma {:induction false} UncutEndCompletesPrefix(remote: Content, disk: Option<Content>, f: File, run: seq<Replies>)
    requires ListsWhole(f, remote) && FaithfulRun(remote, disk, f, run) && IsPartOf(disk, remote)
    requires EndsUncut(run)
    ensures RunAttempts(disk, f, run) == Some(remote)
    decreases |run|
  {
    var first, second := run[0].first, run[0].second;
    if |run| == 1 {
      UncutAttemptCompletesPrefix(remote, disk, f, first, second);
    } else {
      AttemptKeepsPrefix(remote, disk, f, first, second);
      UncutEndCompletesPrefix(remote, Attempt(disk, f, first, second).disk, f, run[1..]);
    }
  }

  /** From a prefix, one uncut attempt anywhere in the run is enough when the listed size fits. */
  lemma {:induction false} OneUncutCompletesPrefix(remote: Content, disk: Option<Content>, f: File, run: seq<Replies>)
    requires f.sha1 == Some(remote) && (SizeFits(f, remote) || remote == [])
    requires FaithfulRun(remote, disk, f, run) && IsPartOf(disk, remote)
    requires UncutCount(run) >= 1
    ensures RunAttempts(disk, f, run) == Some(remote)
    decreases |run|
  {
    var first, second := run[0].first, run[0].second;
    AttemptKeepsPrefix(remote, disk, f, first, second);
    if Uncut(first, second) {
      UncutAttemptCompletesPrefix(remote, disk, f, first, second);
      CompleteFileStays(remote, f, run[1..]);
    } else {
      OneUncutCompletesPrefix(remote, Attempt(disk, f, first, second).disk, f, run[1..]);
    }
  }

  /** From any disk state, garbage included, and through any number of broken attempts, two uncut
      ones leave the remote file on disk: whatever size is listed when the last attempt is one of
      them, and wherever they are when the size fits. */
  lemma {:induction false} TwoUncutAttemptsComplete(remote: Content, disk: Option<Content>, f: File, run: seq<Replies>)
    requires f.sha1 == Some(remote) && FaithfulRun(remote, disk, f, run)
    requires UncutCount(run) >= 2
    requires EndsUncut(run) || SizeFits(f, remote) || remote == []
    ensures RunAttempts(disk, f, run) == Some(remote)
    decreases |run|
  {
    var first, second := run[0].first, run[0].second;
    var after := Attempt(disk, f, first, second).disk;
    assert |run| > 1;
    if !Uncut(first, second) {
      TwoUncutAttemptsComplete(remote, after, f, run[1..]);
    } else {
      UncutAttemptCompletesOrClears(remote, disk, f, first, second);
      if EndsUncut(run) {
        UncutEndCompletesPrefix(remote, after, f, run[1..]);
      } else {
        OneUncutCompletesPrefix(remote, after, f, run[1..]);
      }
    }
  }

  /** Two uncut attempts are enough wherever they are, in every run, exactly when the listed size
      fits or the file is empty: otherwise a later attempt starts over and may break off. */
  lemma TwoUncutAnywhereSufficeIff(remote: Content, f: File)
    requires f.sha1 == Some(remote)
    ensures (forall disk, run :: FaithfulRun(remote, disk, f, run) && UncutCount(run) >= 2 ==>
               RunAttempts(disk, f, run) == Some(remote)) <==>
            SizeFits(f, remote) || remote == []
  {
    if SizeFits(f, remote) || remote == [] {
      forall disk, run | FaithfulRun(remote, disk, f, run) && UncutCount(run) >= 2
        ensures RunAttempts(disk, f, run) == Some(remote)
      {
        TwoUncutAttemptsComplete(remote, disk, f, run);
      }
    } else {
      var whole := Replies(Response(OK, remote, false), NoConnection);
      var broken := Replies(Response(RangeNotSatisfiable, [], false), Response(OK, [], true));
      var run := [whole, whole, broken];
      var rest := [whole, broken];
      assert run[1..] == rest && rest[1..] == [broken] && [broken][1..] == [];
      assert Attempt(Some(remote), f, whole.first, whole.second).disk == Some(remote);
      assert Attempt(Some(remote), f, broken.first, broken.second).disk == Some([]);
      StepOfRun(remote, Some([]), f, []);
      StepOfRun(remote, Some(remote), f, [broken]);
      StepOfRun(remote, Some(remote), f, rest);
      StepOfRun(remote, Some(remote), f, run);
    }
  }

  /** One step of each reading of a run. */
  lemma StepOfRun(remote: Content, disk: Option<Content>, f: File, run: seq<Replies>)
    ensures run == [] ==> RunAttempts(disk, f, run) == disk && FaithfulRun(remote, disk, f, run)
    ensures run != [] ==>
              var after := Attempt(disk, f, run[0].first, run[0].second).disk;
              && RunAttempts(disk, f, run) == RunAttempts(after, f, run[1..])
              && (FaithfulRun(remote, disk, f, run) <==>
                  FaithfulAttempt(remote, disk, run[0].first, run[0].second) &&
                  FaithfulRun(remote, after, f, run[1..]))
  {
  }

  /** One uncut attempt is not always enough: a leftover of some other file is appended to,
      found not to match, and removed. */
  lemma OneUncutAttemptMayOnlyClear(remote: Content, f: File)
    requires f.sha1 == Some(remote) && |remote| >= 2
    ensures exists disk, first, second ::
              && FaithfulAttempt(remote, disk, first, second) && Uncut(first, second)
              && Attempt(disk, f, first, second) == Outcome(None, Err(DigestMismatch))
  {
    var other: byte := if remote[0] == 0 then 1 else 0;
    var disk := Some([other]);
    var first := Response(PartialContent, remote[1..], false);
    assert FaithfulAttempt(remote, disk, first, NoConnection) && Uncut(first, NoConnection);
    assert ([other] + remote[1..])[0] != remote[0];
    assert Attempt(disk, f, first, NoConnection) == Outcome(None, Err(DigestMismatch));
  }
}
