/**
 * The temporary directories of a WIM patch: each holds an extracted hive that the final
 * overwrite reads, so none may go before the overwrite, and all must be gone at the end.
 * Which of the calls that can fail do fail is handed in.
 */
module WimPatchLifecycle {
  type Dir = nat

  datatype Event =
    | Made(dir: Dir)
    | Staged(dir: Dir) // the image now refers to a file inside the directory
    | Overwrote        // the overwrite read the staged files
    | Removed(dir: Dir)

  // ----- Reading a log

  function MadeUpTo(log: seq<Event>, n: nat): set<Dir>
    requires n <= |log|
  {
    if n == 0 then {} else MadeUpTo(log, n - 1) + if log[n - 1].Made? then {log[n - 1].dir} else {}
  }

  function AfterEvent(live: set<Dir>, e: Event): set<Dir> {
    if e.Made? then live + {e.dir} else if e.Removed? then live - {e.dir} else live
  }

  /** The directories that exist. */
  function LiveUpTo(log: seq<Event>, n: nat): set<Dir>
    requires n <= |log|
  {
    if n == 0 then {} else AfterEvent(LiveUpTo(log, n - 1), log[n - 1])
  }

  /** The directories whose files the image refers to. */
  function StagedUpTo(log: seq<Event>, n: nat): set<Dir>
    requires n <= |log|
  {
    if n == 0 then {} else StagedUpTo(log, n - 1) + if log[n - 1].Staged? then {log[n - 1].dir} else {}
  }

  /** Event n happens at a moment when it may: a directory is made once, used and removed
      only while it exists, and the overwrite finds every staged file. */
  ghost predicate Allowed(log: seq<Event>, n: nat)
    requires n < |log|
  {
    match log[n]
    case Made(d) => d !in MadeUpTo(log, n)
    case Staged(d) => d in LiveUpTo(log, n)
    case Removed(d) => d in LiveUpTo(log, n)
    case Overwrote => StagedUpTo(log, n) <= LiveUpTo(log, n)
  }

  ghost predicate Safe(log: seq<Event>) {
    forall n :: 0 <= n < |log| ==> Allowed(log, n)
  }

  function Live(log: seq<Event>): set<Dir> {
    LiveUpTo(log, |log|)
  }

  function StagedDirs(log: seq<Event>): set<Dir> {
    StagedUpTo(log, |log|)
  }

  lemma {:induction false} PrefixReadsSame(log: seq<Event>, more: seq<Event>, n: nat)
    requires n <= |log| && log <= more
    ensures MadeUpTo(log, n) == MadeUpTo(more, n)
    ensures LiveUpTo(log, n) == LiveUpTo(more, n)
    ensures StagedUpTo(log, n) == StagedUpTo(more, n)
  {
    if n > 0 {
      PrefixReadsSame(log, more, n - 1);
    }
  }

  lemma OneMoreIsSafe(log: seq<Event>, e: Event)
    requires Safe(log) && Allowed(log + [e], |log|)
    ensures Safe(log + [e])
  {
    forall n | 0 <= n < |log| ensures Allowed(log + [e], n) {
      AllowedInLonger(log, log + [e], n);
    }
  }

  lemma OneMoreEvent(log: seq<Event>, e: Event)
    ensures Live(log + [e]) == AfterEvent(Live(log), e)
    ensures StagedDirs(log + [e]) == StagedDirs(log) + if e.Staged? then {e.dir} else {}
    ensures MadeUpTo(log + [e], |log| + 1) == MadeUpTo(log, |log|) + if e.Made? then {e.dir} else {}
  {
    var more, n := log + [e], |log|;
    assert |more| == n + 1 && more[n] == e;
    PrefixReadsSame(log, more, n);
    assert LiveUpTo(more, n + 1) == AfterEvent(LiveUpTo(more, n), e);
    assert StagedUpTo(more, n + 1) == StagedUpTo(more, n) + if e.Staged? then {e.dir} else {};
    assert MadeUpTo(more, n + 1) == MadeUpTo(more, n) + if e.Made? then {e.dir} else {};
  }

  lemma AllowedInLonger(log: seq<Event>, more: seq<Event>, n: nat)
    requires n < |log| && log <= more && Allowed(log, n)
    ensures Allowed(more, n)
  {
    assert more[n] == log[n];
    PrefixReadsSame(log, more, n);
  }

  // ----- The patch

  /** Which call fails while one hive is patched, if any; a write by its position. */
  datatype HiveFault = NoFault | MakingDirectory | Extracting | Writing(index: nat) | Staging

  predicate HiveFails(writes: nat, fault: HiveFault) {
    !fault.NoFault? && (fault.Writing? ==> fault.index < writes)
  }

  /** Every hive is patched: no call that is reached fails. */
  predicate AllHivesPatched(groups: seq<nat>, faults: seq<HiveFault>)
    requires |groups| == |faults|
  {
    forall i :: 0 <= i < |groups| ==> !HiveFails(groups[i], faults[i])
  }

  class Workspace {
    var log: seq<Event>
    var next: Dir

    ghost predicate Valid()
      reads this
    {
      && Safe(log)
      && forall d :: d in MadeUpTo(log, |log|) ==> d < next
    }

    constructor ()
      ensures Valid() && log == []
    {
      log, next := [], 0;
    }

    method Record(e: Event)
      requires Valid() && Allowed(log + [e], |log|) && (e.Made? ==> e.dir < next)
      modifies this`log
      ensures Valid() && log == old(log) + [e]
      ensures Live(log) == AfterEvent(Live(old(log)), e)
      ensures StagedDirs(log) == StagedDirs(old(log)) + if e.Staged? then {e.dir} else {}
    {
      OneMoreIsSafe(log, e);
      OneMoreEvent(log, e);
      log := log + [e];
    }

    method MkdirTemp() returns (d: Dir)
      requires Valid()
      modifies this
      ensures Valid() && (Overwrote in log <==> Overwrote in old(log))
      ensures Live(log) == Live(old(log)) + {d} && d !in Live(old(log))
      ensures StagedDirs(log) == StagedDirs(old(log))
    {
      d := next;
      next := next + 1;
      PrefixReadsSame(log, log + [Made(d)], |log|);
      LiveAreMade(log, |log|);
      Record(Made(d));
    }

    method RemoveAll(d: Dir)
      requires Valid() && d in Live(log)
      modifies this`log
      ensures Valid() && (Overwrote in log <==> Overwrote in old(log))
      ensures Live(log) == Live(old(log)) - {d} && StagedDirs(log) == StagedDirs(old(log))
    {
      PrefixReadsSame(log, log + [Removed(d)], |log|);
      Record(Removed(d));
    }

    method Stage(d: Dir)
      requires Valid() && d in Live(log)
      modifies this`log
      ensures Valid() && (Overwrote in log <==> Overwrote in old(log))
      ensures Live(log) == Live(old(log)) && StagedDirs(log) == StagedDirs(old(log)) + {d}
    {
      PrefixReadsSame(log, log + [Staged(d)], |log|);
      Record(Staged(d));
    }

    /** Extracts a hive, applies the group's writes and stages the result. On any failure the
        directory is removed at once, and nothing in it has been staged. */
    method WriteRegistryHive(writes: nat, fault: HiveFault) returns (ok: bool, d: Dir)
      requires Valid()
      modifies this
      ensures ok == !HiveFails(writes, fault)
      ensures Valid() && (Overwrote in log <==> Overwrote in old(log))
      ensures ok ==> d !in Live(old(log)) && Live(log) == Live(old(log)) + {d}
                     && StagedDirs(log) == StagedDirs(old(log)) + {d}
      ensures !ok ==> Live(log) == Live(old(log)) && StagedDirs(log) == StagedDirs(old(log))
    {
      if fault.MakingDirectory? {
        return false, 0;
      }
      d := MkdirTemp();
      if fault.Extracting? {
        RemoveAll(d);
        return false, d;
      }
      var i := 0;
      while i < writes
        invariant 0 <= i <= writes && (fault.Writing? ==> i <= fault.index)
        invariant Valid() && (Overwrote in log <==> Overwrote in old(log))
        invariant Live(log) == Live(old(log)) + {d} && d !in Live(old(log))
        invariant StagedDirs(log) == StagedDirs(old(log))
      {
        if fault == Writing(i) {
          RemoveAll(d);
          return false, d;
        }
        i := i + 1;
      }
      if fault.Staging? {
        RemoveAll(d);
        return false, d;
      }
      Stage(d);
      return true, d;
    }

    /** Patches the groups one after the other, collecting the directories to clean up. */
    method ApplyPatchSet(groups: seq<nat>, filesFail: bool, faults: seq<HiveFault>)
      returns (ok: bool, cleanups: seq<Dir>)
      requires Valid() && Live(log) == {} && StagedDirs(log) == {} && |groups| == |faults|
      modifies this
      ensures ok == (!filesFail && AllHivesPatched(groups, faults))
      ensures Valid() && (Overwrote in log <==> Overwrote in old(log))
      ensures Cleanups(cleanups, Live(log)) && StagedDirs(log) == Live(log)
      ensures ok ==> |cleanups| == |groups|
    {
      cleanups := [];
      if filesFail {
        return false, cleanups;
      }
      var i := 0;
      while i < |groups|
        invariant 0 <= i <= |groups| && |cleanups| == i
        invariant forall k :: 0 <= k < i ==> !HiveFails(groups[k], faults[k])
        invariant Valid() && (Overwrote in log <==> Overwrote in old(log))
        invariant Cleanups(cleanups, Live(log)) && StagedDirs(log) == Live(log)
      {
        var fine, d := WriteRegistryHive(groups[i], faults[i]);
        if !fine {
          return false, cleanups;
        }
        cleanups := cleanups + [d];
        i := i + 1;
      }
      return true, cleanups;
    }

    /** Patches an image. However it ends, every directory made has been removed, each exactly
        once; it succeeds when no call fails, and then the overwrite found one staged hive for
        each group. */
    method PatchWIM(groups: seq<nat>, filesFail: bool, faults: seq<HiveFault>, overwriteFails: bool)
      returns (ok: bool)
      requires Valid() && log == [] && |groups| == |faults|
      modifies this
      ensures Valid() && Live(log) == {}
      ensures ok <==> !filesFail && AllHivesPatched(groups, faults) && !overwriteFails
      ensures ok <==> Overwrote in log
      ensures ok ==> |StagedDirs(log)| == |groups|
    {
      var cleanups;
      ok, cleanups := ApplyPatchSet(groups, filesFail, faults);
      if ok {
        CleanupsCount(cleanups, Live(log));
        if overwriteFails {
          ok := false;
        } else {
          PrefixReadsSame(log, log + [Overwrote], |log|);
          Record(Overwrote);
          assert log[|log| - 1] == Overwrote;
        }
      }
      RunCleanups(cleanups);
    }

    method RunCleanups(cleanups: seq<Dir>)
      requires Valid() && Cleanups(cleanups, Live(log))
      modifies this`log
      ensures Valid() && Live(log) == {} && (Overwrote in log <==> Overwrote in old(log))
      ensures StagedDirs(log) == StagedDirs(old(log))
    {
      var i := 0;
      while i < |cleanups|
        invariant 0 <= i <= |cleanups| && StagedDirs(log) == StagedDirs(old(log))
        invariant Valid() && (Overwrote in log <==> Overwrote in old(log))
        invariant Cleanups(cleanups[i..], Live(log))
      {
        RemoveAll(cleanups[i]);
        assert cleanups[i..] == [cleanups[i]] + cleanups[i + 1..];
        i := i + 1;
      }
    }
  }

  /** A list of exactly the directories of a set, each once. */
  ghost predicate Cleanups(cleanups: seq<Dir>, dirs: set<Dir>) {
    && (forall d :: d in cleanups <==> d in dirs)
    && (forall i, j :: 0 <= i < j < |cleanups| ==> cleanups[i] != cleanups[j])
  }

  lemma {:induction false} CleanupsCount(cleanups: seq<Dir>, dirs: set<Dir>)
    requires Cleanups(cleanups, dirs)
    ensures |dirs| == |cleanups|
  {
    if cleanups != [] {
      assert cleanups[0] in cleanups;
      assert cleanups == [cleanups[0]] + cleanups[1..];
      CleanupsCount(cleanups[1..], dirs - {cleanups[0]});
    } else {
      assert dirs == {};
    }
  }

  lemma {:induction false} LiveAreMade(log: seq<Event>, n: nat)
    requires n <= |log|
    ensures LiveUpTo(log, n) <= MadeUpTo(log, n)
  {
    if n > 0 {
      LiveAreMade(log, n - 1);
    }
  }

  // ----- What a safe, finished log means

  lemma {:induction false} GoneStaysGone(log: seq<Event>, d: Dir, m: nat, n: nat)
    requires Safe(log) && m <= n <= |log|
    requires d in MadeUpTo(log, m) && d !in LiveUpTo(log, m)
    ensures d in MadeUpTo(log, n) && d !in LiveUpTo(log, n)
  {
    if m < n {
      GoneStaysGone(log, d, m, n - 1);
      assert Allowed(log, n - 1);
    }
  }

  lemma {:induction false} KeptStaysLive(log: seq<Event>, d: Dir, m: nat, n: nat)
    requires m <= n <= |log| && d in LiveUpTo(log, m)
    requires forall j :: m <= j < n ==> log[j] != Removed(d)
    ensures d in LiveUpTo(log, n)
  {
    if m < n {
      KeptStaysLive(log, d, m, n - 1);
    }
  }

  /** In a safe log that ends with no directory left, every directory made is removed after
      that, and only once. */
  lemma EachDirectoryIsRemovedOnce(log: seq<Event>, i: nat) returns (j: nat)
    requires Safe(log) && Live(log) == {}
    requires i < |log| && log[i].Made?
    ensures i < j < |log| && log[j] == Removed(log[i].dir)
    ensures forall k :: 0 <= k < |log| && log[k] == Removed(log[i].dir) ==> k == j
  {
    var d := log[i].dir;
    if forall k :: i + 1 <= k < |log| ==> log[k] != Removed(d) {
      KeptStaysLive(log, d, i + 1, |log|);
    }
    j :| i + 1 <= j < |log| && log[j] == Removed(d);
    forall k | 0 <= k < |log| && log[k] == Removed(d) ensures k == j {
      RemovalIsUnique(log, d, j, k);
    }
  }

  lemma RemovalIsUnique(log: seq<Event>, d: Dir, j: nat, k: nat)
    requires Safe(log) && j < |log| && k < |log| && log[j] == log[k] == Removed(d)
    ensures j == k
  {
    var first, second := if j < k then j else k, if j < k then k else j;
    assert Allowed(log, first) && Allowed(log, second);
    LiveAreMade(log, first);
    if first < second {
      GoneStaysGone(log, d, first + 1, second);
    }
  }

  /** No directory with a staged file is removed before the overwrite has read it. */
  lemma OverwriteFindsStagedFiles(log: seq<Event>, staged: nat, removed: nat, overwrote: nat)
    requires Safe(log) && staged < overwrote < |log| && removed < |log|
    requires log[staged].Staged? && log[removed] == Removed(log[staged].dir) && log[overwrote].Overwrote?
    ensures overwrote < removed
  {
    var d := log[staged].dir;
    assert Allowed(log, staged) && Allowed(log, removed) && Allowed(log, overwrote);
    StagedStays(log, d, staged + 1, overwrote);
    LiveAreMade(log, removed);
    if removed < overwrote {
      GoneStaysGone(log, d, removed + 1, overwrote);
    }
  }

  lemma {:induction false} StagedStays(log: seq<Event>, d: Dir, m: nat, n: nat)
    requires m <= n <= |log| && d in StagedUpTo(log, m)
    ensures d in StagedUpTo(log, n)
  {
    if m < n {
      StagedStays(log, d, m, n - 1);
    }
  }
}
