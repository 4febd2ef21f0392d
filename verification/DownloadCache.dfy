/**
 * The done-marker protocol of the download caches. A payload is fetched into a part file,
 * renamed over the cached one, and only then marked as done; a later attempt trusts the
 * marker. Attempts may crash between any two steps, the payload may be deleted from
 * outside, and attempts of several processes may interleave.
 */
module DownloadCache {
  import opened Wrappers

  type Process = nat
  type Inode = nat

  /** How an attempt names its part file: always the same, or one no other attempt uses. */
  datatype Naming = FixedPart | UniqueTemp

  datatype Name = Payload | Part(owner: Process)

  datatype Content = Partial | Complete

  /** Directory entries, whether the marker exists, and file contents by inode. */
  datatype Disk = Disk(names: map<Name, Inode>, done: bool, content: map<Inode, Content>, next: Inode)

  /** Where an attempt stands: what it does next. */
  datatype Position =
    | DropMarkerFirst // a forced fresh fetch
    | CheckMarker
    | CheckPayload    // the marker was there
    | DropStaleMarker // but the payload was not
    | CreatePart
    | Copying(file: Inode)
    | DiscardPart     // the copy failed
    | RenamePart
    | WriteMarker
    | Succeeded(hit: bool)
    | Failed

  /** The bereft are the attempts that had found or placed the payload when it was deleted. */
  datatype State = State(disk: Disk, procs: map<Process, Position>, bereft: set<Process>)

  datatype Step =
    | Begin(p: Process, noCache: bool)
    | Advance(p: Process)
    | Fail(p: Process)
    | Crash(p: Process)
    | DeletePayload

  predicate Live(pos: Position) {
    !pos.Succeeded? && !pos.Failed?
  }

  /** Whether an attempt has found or placed the payload. */
  predicate HadPayload(pos: Position) {
    pos.WriteMarker? || pos.Succeeded?
  }

  function PartName(naming: Naming, p: Process): Name {
    if naming.FixedPart? then Part(0) else Part(p)
  }

  // ----- File operations

  /** Creates a file, or truncates the one of that name. */
  function Create(disk: Disk, name: Name): (Disk, Inode) {
    if name in disk.names then
      var i := disk.names[name];
      (disk.(content := disk.content[i := Partial]), i)
    else
      (Disk(disk.names[name := disk.next], disk.done, disk.content[disk.next := Partial], disk.next + 1), disk.next)
  }

  function Rename(disk: Disk, from: Name): Disk
    requires from in disk.names
  {
    disk.(names := (disk.names - {from})[Payload := disk.names[from]])
  }

  function Removed(disk: Disk, name: Name): Disk {
    disk.(names := disk.names - {name})
  }

  // ----- Steps

  predicate OtherCopies(s: State, p: Process, file: Inode) {
    exists q :: q in s.procs && q != p && s.procs[q] == Copying(file)
  }

  function At(s: State, disk: Disk, p: Process, pos: Position): State {
    s.(disk := disk, procs := s.procs[p := pos])
  }

  /** What an attempt does next when nothing goes wrong. */
  function Advanced(naming: Naming, s: State, p: Process): Option<State>
    requires p in s.procs
  {
    var disk, part := s.disk, PartName(naming, p);
    match s.procs[p]
    case DropMarkerFirst => Some(At(s, disk.(done := false), p, CheckMarker))
    case CheckMarker => Some(At(s, disk, p, if disk.done then CheckPayload else CreatePart))
    case CheckPayload => Some(At(s, disk, p, if Payload in disk.names then Succeeded(true) else DropStaleMarker))
    case DropStaleMarker => Some(At(s, disk.(done := false), p, CreatePart))
    case CreatePart => var (disk', i) := Create(disk, part); Some(At(s, disk', p, Copying(i)))
    case Copying(i) =>
      // a file that another attempt is still rewriting is not complete yet
      var c := if OtherCopies(s, p, i) then Partial else Complete;
      Some(At(s, disk.(content := disk.content[i := c]), p, RenamePart))
    case DiscardPart => Some(At(s, Removed(disk, part), p, Failed))
    case RenamePart =>
      if part in disk.names then Some(At(s, Rename(disk, part), p, WriteMarker)) else None
    case WriteMarker => Some(At(s, disk.(done := true), p, Succeeded(false)))
    case _ => None
  }

  /** What an attempt does when the operation it is at fails. */
  function FailedAt(naming: Naming, s: State, p: Process): Option<State>
    requires p in s.procs
  {
    match s.procs[p]
    case CreatePart => Some(At(s, s.disk, p, Failed))
    case Copying(_) => Some(At(s, s.disk, p, DiscardPart))
    case RenamePart => Some(At(s, s.disk, p, if naming.UniqueTemp? then DiscardPart else Failed))
    case WriteMarker => Some(At(s, s.disk, p, Failed))
    case _ => None
  }

  function Next(naming: Naming, s: State, step: Step): Option<State> {
    match step
    case Begin(p, noCache) =>
      if p in s.procs || (naming.UniqueTemp? && Part(p) in s.disk.names) then None
      else Some(s.(procs := s.procs[p := if noCache then DropMarkerFirst else CheckMarker]))
    case Advance(p) => if p in s.procs then Advanced(naming, s, p) else None
    case Fail(p) => if p in s.procs then FailedAt(naming, s, p) else None
    case Crash(p) => if p in s.procs && Live(s.procs[p]) then Some(s.(procs := s.procs[p := Failed])) else None
    case DeletePayload =>
      Some(s.(disk := Removed(s.disk, Payload),
              bereft := s.bereft + set p | p in s.procs && HadPayload(s.procs[p])))
  }

  function Run(naming: Naming, s: State, steps: seq<Step>): Option<State>
    decreases |steps|
  {
    if steps == [] then Some(s)
    else
      match Next(naming, s, steps[0])
      case None => None
      case Some(s') => Run(naming, s', steps[1..])
  }

  // ----- The invariant

  /** The cached payload is absent or complete. */
  predicate Sound(disk: Disk) {
    Payload in disk.names ==> disk.names[Payload] in disk.content && disk.content[disk.names[Payload]].Complete?
  }

  /** No two names share a file. */
  ghost predicate WellNamed(disk: Disk) {
    && (forall n :: n in disk.names ==> disk.names[n] < disk.next)
    && (forall n, m :: n in disk.names && m in disk.names && disk.names[n] == disk.names[m] ==> n == m)
  }

  /** What holds of an attempt at its position. */
  ghost predicate AttemptOk(naming: Naming, s: State, p: Process)
    requires p in s.procs
  {
    var part := PartName(naming, p);
    match s.procs[p]
    case CheckPayload => Sound(s.disk)
    case Copying(i) => part in s.disk.names && s.disk.names[part] == i
    case RenamePart =>
      part in s.disk.names && s.disk.names[part] in s.disk.content &&
      s.disk.content[s.disk.names[part]].Complete?
    case WriteMarker => Sound(s.disk) && (Payload in s.disk.names || p in s.bereft)
    case Succeeded(hit) => Sound(s.disk) && (Payload in s.disk.names || p in s.bereft)
    case _ => true
  }

  /** With one fixed part name, at most one attempt is under way at a time. */
  ghost predicate Exclusive(naming: Naming, s: State) {
    naming.FixedPart? ==>
      forall p, q :: p in s.procs && q in s.procs && Live(s.procs[p]) && Live(s.procs[q]) ==> p == q
  }

  ghost predicate Invariant(naming: Naming, s: State) {
    && WellNamed(s.disk)
    && (s.disk.done ==> Sound(s.disk))
    && forall p :: p in s.procs ==> AttemptOk(naming, s, p)
  }

  // ----- File operations disturb nobody else

  ghost predicate SamePart(d: Disk, d': Disk, n: Name) {
    n in d.names ==>
      && n in d'.names && d'.names[n] == d.names[n]
      && (d.names[n] in d.content ==> d.names[n] in d'.content && d'.content[d.names[n]] == d.content[d.names[n]])
  }

  /** A sound payload stays sound and present, and other part files stay as they are. */
  ghost predicate Harmless(d: Disk, d': Disk, part: Name) {
    && (WellNamed(d) ==> WellNamed(d'))
    && (Sound(d) ==> Sound(d'))
    && (Payload in d.names ==> Payload in d'.names)
    && forall n: Name :: n.Part? && n != part ==> SamePart(d, d', n)
  }

  lemma CreateIsHarmless(d: Disk, part: Name)
    requires WellNamed(d) && part.Part?
    ensures var (d', i) := Create(d, part);
            Harmless(d, d', part) && part in d'.names && d'.names[part] == i && d'.done == d.done
  {
    if part in d.names {
      WriteIsHarmless(d, part, Partial);
    } else {
      NewFileIsHarmless(d, part);
    }
  }

  lemma NewFileIsHarmless(d: Disk, part: Name)
    requires WellNamed(d) && part.Part? && part !in d.names
    ensures Harmless(d, Create(d, part).0, part)
  {
    var d' := Create(d, part).0;
    forall n | n in d.names ensures d'.names[n] == d.names[n] != d.next {
    }
  }

  lemma WriteIsHarmless(d: Disk, part: Name, c: Content)
    requires WellNamed(d) && part.Part? && part in d.names
    ensures Harmless(d, d.(content := d.content[d.names[part] := c]), part)
  {
  }

  lemma RenameIsHarmless(d: Disk, part: Name)
    requires WellNamed(d) && part.Part? && part in d.names
    requires d.names[part] in d.content && d.content[d.names[part]].Complete?
    ensures Harmless(d, Rename(d, part), part)
    ensures Sound(Rename(d, part)) && Payload in Rename(d, part).names
  {
  }

  lemma RemoveIsHarmless(d: Disk, part: Name)
    requires WellNamed(d) && part.Part?
    ensures Harmless(d, Removed(d, part), part)
  {
  }

  lemma OthersStayOk(naming: Naming, s: State, p: Process, s': State, q: Process)
    requires p in s.procs && Live(s.procs[p]) && Exclusive(naming, s)
    requires p in s'.procs && s'.procs == s.procs[p := s'.procs[p]] && s'.bereft == s.bereft
    requires Harmless(s.disk, s'.disk, PartName(naming, p))
    requires q in s.procs && q != p && AttemptOk(naming, s, q)
    ensures AttemptOk(naming, s', q)
  {
    if Live(s.procs[q]) {
      assert naming.UniqueTemp?;
      assert SamePart(s.disk, s'.disk, PartName(naming, q));
    }
  }

  // ----- Every step keeps the invariant

  lemma UntouchedIsHarmless(d: Disk, d': Disk, part: Name)
    requires d'.names == d.names && d'.content == d.content && d'.next == d.next
    ensures Harmless(d, d', part)
  {
  }

  lemma AdvanceIsHarmless(naming: Naming, s: State, p: Process, s': State)
    requires WellNamed(s.disk) && p in s.procs && AttemptOk(naming, s, p)
    requires Advanced(naming, s, p) == Some(s')
    ensures Harmless(s.disk, s'.disk, PartName(naming, p))
  {
    var d, part := s.disk, PartName(naming, p);
    match s.procs[p]
    case CreatePart => CreateIsHarmless(d, part);
    case Copying(i) => WriteIsHarmless(d, part, if OtherCopies(s, p, i) then Partial else Complete);
    case RenamePart => RenameIsHarmless(d, part);
    case DiscardPart => RemoveIsHarmless(d, part);
    case _ => UntouchedIsHarmless(d, s'.disk, part);
  }

  /** A step of an attempt only moves that attempt and is harmless to the others. */
  lemma StepIsHarmless(naming: Naming, s: State, p: Process, s': State)
    requires Invariant(naming, s) && p in s.procs
    requires Advanced(naming, s, p) == Some(s') || FailedAt(naming, s, p) == Some(s')
    ensures Harmless(s.disk, s'.disk, PartName(naming, p))
    ensures Live(s.procs[p]) && p in s'.procs && s'.procs == s.procs[p := s'.procs[p]] && s'.bereft == s.bereft
  {
    if Advanced(naming, s, p) == Some(s') {
      assert AttemptOk(naming, s, p);
      AdvanceIsHarmless(naming, s, p, s');
    } else {
      UntouchedIsHarmless(s.disk, s'.disk, PartName(naming, p));
    }
  }

  lemma CopiesAreDistinct(naming: Naming, s: State, p: Process, q: Process)
    requires Invariant(naming, s) && Exclusive(naming, s)
    requires p in s.procs && s.procs[p].Copying? && q in s.procs && q != p
    ensures s.procs[q] != s.procs[p]
  {
    assert AttemptOk(naming, s, p) && AttemptOk(naming, s, q);
    assert Live(s.procs[p]);
  }

  /** No other attempt is writing to an attempt's part file. */
  lemma OwnCopy(naming: Naming, s: State, p: Process)
    requires Invariant(naming, s) && Exclusive(naming, s) && p in s.procs && s.procs[p].Copying?
    ensures !OtherCopies(s, p, s.procs[p].file)
  {
    forall q | q in s.procs && q != p ensures s.procs[q] != s.procs[p] {
      CopiesAreDistinct(naming, s, p, q);
    }
  }

  lemma StepperStaysOk(naming: Naming, s: State, p: Process, s': State)
    requires Invariant(naming, s) && Exclusive(naming, s) && p in s.procs
    requires Advanced(naming, s, p) == Some(s') || FailedAt(naming, s, p) == Some(s')
    ensures AttemptOk(naming, s', p) && (s'.disk.done ==> Sound(s'.disk))
  {
    var d, part := s.disk, PartName(naming, p);
    StepIsHarmless(naming, s, p, s');
    assert AttemptOk(naming, s, p);
    match s.procs[p]
    case CreatePart => CreateIsHarmless(d, part);
    case Copying(_) => OwnCopy(naming, s, p);
    case RenamePart => RenameIsHarmless(d, part);
    case _ =>
  }

  lemma ProcessStepKeepsInvariant(naming: Naming, s: State, p: Process, s': State)
    requires Invariant(naming, s) && Exclusive(naming, s) && p in s.procs
    requires Advanced(naming, s, p) == Some(s') || FailedAt(naming, s, p) == Some(s')
    ensures Invariant(naming, s')
  {
    StepIsHarmless(naming, s, p, s');
    StepperStaysOk(naming, s, p, s');
    forall q | q in s'.procs ensures AttemptOk(naming, s', q) {
      if q != p {
        OthersStayOk(naming, s, p, s', q);
      }
    }
  }

  lemma StepKeepsInvariant(naming: Naming, s: State, step: Step, s': State)
    requires Invariant(naming, s) && Exclusive(naming, s)
    requires Next(naming, s, step) == Some(s')
    ensures Invariant(naming, s')
  {
    match step
    case Begin(p, _) =>
      forall q | q in s'.procs ensures AttemptOk(naming, s', q) {
        assert q != p ==> AttemptOk(naming, s, q);
      }
    case Advance(p) => ProcessStepKeepsInvariant(naming, s, p, s');
    case Fail(p) => ProcessStepKeepsInvariant(naming, s, p, s');
    case Crash(p) =>
      forall q | q in s'.procs ensures AttemptOk(naming, s', q) {
        assert q != p ==> AttemptOk(naming, s, q);
      }
    case DeletePayload =>
      forall q | q in s'.procs ensures AttemptOk(naming, s', q) {
        assert AttemptOk(naming, s, q);
      }
  }

  /** Every state of a run is exclusive. */
  ghost predicate ExclusiveRun(naming: Naming, s: State, steps: seq<Step>)
    decreases |steps|
  {
    && Exclusive(naming, s)
    && (steps != [] && Next(naming, s, steps[0]).Some? ==>
          ExclusiveRun(naming, Next(naming, s, steps[0]).value, steps[1..]))
  }

  lemma {:induction false} RunKeepsInvariant(naming: Naming, s: State, steps: seq<Step>)
    requires Invariant(naming, s) && ExclusiveRun(naming, s, steps)
    ensures Run(naming, s, steps).Some? ==> Invariant(naming, Run(naming, s, steps).value)
    decreases |steps|
  {
    if steps != [] && Next(naming, s, steps[0]).Some? {
      var s' := Next(naming, s, steps[0]).value;
      StepKeepsInvariant(naming, s, steps[0], s');
      RunKeepsInvariant(naming, s', steps[1..]);
    }
  }

  lemma {:induction false} UniqueTempRunsAreExclusive(s: State, steps: seq<Step>)
    ensures ExclusiveRun(UniqueTemp, s, steps)
    decreases |steps|
  {
    if steps != [] && Next(UniqueTemp, s, steps[0]).Some? {
      UniqueTempRunsAreExclusive(Next(UniqueTemp, s, steps[0]).value, steps[1..]);
    }
  }

  // ----- Crash safety

  /** A disk as earlier attempts may have left it, part files included. */
  ghost predicate Consistent(disk: Disk) {
    WellNamed(disk) && (disk.done ==> Sound(disk))
  }

  /** Through any run of attempts, crashes and outside deletions, the marker implies that
      the payload is absent or complete, and after every successful return it is complete,
      and present unless it was deleted after that attempt had found or placed it. */
  lemma CacheIsCrashSafe(naming: Naming, disk: Disk, steps: seq<Step>)
    requires Consistent(disk)
    requires Run(naming, State(disk, map[], {}), steps).Some?
    requires ExclusiveRun(naming, State(disk, map[], {}), steps)
    ensures var s := Run(naming, State(disk, map[], {}), steps).value;
            && Consistent(s.disk)
            && forall p :: p in s.procs && s.procs[p].Succeeded? ==>
                 Sound(s.disk) && (Payload in s.disk.names || p in s.bereft)
  {
    RunKeepsInvariant(naming, State(disk, map[], {}), steps);
    var s := Run(naming, State(disk, map[], {}), steps).value;
    forall p | p in s.procs && s.procs[p].Succeeded?
      ensures Sound(s.disk) && (Payload in s.disk.names || p in s.bereft)
    {
      assert AttemptOk(naming, s, p);
    }
  }

  /** What makes an attempt bereft: a deletion at a moment when it had found or placed the
      payload. Deletions before that, even in the same attempt, take nothing away. */
  lemma {:induction false} BereftByLaterDeletion(naming: Naming, s: State, steps: seq<Step>, p: Process)
    returns (i: nat)
    requires Run(naming, s, steps).Some? && p !in s.bereft && p in Run(naming, s, steps).value.bereft
    ensures i < |steps| && steps[i].DeletePayload? && Run(naming, s, steps[..i]).Some?
    ensures var t := Run(naming, s, steps[..i]).value; p in t.procs && HadPayload(t.procs[p])
    decreases |steps|
  {
    var s' := Next(naming, s, steps[0]).value;
    if p in s'.bereft {
      i := 0;
    } else {
      var j := BereftByLaterDeletion(naming, s', steps[1..], p);
      i := j + 1;
      assert steps[..i][1..] == steps[1..][..j];
    }
  }

  /** With part files of their own, any number of processes may share the cache. */
  lemma UniqueTempNeedsNoExclusion(disk: Disk, steps: seq<Step>)
    requires Consistent(disk)
    requires Run(UniqueTemp, State(disk, map[], {}), steps).Some?
    ensures var s := Run(UniqueTemp, State(disk, map[], {}), steps).value;
            && Consistent(s.disk)
            && forall p :: p in s.procs && s.procs[p].Succeeded? ==>
                 Sound(s.disk) && (Payload in s.disk.names || p in s.bereft)
  {
    UniqueTempRunsAreExclusive(State(disk, map[], {}), steps);
    CacheIsCrashSafe(UniqueTemp, disk, steps);
  }

  lemma RunOneMore(naming: Naming, s: State, steps: seq<Step>, step: Step)
    requires Run(naming, s, steps).Some?
    ensures Run(naming, s, steps + [step]) == Next(naming, Run(naming, s, steps).value, step)
    decreases |steps|
  {
    var all := steps + [step];
    if steps == [] {
      assert all[1..] == [];
    } else {
      assert all[1..] == steps[1..] + [step];
      RunOneMore(naming, Next(naming, s, steps[0]).value, steps[1..], step);
    }
  }

  const EMPTY := State(Disk(map[], false, map[], 0), map[], {})

  lemma OneCopyReady() returns (steps: seq<Step>, s: State)
    ensures Run(FixedPart, EMPTY, steps) == Some(s)
    ensures s.procs == map[1 := RenamePart] && s.disk.names == map[Part(0) := 0]
    ensures !s.disk.done && s.disk.content == map[0 := Complete] && s.bereft == {}
  {
    var s1 := Prefix([], EMPTY, Begin(1, false));
    var s2 := Prefix([Begin(1, false)], s1, Advance(1));
    steps := [Begin(1, false), Advance(1)];
    var s3 := Prefix(steps, s2, Advance(1));
    steps := steps + [Advance(1)];
    s := Prefix(steps, s3, Advance(1));
    steps := steps + [Advance(1)];
  }

  /** With a fixed part name and no exclusion, two attempts can leave the marker beside a
      partial payload: the second truncates the file that the first is about to rename. */
  lemma FixedPartNeedsExclusion() returns (steps: seq<Step>)
    ensures Run(FixedPart, EMPTY, steps).Some?
    ensures var s := Run(FixedPart, EMPTY, steps).value;
            s.disk.done && !Sound(s.disk) && 1 in s.procs && s.procs[1] == Succeeded(false)
  {
    var s4;
    steps, s4 := OneCopyReady();
    var s5 := Prefix(steps, s4, Begin(2, false));
    steps := steps + [Begin(2, false)];
    var s6 := Prefix(steps, s5, Advance(2));
    steps := steps + [Advance(2)];
    var s7 := Prefix(steps, s6, Advance(2));
    steps := steps + [Advance(2)];
    assert s7.procs[2] == Copying(0) && s7.disk.content[0].Partial?;
    var s8 := Prefix(steps, s7, Advance(1));
    steps := steps + [Advance(1)];
    assert s8.disk.names[Payload] == 0;
    var s9 := Prefix(steps, s8, Advance(1));
    steps := steps + [Advance(1)];
  }

  /** Every run of any number of processes, without exclusion, leaves a consistent cache one. */
  ghost predicate NeedsNoExclusion(naming: Naming) {
    forall disk, steps :: Consistent(disk) && Run(naming, State(disk, map[], {}), steps).Some? ==>
                            Consistent(Run(naming, State(disk, map[], {}), steps).value.disk)
  }

  /** No exclusion is needed exactly with temporary names of one's own. */
  lemma NoExclusionNeededIff(naming: Naming)
    ensures NeedsNoExclusion(naming) <==> naming.UniqueTemp?
  {
    if naming.UniqueTemp? {
      forall disk, steps | Consistent(disk) && Run(naming, State(disk, map[], {}), steps).Some?
        ensures Consistent(Run(naming, State(disk, map[], {}), steps).value.disk)
      {
        UniqueTempNeedsNoExclusion(disk, steps);
      }
    } else {
      var steps := FixedPartNeedsExclusion();
      assert Consistent(EMPTY.disk) && !Consistent(Run(naming, EMPTY, steps).value.disk);
    }
  }

  /** Extends a run from the empty cache by one step. */
  lemma Prefix(steps: seq<Step>, s: State, step: Step) returns (s': State)
    requires Run(FixedPart, EMPTY, steps) == Some(s) && Next(FixedPart, s, step).Some?
    ensures s' == Next(FixedPart, s, step).value
    ensures Run(FixedPart, EMPTY, steps + [step]) == Some(s')
  {
    RunOneMore(FixedPart, EMPTY, steps, step);
    s' := Next(FixedPart, s, step).value;
  }

  // ----- One attempt, as the code takes it

  /** Which of an attempt's fallible operations fail. */
  datatype Faults = Faults(create: bool, copy: bool, rename: bool, marker: bool)

  lemma {:induction false} SoloRunIsExclusive(naming: Naming, s: State, steps: seq<Step>, p: Process)
    requires s.procs.Keys <= {p}
    requires forall i :: 0 <= i < |steps| ==> steps[i].Begin? || steps[i].Advance? || steps[i].Fail?
    requires forall i :: 0 <= i < |steps| ==> steps[i].p == p
    ensures ExclusiveRun(naming, s, steps)
    decreases |steps|
  {
    if steps != [] && Next(naming, s, steps[0]).Some? {
      var s' := Next(naming, s, steps[0]).value;
      assert s'.procs.Keys <= {p};
      SoloRunIsExclusive(naming, s', steps[1..], p);
    }
  }

  /** A run of one attempt, recorded step by step. */
  ghost predicate Solo(naming: Naming, start: State, steps: seq<Step>, p: Process, s: State) {
    && Run(naming, start, steps) == Some(s)
    && (forall i :: 0 <= i < |steps| ==> (steps[i].Begin? || steps[i].Advance? || steps[i].Fail?) && steps[i].p == p)
    && p in s.procs
  }

  lemma SoloStep(naming: Naming, start: State, steps: seq<Step>, p: Process, s: State, step: Step, s': State)
    requires Solo(naming, start, steps, p, s)
    requires (step.Advance? || step.Fail?) && step.p == p && Next(naming, s, step) == Some(s')
    ensures Solo(naming, start, steps + [step], p, s')
  {
    RunOneMore(naming, start, steps, step);
  }

  const NO_FAULTS := Faults(false, false, false, false)

  /** The marker is trusted: nothing is fetched. */
  predicate IsHit(disk: Disk, noCache: bool) {
    !noCache && disk.done && Payload in disk.names
  }

  /** What a fetch leaves: after one without faults a complete payload and the marker, after any
      other no marker; and unless the payload was replaced, the old one under its name. */
  ghost predicate IsFetched(before: Disk, faults: Faults, ok: bool, after: Disk) {
    && ok == (faults == NO_FAULTS) && after.done == ok
    && if faults.create || faults.copy || faults.rename then
         && (Payload in after.names <==> Payload in before.names)
         && (Payload in before.names ==> after.names[Payload] == before.names[Payload])
       else
         && Payload in after.names && after.names[Payload] in after.content
         && after.content[after.names[Payload]].Complete?
  }

  class CacheDir {
    var disk: Disk

    /** One attempt to produce the payload: a hit, or a fetch that publishes it. With a fixed
        part name this is BuildTarball's and fetchTarball's, with a temporary name of its own
        it is downloadCached's. */
    method Obtain(naming: Naming, p: Process, noCache: bool, faults: Faults)
      returns (ok: bool, ghost run: seq<Step>, ghost end: State)
      requires naming.UniqueTemp? ==> Part(p) !in disk.names
      modifies this
      ensures Solo(naming, State(old(disk), map[], {}), run, p, end) && end.disk == disk
      ensures end.procs[p] == if ok then Succeeded(IsHit(old(disk), noCache)) else Failed
      ensures IsHit(old(disk), noCache) ==> ok && disk == old(disk)
      ensures !IsHit(old(disk), noCache) ==> IsFetched(old(disk), faults, ok, disk)
    {
      ghost var start := State(disk, map[], {});
      run := [Begin(p, noCache)];
      end := Next(naming, start, Begin(p, noCache)).value;
      assert run[1..] == [];
      if noCache {
        disk := disk.(done := false);
        run, end := Took(naming, start, run, p, end, Advance(p));
      }
      run, end := Took(naming, start, run, p, end, Advance(p));
      if disk.done {
        run, end := Took(naming, start, run, p, end, Advance(p));
        if Payload in disk.names {
          return true, run, end;
        }
        disk := disk.(done := false);
        run, end := Took(naming, start, run, p, end, Advance(p));
      }
      ok, run, end := FetchAndPublish(naming, p, faults, start, run, end);
    }

    method FetchAndPublish(naming: Naming, p: Process, faults: Faults,
                           ghost start: State, ghost run: seq<Step>, ghost end: State)
      returns (ok: bool, ghost run': seq<Step>, ghost end': State)
      requires Solo(naming, start, run, p, end) && end.disk == disk
      requires end.procs == map[p := CreatePart] && !disk.done
      modifies this
      ensures Solo(naming, start, run', p, end') && end'.disk == disk
      ensures end'.procs[p] == if ok then Succeeded(false) else Failed
      ensures IsFetched(old(disk), faults, ok, disk)
    {
      var part := PartName(naming, p);
      run', end' := run, end;
      if faults.create {
        run', end' := Took(naming, start, run', p, end', Fail(p));
        return false, run', end';
      }
      var created := Create(disk, part);
      disk := created.0;
      run', end' := Took(naming, start, run', p, end', Advance(p));
      ok, run', end' := CopyAndPublish(naming, p, faults, created.1, start, run', end');
    }

    method CopyAndPublish(naming: Naming, p: Process, faults: Faults, file: nat,
                          ghost start: State, ghost run: seq<Step>, ghost end: State)
      returns (ok: bool, ghost run': seq<Step>, ghost end': State)
      requires Solo(naming, start, run, p, end) && end.disk == disk
      requires end.procs == map[p := Copying(file)] && !disk.done && !faults.create
      requires PartName(naming, p) in disk.names && disk.names[PartName(naming, p)] == file
      modifies this
      ensures Solo(naming, start, run', p, end') && end'.disk == disk
      ensures end'.procs[p] == if ok then Succeeded(false) else Failed
      ensures IsFetched(old(disk), faults, ok, disk)
    {
      var part := PartName(naming, p);
      run', end' := run, end;
      if faults.copy {
        run', end' := Took(naming, start, run', p, end', Fail(p));
        disk := Removed(disk, part);
        run', end' := Took(naming, start, run', p, end', Advance(p));
        return false, run', end';
      }
      disk := disk.(content := disk.content[file := Complete]);
      run', end' := Took(naming, start, run', p, end', Advance(p));
      ok, run', end' := Publish(naming, p, faults, start, run', end');
    }

    method Publish(naming: Naming, p: Process, faults: Faults,
                   ghost start: State, ghost run: seq<Step>, ghost end: State)
      returns (ok: bool, ghost run': seq<Step>, ghost end': State)
      requires Solo(naming, start, run, p, end) && end.disk == disk
      requires end.procs == map[p := RenamePart] && !disk.done && !faults.create && !faults.copy
      requires PartName(naming, p) in disk.names && disk.names[PartName(naming, p)] in disk.content
      requires disk.content[disk.names[PartName(naming, p)]].Complete?
      modifies this
      ensures Solo(naming, start, run', p, end') && end'.disk == disk
      ensures end'.procs[p] == if ok then Succeeded(false) else Failed
      ensures IsFetched(old(disk), faults, ok, disk)
    {
      var part := PartName(naming, p);
      run', end' := run, end;
      if faults.rename {
        run', end' := Took(naming, start, run', p, end', Fail(p));
        if naming.UniqueTemp? {
          disk := Removed(disk, part);
          run', end' := Took(naming, start, run', p, end', Advance(p));
        }
        return false, run', end';
      }
      disk := Rename(disk, part);
      run', end' := Took(naming, start, run', p, end', Advance(p));
      if faults.marker {
        run', end' := Took(naming, start, run', p, end', Fail(p));
        return false, run', end';
      }
      disk := disk.(done := true);
      run', end' := Took(naming, start, run', p, end', Advance(p));
      return true, run', end';
    }
  }

  /** Records a step that an attempt has taken. */
  ghost method Took(naming: Naming, start: State, run: seq<Step>, p: Process, end: State, step: Step)
    returns (run': seq<Step>, end': State)
    requires Solo(naming, start, run, p, end)
    requires (step.Advance? || step.Fail?) && step.p == p && Next(naming, end, step).Some?
    ensures run' == run + [step] && end' == Next(naming, end, step).value
    ensures Solo(naming, start, run', p, end')
  {
    run', end' := run + [step], Next(naming, end, step).value;
    SoloStep(naming, start, run, p, end, step, end');
  }

  /** An attempt that is alone and reports success leaves the complete payload in place. */
  lemma SoloSuccessHasPayload(naming: Naming, disk: Disk, run: seq<Step>, p: Process, end: State)
    requires Consistent(disk) && Solo(naming, State(disk, map[], {}), run, p, end)
    ensures Consistent(end.disk)
    ensures end.procs[p].Succeeded? ==> Payload in end.disk.names && Sound(end.disk)
  {
    var start := State(disk, map[], {});
    SoloRunIsExclusive(naming, start, run, p);
    CacheIsCrashSafe(naming, disk, run);
    NothingDeleted(naming, start, run);
  }

  lemma {:induction false} NothingDeleted(naming: Naming, s: State, steps: seq<Step>)
    requires forall i :: 0 <= i < |steps| ==> !steps[i].DeletePayload?
    ensures Run(naming, s, steps).Some? ==> Run(naming, s, steps).value.bereft == s.bereft
    decreases |steps|
  {
    if steps != [] && Next(naming, s, steps[0]).Some? {
      NothingDeleted(naming, Next(naming, s, steps[0]).value, steps[1..]);
    }
  }
}
