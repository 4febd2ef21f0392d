/**
 * Patching the registry hives of a WIM image: writes are grouped per hive so that each hive
 * is extracted, patched and staged once.
 */
module WimPatch {
  import opened Splitting
  import opened Wrappers

  type Path = string

  /** A change to one hive: a DWORD patch or a key write. */
  datatype Write<Op> = Write(hivePath: Path, op: Op)

  datatype Group<Op> = Group(hivePath: Path, dwordPatches: seq<Write<Op>>, keyWrites: seq<Write<Op>>)

  // ----- Grouping

  /** The writes to one hive, in order. */
  function WritesTo<Op>(writes: seq<Write<Op>>, hivePath: Path): seq<Write<Op>> {
    if |writes| == 0 then []
    else
      var n := |writes| - 1;
      WritesTo(writes[..n], hivePath) + if writes[n].hivePath == hivePath then [writes[n]] else []
  }

  /** The hives written to, in order of first mention. */
  function FirstMentions<Op>(writes: seq<Write<Op>>): seq<Path> {
    if |writes| == 0 then []
    else
      var n := |writes| - 1;
      var before := FirstMentions(writes[..n]);
      if writes[n].hivePath in before then before else before + [writes[n].hivePath]
  }

  /** The groups of a patch set: one for each hive, in order of first mention, holding all of
      its DWORD patches and all of its key writes in order. */
  ghost predicate IsGrouping<Op>(dwords: seq<Write<Op>>, keys: seq<Write<Op>>, groups: seq<Group<Op>>) {
    && |groups| == |FirstMentions(dwords + keys)|
    && forall i :: 0 <= i < |groups| ==>
         && groups[i].hivePath == FirstMentions(dwords + keys)[i]
         && groups[i].dwordPatches == WritesTo(dwords, groups[i].hivePath)
         && groups[i].keyWrites == WritesTo(keys, groups[i].hivePath)
  }

  ghost predicate Mentioned<Op>(writes: seq<Write<Op>>, p: Path) {
    exists k :: 0 <= k < |writes| && writes[k].hivePath == p
  }

  lemma MentionedLast<Op>(writes: seq<Write<Op>>, w: Write<Op>, p: Path)
    ensures Mentioned(writes + [w], p) <==> Mentioned(writes, p) || w.hivePath == p
  {
    var all := writes + [w];
    assert all[|writes|] == w;
    assert forall k :: 0 <= k < |writes| ==> all[k] == writes[k];
  }

  ghost predicate Distinct(paths: seq<Path>) {
    forall i, j :: 0 <= i < j < |paths| ==> paths[i] != paths[j]
  }

  /** Each mentioned hive is listed once, and no other. */
  lemma {:induction false} MentionsAreDistinct<Op>(writes: seq<Write<Op>>)
    ensures Distinct(FirstMentions(writes))
    ensures forall p :: p in FirstMentions(writes) <==> Mentioned(writes, p)
  {
    if writes != [] {
      var n := |writes| - 1;
      MentionsAreDistinct(writes[..n]);
      assert writes == writes[..n] + [writes[n]];
      forall p ensures p in FirstMentions(writes) <==> Mentioned(writes, p) {
        MentionedLast(writes[..n], writes[n], p);
      }
    }
  }

  lemma {:induction false} NothingToUnmentioned<Op>(writes: seq<Write<Op>>, hivePath: Path)
    ensures WritesTo(writes, hivePath) == [] <==> !Mentioned(writes, hivePath)
  {
    if writes != [] {
      var n := |writes| - 1;
      NothingToUnmentioned(writes[..n], hivePath);
      assert writes == writes[..n] + [writes[n]];
      MentionedLast(writes[..n], writes[n], hivePath);
    }
  }

  /** Which group a hive belongs to. */
  ghost predicate Indexes<Op>(index: map<Path, nat>, groups: seq<Group<Op>>) {
    && (forall p :: p in index ==> index[p] < |groups| && groups[index[p]].hivePath == p)
    && (forall i :: 0 <= i < |groups| ==> groups[i].hivePath in index && index[groups[i].hivePath] == i)
  }

  /** After is before, with a new empty group if the hive has none; i is its position. */
  ghost predicate Ensured<Op>(before: seq<Group<Op>>, hivePath: Path, after: seq<Group<Op>>, i: nat) {
    && i < |after| && after[i].hivePath == hivePath
    && if i < |before| then after == before
       else after == before + [Group(hivePath, [], [])]
            && forall j :: 0 <= j < |before| ==> before[j].hivePath != hivePath
  }

  function WithDWord<Op>(groups: seq<Group<Op>>, i: nat, w: Write<Op>): (r: seq<Group<Op>>)
    requires i < |groups|
    ensures forall index :: Indexes(index, groups) ==> Indexes(index, r)
  {
    groups[i := groups[i].(dwordPatches := groups[i].dwordPatches + [w])]
  }

  function WithKey<Op>(groups: seq<Group<Op>>, i: nat, w: Write<Op>): (r: seq<Group<Op>>)
    requires i < |groups|
    ensures forall index :: Indexes(index, groups) ==> Indexes(index, r)
  {
    groups[i := groups[i].(keyWrites := groups[i].keyWrites + [w])]
  }

  method Ensure<Op>(hivePath: Path, index: map<Path, nat>, groups: seq<Group<Op>>)
    returns (index': map<Path, nat>, groups': seq<Group<Op>>, i: nat)
    requires Indexes(index, groups)
    ensures Indexes(index', groups') && Ensured(groups, hivePath, groups', i)
  {
    if hivePath in index {
      return index, groups, index[hivePath];
    }
    index' := index[hivePath := |groups|];
    groups' := groups + [Group(hivePath, [], [])];
    i := |groups|;
  }

  method GroupRegistryWrites<Op>(dwords: seq<Write<Op>>, keys: seq<Write<Op>>) returns (groups: seq<Group<Op>>)
    ensures IsGrouping(dwords, keys, groups)
  {
    var index;
    index, groups := GroupDWords(dwords);
    groups := GroupKeys(dwords, keys, index, groups);
  }

  method AddDWord<Op>(ghost dwords: seq<Write<Op>>, w: Write<Op>, index0: map<Path, nat>, groups0: seq<Group<Op>>)
    returns (index: map<Path, nat>, groups: seq<Group<Op>>)
    requires Indexes(index0, groups0) && IsGrouping(dwords, [], groups0)
    ensures Indexes(index, groups) && IsGrouping(dwords + [w], [], groups)
  {
    var i;
    index, groups, i := Ensure(w.hivePath, index0, groups0);
    OneMoreDWord(dwords, w, groups0, groups, i);
    groups := WithDWord(groups, i, w);
  }

  method AddKey<Op>(ghost dwords: seq<Write<Op>>, ghost keys: seq<Write<Op>>, w: Write<Op>,
                    index0: map<Path, nat>, groups0: seq<Group<Op>>)
    returns (index: map<Path, nat>, groups: seq<Group<Op>>)
    requires Indexes(index0, groups0) && IsGrouping(dwords, keys, groups0)
    ensures Indexes(index, groups) && IsGrouping(dwords, keys + [w], groups)
  {
    var i;
    index, groups, i := Ensure(w.hivePath, index0, groups0);
    OneMoreKey(dwords, keys, w, groups0, groups, i);
    groups := WithKey(groups, i, w);
  }

  method GroupDWords<Op>(dwords: seq<Write<Op>>) returns (index: map<Path, nat>, groups: seq<Group<Op>>)
    ensures Indexes(index, groups) && IsGrouping(dwords, [], groups)
  {
    index, groups := map[], [];
    var k := 0;
    while k < |dwords|
      invariant 0 <= k <= |dwords|
      invariant Indexes(index, groups) && IsGrouping(dwords[..k], [], groups)
    {
      index, groups := AddDWord(dwords[..k], dwords[k], index, groups);
      assert dwords[..k + 1] == dwords[..k] + [dwords[k]];
      k := k + 1;
    }
    assert dwords[..|dwords|] == dwords;
  }

  method GroupKeys<Op>(ghost dwords: seq<Write<Op>>, keys: seq<Write<Op>>,
                       index0: map<Path, nat>, groups0: seq<Group<Op>>)
    returns (groups: seq<Group<Op>>)
    requires Indexes(index0, groups0) && IsGrouping(dwords, [], groups0)
    ensures IsGrouping(dwords, keys, groups)
  {
    var index := index0;
    groups := groups0;
    var k := 0;
    while k < |keys|
      invariant 0 <= k <= |keys|
      invariant Indexes(index, groups) && IsGrouping(dwords, keys[..k], groups)
    {
      index, groups := AddKey(dwords, keys[..k], keys[k], index, groups);
      assert keys[..k + 1] == keys[..k] + [keys[k]];
      k := k + 1;
    }
    assert keys[..|keys|] == keys;
  }

  lemma OneMore<Op>(writes: seq<Write<Op>>, w: Write<Op>, p: Path)
    ensures WritesTo(writes + [w], p) == WritesTo(writes, p) + if w.hivePath == p then [w] else []
    ensures FirstMentions(writes + [w]) ==
            if w.hivePath in FirstMentions(writes) then FirstMentions(writes) else FirstMentions(writes) + [w.hivePath]
  {
    assert (writes + [w])[..|writes|] == writes;
  }

  lemma OneMoreDWord<Op>(dwords: seq<Write<Op>>, w: Write<Op>, before: seq<Group<Op>>, ensured: seq<Group<Op>>, i: nat)
    requires IsGrouping(dwords, [], before) && Ensured(before, w.hivePath, ensured, i)
    ensures IsGrouping(dwords + [w], [], WithDWord(ensured, i, w))
  {
    var groups := WithDWord(ensured, i, w);
    assert dwords + [] == dwords && dwords + [w] + [] == dwords + [w];
    MentionsAreDistinct(dwords);
    OneMore(dwords, w, w.hivePath);
    NothingToUnmentioned(dwords, w.hivePath);
    assert i < |before| ==> before[i].hivePath in FirstMentions(dwords);
    forall j | 0 <= j < |groups|
      ensures groups[j].hivePath == FirstMentions(dwords + [w])[j]
      ensures groups[j].dwordPatches == WritesTo(dwords + [w], groups[j].hivePath)
      ensures groups[j].keyWrites == []
    {
      OneMore(dwords, w, groups[j].hivePath);
    }
  }

  /** No hive is extracted twice. */
  lemma GroupsAreDistinct<Op>(dwords: seq<Write<Op>>, keys: seq<Write<Op>>, groups: seq<Group<Op>>)
    requires IsGrouping(dwords, keys, groups)
    ensures forall i, j :: 0 <= i < j < |groups| ==> groups[i].hivePath != groups[j].hivePath
  {
    var m := FirstMentions(dwords + keys);
    MentionsAreDistinct(dwords + keys);
    forall i, j | 0 <= i < j < |groups| ensures groups[i].hivePath != groups[j].hivePath {
      assert m[i] != m[j];
    }
  }

  lemma OneMoreMention<Op>(dwords: seq<Write<Op>>, keys: seq<Write<Op>>, w: Write<Op>)
    ensures var mentions := FirstMentions(dwords + keys);
            FirstMentions(dwords + (keys + [w])) == if w.hivePath in mentions then mentions else mentions + [w.hivePath]
  {
    assert dwords + (keys + [w]) == dwords + keys + [w];
    OneMore(dwords + keys, w, w.hivePath);
  }

  lemma OneMoreKey<Op>(dwords: seq<Write<Op>>, keys: seq<Write<Op>>, w: Write<Op>,
                      before: seq<Group<Op>>, ensured: seq<Group<Op>>, i: nat)
    requires IsGrouping(dwords, keys, before) && Ensured(before, w.hivePath, ensured, i)
    ensures IsGrouping(dwords, keys + [w], WithKey(ensured, i, w))
  {
    var groups := WithKey(ensured, i, w);
    var mentions, mentions' := FirstMentions(dwords + keys), FirstMentions(dwords + (keys + [w]));
    OneMoreMention(dwords, keys, w);
    GroupsAreDistinct(dwords, keys, before);
    UnmentionedInParts(dwords, keys, w.hivePath);
    assert i < |before| ==> before[i].hivePath in mentions;
    forall j | 0 <= j < |groups|
      ensures groups[j].hivePath == mentions'[j]
      ensures groups[j].dwordPatches == WritesTo(dwords, groups[j].hivePath)
      ensures groups[j].keyWrites == WritesTo(keys + [w], groups[j].hivePath)
    {
      OneMore(keys, w, groups[j].hivePath);
    }
  }

  lemma UnmentionedInParts<Op>(dwords: seq<Write<Op>>, keys: seq<Write<Op>>, p: Path)
    ensures p !in FirstMentions(dwords + keys) ==> WritesTo(dwords, p) == [] && WritesTo(keys, p) == []
  {
    var all := dwords + keys;
    MentionsAreDistinct(all);
    NothingToUnmentioned(dwords, p);
    NothingToUnmentioned(keys, p);
    if Mentioned(dwords, p) {
      var k :| 0 <= k < |dwords| && dwords[k].hivePath == p;
      assert all[k].hivePath == p && Mentioned(all, p);
    }
    if Mentioned(keys, p) {
      var k :| 0 <= k < |keys| && keys[k].hivePath == p;
      assert all[|dwords| + k].hivePath == p && Mentioned(all, p);
    }
  }

  // ----- What patching means

  /** Applies the operations of writes to one hive, in order; None if one fails. */
  function ApplyAll<Hive, Op>(apply: (Hive, Op) -> Option<Hive>, hive: Hive, writes: seq<Write<Op>>): Option<Hive> {
    if |writes| == 0 then Some(hive)
    else
      var n := |writes| - 1;
      match ApplyAll(apply, hive, writes[..n])
      case None => None
      case Some(h) => apply(h, writes[n].op)
  }

  /** The reference: one write after the other, each to the hive as the previous left it.
      The function fileOf says which file of the image a hive path names. */
  function Sequential<Hive, Op>(apply: (Hive, Op) -> Option<Hive>, fileOf: Path -> Path, wim: map<Path, Hive>,
                                writes: seq<Write<Op>>): Option<map<Path, Hive>>
  {
    if |writes| == 0 then Some(wim)
    else
      var n := |writes| - 1;
      match Sequential(apply, fileOf, wim, writes[..n])
      case None => None
      case Some(patched) =>
        var file := fileOf(writes[n].hivePath);
        if file !in patched then None
        else
          match apply(patched[file], writes[n].op)
          case None => None
          case Some(h) => Some(patched[file := h])
  }

  /** What the code does: each group's hive is extracted from the original image, all of the
      group's writes are applied to that copy, and the copy is staged. */
  function Grouped<Hive, Op>(apply: (Hive, Op) -> Option<Hive>, fileOf: Path -> Path, wim: map<Path, Hive>,
                             groups: seq<Group<Op>>): Option<map<Path, Hive>>
  {
    if |groups| == 0 then Some(wim)
    else
      var n := |groups| - 1;
      match Grouped(apply, fileOf, wim, groups[..n])
      case None => None
      case Some(staged) =>
        var file := fileOf(groups[n].hivePath);
        if file !in wim then None
        else
          match ApplyAll(apply, wim[file], groups[n].dwordPatches + groups[n].keyWrites)
          case None => None
          case Some(h) => Some(staged[file := h])
  }

  // ----- Sequential patching, hive by hive

  /** The writes that end up in one file of the image. */
  function WritesInto<Op>(fileOf: Path -> Path, writes: seq<Write<Op>>, file: Path): seq<Write<Op>> {
    if |writes| == 0 then []
    else
      var n := |writes| - 1;
      WritesInto(fileOf, writes[..n], file) + if fileOf(writes[n].hivePath) == file then [writes[n]] else []
  }

  /** What becomes of each hive of an image, each taken by itself. */
  ghost predicate PatchesEachHive<Hive, Op>(apply: (Hive, Op) -> Option<Hive>, fileOf: Path -> Path,
                                            wim: map<Path, Hive>,
                                            writes: seq<Write<Op>>, r: Option<map<Path, Hive>>)
  {
    match r
    case Some(patched) =>
      && patched.Keys == wim.Keys
      && FilesExist(fileOf, wim.Keys, writes)
      && (forall file :: file in wim ==> HiveAfter(apply, fileOf, wim, writes, file) == Some(patched[file]))
    case None => SomeFails(apply, fileOf, wim, writes)
  }

  ghost predicate FilesExist<Op>(fileOf: Path -> Path, files: set<Path>, writes: seq<Write<Op>>) {
    forall k :: 0 <= k < |writes| ==> fileOf(writes[k].hivePath) in files
  }

  ghost predicate SomeFails<Hive, Op>(apply: (Hive, Op) -> Option<Hive>, fileOf: Path -> Path, wim: map<Path, Hive>,
                                      writes: seq<Write<Op>>)
  {
    exists k :: 0 <= k < |writes| && HiveAfter(apply, fileOf, wim, writes, fileOf(writes[k].hivePath)) == None
  }

  /** There is only one outcome that patches each hive. */
  lemma PatchesEachHiveIsUnique<Hive, Op>(apply: (Hive, Op) -> Option<Hive>, fileOf: Path -> Path, wim: map<Path, Hive>,
                                          writes: seq<Write<Op>>, r: Option<map<Path, Hive>>,
                                          r': Option<map<Path, Hive>>)
    requires PatchesEachHive(apply, fileOf, wim, writes, r) && PatchesEachHive(apply, fileOf, wim, writes, r')
    ensures r == r'
  {
    if r.Some? && r'.Some? {
      forall file | file in wim ensures r.value[file] == r'.value[file] {
        assert HiveAfter(apply, fileOf, wim, writes, file) == Some(r.value[file]);
        assert HiveAfter(apply, fileOf, wim, writes, file) == Some(r'.value[file]);
      }
      assert r.value == r'.value;
    }
  }

  lemma ApplyOneMore<Hive, Op>(apply: (Hive, Op) -> Option<Hive>, hive: Hive, writes: seq<Write<Op>>, w: Write<Op>)
    ensures ApplyAll(apply, hive, writes + [w]) ==
            var patched := ApplyAll(apply, hive, writes);
            if patched.None? then None else apply(patched.value, w.op)
  {
    assert (writes + [w])[..|writes|] == writes;
  }

  lemma IntoOneMore<Op>(fileOf: Path -> Path, writes: seq<Write<Op>>, w: Write<Op>, file: Path)
    ensures WritesInto(fileOf, writes + [w], file) ==
            WritesInto(fileOf, writes, file) + if fileOf(w.hivePath) == file then [w] else []
  {
    assert (writes + [w])[..|writes|] == writes;
  }

  lemma SequentialOneMore<Hive, Op>(apply: (Hive, Op) -> Option<Hive>, fileOf: Path -> Path, wim: map<Path, Hive>,
                                    writes: seq<Write<Op>>, w: Write<Op>)
    ensures Sequential(apply, fileOf, wim, writes + [w]) ==
            var patched := Sequential(apply, fileOf, wim, writes);
            if patched.None? then None else PatchedOnce(apply, patched.value, fileOf(w.hivePath), w.op)
  {
    assert (writes + [w])[..|writes|] == writes;
  }

  function PatchedOnce<Hive, Op>(apply: (Hive, Op) -> Option<Hive>, patched: map<Path, Hive>,
                                 file: Path, op: Op): Option<map<Path, Hive>> {
    if file !in patched then None
    else
      match apply(patched[file], op)
      case None => None
      case Some(h) => Some(patched[file := h])
  }

  /** What one file of an image becomes under the writes into it; None on a failure. */
  function HiveAfter<Hive, Op>(apply: (Hive, Op) -> Option<Hive>, fileOf: Path -> Path, wim: map<Path, Hive>,
                               writes: seq<Write<Op>>, file: Path): Option<Hive>
  {
    if file !in wim then None else ApplyAll(apply, wim[file], WritesInto(fileOf, writes, file))
  }

  lemma HiveAfterOneMore<Hive, Op>(apply: (Hive, Op) -> Option<Hive>, fileOf: Path -> Path, wim: map<Path, Hive>,
                                   writes: seq<Write<Op>>, w: Write<Op>, file: Path)
    ensures HiveAfter(apply, fileOf, wim, writes + [w], file) ==
            var patched := HiveAfter(apply, fileOf, wim, writes, file);
            if patched.Some? && fileOf(w.hivePath) == file then apply(patched.value, w.op) else patched
  {
    IntoOneMore(fileOf, writes, w, file);
    if file in wim {
      ApplyOneMore(apply, wim[file], WritesInto(fileOf, writes, file), w);
      assert WritesInto(fileOf, writes, file) + [] == WritesInto(fileOf, writes, file);
    }
  }

  /** The reference patches each hive by the writes into it, and fails exactly when one of
      these fails. */
  lemma {:induction false} SequentialPatchesEachHive<Hive, Op>(apply: (Hive, Op) -> Option<Hive>, fileOf: Path -> Path,
                                                              wim: map<Path, Hive>, writes: seq<Write<Op>>)
    ensures PatchesEachHive(apply, fileOf, wim, writes, Sequential(apply, fileOf, wim, writes))
  {
    if |writes| > 0 {
      SplitLast(writes);
      var front, w := writes[..|writes| - 1], writes[|writes| - 1];
      SequentialPatchesEachHive(apply, fileOf, wim, front);
      SequentialStep(apply, fileOf, wim, front, w);
    }
  }

  lemma SequentialStep<Hive, Op>(apply: (Hive, Op) -> Option<Hive>, fileOf: Path -> Path, wim: map<Path, Hive>,
                                 writes: seq<Write<Op>>, w: Write<Op>)
    requires PatchesEachHive(apply, fileOf, wim, writes, Sequential(apply, fileOf, wim, writes))
    ensures PatchesEachHive(apply, fileOf, wim, writes + [w], Sequential(apply, fileOf, wim, writes + [w]))
  {
    var before := Sequential(apply, fileOf, wim, writes);
    SequentialOneMore(apply, fileOf, wim, writes, w);
    if before == None {
      FailureStays(apply, fileOf, wim, writes, w);
    } else {
      SuccessContinues(apply, fileOf, wim, writes, w, before.value);
    }
  }

  lemma FailureStays<Hive, Op>(apply: (Hive, Op) -> Option<Hive>, fileOf: Path -> Path, wim: map<Path, Hive>,
                               writes: seq<Write<Op>>, w: Write<Op>)
    requires PatchesEachHive(apply, fileOf, wim, writes, None)
    ensures PatchesEachHive(apply, fileOf, wim, writes + [w], None)
  {
    var k :| 0 <= k < |writes| && HiveAfter(apply, fileOf, wim, writes, fileOf(writes[k].hivePath)) == None;
    HiveAfterOneMore(apply, fileOf, wim, writes, w, fileOf(writes[k].hivePath));
    assert (writes + [w])[k] == writes[k];
  }

  lemma SuccessfulHives<Hive, Op>(apply: (Hive, Op) -> Option<Hive>, fileOf: Path -> Path, wim: map<Path, Hive>,
                                  writes: seq<Write<Op>>, w: Write<Op>, patched: map<Path, Hive>)
    requires PatchesEachHive(apply, fileOf, wim, writes, Some(patched))
    requires PatchedOnce(apply, patched, fileOf(w.hivePath), w.op).Some?
    ensures var after := PatchedOnce(apply, patched, fileOf(w.hivePath), w.op).value;
            && after.Keys == wim.Keys
            && forall f :: f in wim ==> HiveAfter(apply, fileOf, wim, writes + [w], f) == Some(after[f])
  {
    var after := PatchedOnce(apply, patched, fileOf(w.hivePath), w.op).value;
    forall f | f in wim ensures HiveAfter(apply, fileOf, wim, writes + [w], f) == Some(after[f]) {
      HiveAfterOneMore(apply, fileOf, wim, writes, w, f);
    }
  }

  lemma FailureStarts<Hive, Op>(apply: (Hive, Op) -> Option<Hive>, fileOf: Path -> Path, wim: map<Path, Hive>,
                                writes: seq<Write<Op>>, w: Write<Op>, patched: map<Path, Hive>)
    requires PatchesEachHive(apply, fileOf, wim, writes, Some(patched))
    requires PatchedOnce(apply, patched, fileOf(w.hivePath), w.op).None?
    ensures SomeFails(apply, fileOf, wim, writes + [w])
  {
    HiveAfterOneMore(apply, fileOf, wim, writes, w, fileOf(w.hivePath));
    var all := writes + [w];
    assert all[|writes|] == w;
    assert HiveAfter(apply, fileOf, wim, all, fileOf(all[|writes|].hivePath)) == None;
  }

  lemma OneMoreExists<Op>(fileOf: Path -> Path, files: set<Path>, writes: seq<Write<Op>>, w: Write<Op>)
    requires FilesExist(fileOf, files, writes) && fileOf(w.hivePath) in files
    ensures FilesExist(fileOf, files, writes + [w])
  {
  }

  lemma SuccessContinues<Hive, Op>(apply: (Hive, Op) -> Option<Hive>, fileOf: Path -> Path, wim: map<Path, Hive>,
                                   writes: seq<Write<Op>>, w: Write<Op>, patched: map<Path, Hive>)
    requires PatchesEachHive(apply, fileOf, wim, writes, Some(patched))
    ensures PatchesEachHive(apply, fileOf, wim, writes + [w], PatchedOnce(apply, patched, fileOf(w.hivePath), w.op))
  {
    if PatchedOnce(apply, patched, fileOf(w.hivePath), w.op).Some? {
      SuccessfulHives(apply, fileOf, wim, writes, w, patched);
      OneMoreExists(fileOf, wim.Keys, writes, w);
    } else {
      FailureStarts(apply, fileOf, wim, writes, w, patched);
    }
  }

  // ----- Grouped patching preserves meaning

  /** Different spellings of a hive path do not name the same file. */
  ghost predicate NamesDistinctFiles<Op>(fileOf: Path -> Path, writes: seq<Write<Op>>) {
    forall p, q :: Mentioned(writes, p) && Mentioned(writes, q) && fileOf(p) == fileOf(q) ==> p == q
  }

  lemma {:induction false} IntoTogether<Op>(fileOf: Path -> Path, a: seq<Write<Op>>, b: seq<Write<Op>>, file: Path)
    ensures WritesInto(fileOf, a + b, file) == WritesInto(fileOf, a, file) + WritesInto(fileOf, b, file)
  {
    if |b| == 0 {
      assert a + b == a;
    } else {
      var n := |b| - 1;
      IntoTogether(fileOf, a, b[..n], file);
      IntoOneMore(fileOf, a + b[..n], b[n], file);
      assert a + b == a + b[..n] + [b[n]];
    }
  }

  lemma {:induction false} IntoOneHive<Op>(fileOf: Path -> Path, writes: seq<Write<Op>>, hivePath: Path)
    requires forall k :: 0 <= k < |writes| && fileOf(writes[k].hivePath) == fileOf(hivePath) ==>
               writes[k].hivePath == hivePath
    ensures WritesInto(fileOf, writes, fileOf(hivePath)) == WritesTo(writes, hivePath)
  {
    if |writes| > 0 {
      IntoOneHive(fileOf, writes[..|writes| - 1], hivePath);
    }
  }

  lemma {:induction false} IntoNoHive<Op>(fileOf: Path -> Path, writes: seq<Write<Op>>, file: Path)
    requires forall k :: 0 <= k < |writes| ==> fileOf(writes[k].hivePath) != file
    ensures WritesInto(fileOf, writes, file) == []
  {
    if |writes| > 0 {
      IntoNoHive(fileOf, writes[..|writes| - 1], file);
    }
  }

  /** A group holds exactly the writes into its file, DWORD patches first. */
  lemma GroupHoldsItsFile<Op>(fileOf: Path -> Path, dwords: seq<Write<Op>>, keys: seq<Write<Op>>,
                              groups: seq<Group<Op>>, i: nat)
    requires IsGrouping(dwords, keys, groups) && NamesDistinctFiles(fileOf, dwords + keys) && i < |groups|
    ensures WritesInto(fileOf, dwords + keys, fileOf(groups[i].hivePath))
            == groups[i].dwordPatches + groups[i].keyWrites
  {
    var p, all := groups[i].hivePath, dwords + keys;
    MentionsAreDistinct(all);
    assert p in FirstMentions(all);
    forall k | 0 <= k < |all| && fileOf(all[k].hivePath) == fileOf(p) ensures all[k].hivePath == p {
      assert Mentioned(all, all[k].hivePath);
    }
    assert forall k :: 0 <= k < |dwords| ==> all[k] == dwords[k];
    assert forall k :: 0 <= k < |keys| ==> all[|dwords| + k] == keys[k];
    IntoOneHive(fileOf, dwords, p);
    IntoOneHive(fileOf, keys, p);
    IntoTogether(fileOf, dwords, keys, fileOf(p));
  }

  /** What a group makes of its hive as extracted from the original image. */
  function GroupHive<Hive, Op>(apply: (Hive, Op) -> Option<Hive>, fileOf: Path -> Path, wim: map<Path, Hive>,
                               g: Group<Op>): Option<Hive> {
    if fileOf(g.hivePath) !in wim then None
    else ApplyAll(apply, wim[fileOf(g.hivePath)], g.dwordPatches + g.keyWrites)
  }

  ghost predicate DistinctFiles<Op>(fileOf: Path -> Path, groups: seq<Group<Op>>) {
    forall i, j :: 0 <= i < j < |groups| ==> fileOf(groups[i].hivePath) != fileOf(groups[j].hivePath)
  }

  /** The staged image holds each group's hive, and the original hives elsewhere. */
  ghost predicate StagesEachGroup<Hive, Op>(apply: (Hive, Op) -> Option<Hive>, fileOf: Path -> Path,
                                            wim: map<Path, Hive>,
                                            groups: seq<Group<Op>>, r: Option<map<Path, Hive>>)
  {
    match r
    case Some(staged) =>
      && staged.Keys == wim.Keys
      && (forall i :: 0 <= i < |groups| ==> fileOf(groups[i].hivePath) in wim)
      && (forall i :: 0 <= i < |groups| ==>
            GroupHive(apply, fileOf, wim, groups[i]) == Some(staged[fileOf(groups[i].hivePath)]))
      && (forall f :: f in wim && (forall i :: 0 <= i < |groups| ==> fileOf(groups[i].hivePath) != f) ==>
            staged[f] == wim[f])
    case None => exists i :: 0 <= i < |groups| && GroupHive(apply, fileOf, wim, groups[i]) == None
  }

  lemma {:induction false} GroupedStagesEachGroup<Hive, Op>(apply: (Hive, Op) -> Option<Hive>, fileOf: Path -> Path,
                                                           wim: map<Path, Hive>, groups: seq<Group<Op>>)
    requires DistinctFiles(fileOf, groups)
    ensures StagesEachGroup(apply, fileOf, wim, groups, Grouped(apply, fileOf, wim, groups))
  {
    if |groups| > 0 {
      var n := |groups| - 1;
      GroupedStagesEachGroup(apply, fileOf, wim, groups[..n]);
      GroupedStep(apply, fileOf, wim, groups[..n], groups[n], Grouped(apply, fileOf, wim, groups[..n]));
      assert groups == groups[..n] + [groups[n]];
    }
  }

  lemma GroupedStep<Hive, Op>(apply: (Hive, Op) -> Option<Hive>, fileOf: Path -> Path, wim: map<Path, Hive>,
                              groups: seq<Group<Op>>, g: Group<Op>, before: Option<map<Path, Hive>>)
    requires DistinctFiles(fileOf, groups + [g]) && StagesEachGroup(apply, fileOf, wim, groups, before)
    ensures StagesEachGroup(apply, fileOf, wim, groups + [g],
                            if before == None || GroupHive(apply, fileOf, wim, g) == None then None
                            else Some(before.value[fileOf(g.hivePath) := GroupHive(apply, fileOf, wim, g).value]))
  {
    var all := groups + [g];
    assert all[|groups|] == g;
    assert forall i :: 0 <= i < |groups| ==> all[i] == groups[i];
    if before == None {
      var i :| 0 <= i < |groups| && GroupHive(apply, fileOf, wim, groups[i]) == None;
      assert GroupHive(apply, fileOf, wim, all[i]) == None;
    } else if GroupHive(apply, fileOf, wim, g) == None {
      assert GroupHive(apply, fileOf, wim, all[|groups|]) == None;
    } else {
      forall i | 0 <= i < |groups| ensures fileOf(all[i].hivePath) != fileOf(g.hivePath) {
        assert fileOf(all[i].hivePath) != fileOf(all[|groups|].hivePath);
      }
    }
  }

  lemma GroupsNameDistinctFiles<Op>(fileOf: Path -> Path, dwords: seq<Write<Op>>, keys: seq<Write<Op>>,
                                    groups: seq<Group<Op>>)
    requires IsGrouping(dwords, keys, groups) && NamesDistinctFiles(fileOf, dwords + keys)
    ensures DistinctFiles(fileOf, groups)
  {
    GroupsAreDistinct(dwords, keys, groups);
    MentionsAreDistinct(dwords + keys);
    forall i | 0 <= i < |groups| ensures Mentioned(dwords + keys, groups[i].hivePath) {
      assert groups[i].hivePath in FirstMentions(dwords + keys);
    }
  }

  /** Every write belongs to a group. */
  lemma WriteHasGroup<Op>(dwords: seq<Write<Op>>, keys: seq<Write<Op>>, groups: seq<Group<Op>>, k: nat) returns (i: nat)
    requires IsGrouping(dwords, keys, groups) && k < |dwords + keys|
    ensures i < |groups| && groups[i].hivePath == (dwords + keys)[k].hivePath
  {
    var all := dwords + keys;
    MentionsAreDistinct(all);
    assert Mentioned(all, all[k].hivePath);
    i :| 0 <= i < |FirstMentions(all)| && FirstMentions(all)[i] == all[k].hivePath;
  }

  lemma GroupedPatchesEachHive<Hive, Op>(apply: (Hive, Op) -> Option<Hive>, fileOf: Path -> Path, wim: map<Path, Hive>,
                                         dwords: seq<Write<Op>>, keys: seq<Write<Op>>, groups: seq<Group<Op>>,
                                         r: Option<map<Path, Hive>>)
    requires IsGrouping(dwords, keys, groups) && NamesDistinctFiles(fileOf, dwords + keys)
    requires StagesEachGroup(apply, fileOf, wim, groups, r)
    ensures PatchesEachHive(apply, fileOf, wim, dwords + keys, r)
  {
    var all := dwords + keys;
    forall i | 0 <= i < |groups|
      ensures GroupHive(apply, fileOf, wim, groups[i]) == HiveAfter(apply, fileOf, wim, all, fileOf(groups[i].hivePath))
    {
      GroupHoldsItsFile(fileOf, dwords, keys, groups, i);
    }
    if r == None {
      var i :| 0 <= i < |groups| && GroupHive(apply, fileOf, wim, groups[i]) == None;
      MentionsAreDistinct(all);
      assert groups[i].hivePath in FirstMentions(all);
      var k :| 0 <= k < |all| && all[k].hivePath == groups[i].hivePath;
    } else {
      forall k | 0 <= k < |all| ensures fileOf(all[k].hivePath) in wim {
        var i := WriteHasGroup(dwords, keys, groups, k);
      }
      forall f | f in wim ensures HiveAfter(apply, fileOf, wim, all, f) == Some(r.value[f]) {
        if i :| 0 <= i < |groups| && fileOf(groups[i].hivePath) == f {
        } else {
          forall k | 0 <= k < |all| ensures fileOf(all[k].hivePath) != f {
            var i := WriteHasGroup(dwords, keys, groups, k);
          }
          IntoNoHive(fileOf, all, f);
        }
      }
    }
  }

  /** Grouped patching preserves meaning: when no two spellings name one file, extracting
      each original hive once, applying its group and staging it gives the image, or the
      failure, of applying all DWORD patches and then all key writes one by one. */
  lemma GroupingPreservesMeaning<Hive, Op>(apply: (Hive, Op) -> Option<Hive>, fileOf: Path -> Path,
                                           wim: map<Path, Hive>,
                                           dwords: seq<Write<Op>>, keys: seq<Write<Op>>, groups: seq<Group<Op>>)
    requires IsGrouping(dwords, keys, groups) && NamesDistinctFiles(fileOf, dwords + keys)
    ensures Grouped(apply, fileOf, wim, groups) == Sequential(apply, fileOf, wim, dwords + keys)
  {
    var r := Grouped(apply, fileOf, wim, groups);
    GroupsNameDistinctFiles(fileOf, dwords, keys, groups);
    GroupedStagesEachGroup(apply, fileOf, wim, groups);
    GroupedPatchesEachHive(apply, fileOf, wim, dwords, keys, groups, r);
    SequentialPatchesEachHive(apply, fileOf, wim, dwords + keys);
    PatchesEachHiveIsUnique(apply, fileOf, wim, dwords + keys, r, Sequential(apply, fileOf, wim, dwords + keys));
  }

  // ----- Where the condition and the grouping matter

  /** Hives that are logs of the operations applied to them. */
  function Append<Op>(): (seq<Op>, Op) -> Option<seq<Op>> {
    (log, op) => Some(log + [op])
  }

  lemma {:induction false} LogsGrow<Op>(log: seq<Op>, writes: seq<Write<Op>>)
    ensures var r := ApplyAll(Append(), log, writes); r.Some? && |r.value| == |log| + |writes|
  {
    if |writes| > 0 {
      LogsGrow(log, writes[..|writes| - 1]);
    }
  }

  ghost function FilesOf<Op>(fileOf: Path -> Path, writes: seq<Write<Op>>): set<Path> {
    set w | w in writes :: fileOf(w.hivePath)
  }

  /** An image of empty logs for the files that writes go to. */
  ghost function EmptyLogs<Op>(fileOf: Path -> Path, writes: seq<Write<Op>>): map<Path, seq<Op>> {
    map file | file in FilesOf(fileOf, writes) :: []
  }

  lemma SequentialKeepsAll<Op>(fileOf: Path -> Path, writes: seq<Write<Op>>, file: Path)
    requires file in EmptyLogs(fileOf, writes)
    ensures var r := Sequential(Append(), fileOf, EmptyLogs(fileOf, writes), writes);
            r.Some? && file in r.value && |r.value[file]| == |WritesInto(fileOf, writes, file)|
  {
    var wim := EmptyLogs(fileOf, writes);
    SequentialPatchesEachHive(Append(), fileOf, wim, writes);
    forall f | f in wim ensures HiveAfter(Append(), fileOf, wim, writes, f).Some? {
      LogsGrow(wim[f], WritesInto(fileOf, writes, f));
    }
    LogsGrow(wim[file], WritesInto(fileOf, writes, file));
    assert HiveAfter(Append(), fileOf, wim, writes, file)
        == ApplyAll(Append(), wim[file], WritesInto(fileOf, writes, file));
  }

  /** A staged log is that of one group: the last one for its file. */
  lemma {:induction false} GroupedKeepsOneGroup<Op>(
      fileOf: Path -> Path, wim: map<Path, seq<Op>>, groups: seq<Group<Op>>, i: nat) returns (j: nat)
    requires i < |groups| && Grouped(Append(), fileOf, wim, groups).Some?
    ensures j < |groups| && fileOf(groups[j].hivePath) == fileOf(groups[i].hivePath)
    ensures var staged, file := Grouped(Append(), fileOf, wim, groups).value, fileOf(groups[i].hivePath);
            && file in wim && file in staged
            && |staged[file]| == |wim[file]| + |groups[j].dwordPatches| + |groups[j].keyWrites|
    decreases |groups|
  {
    var n := |groups| - 1;
    var g := groups[n];
    assert Grouped(Append(), fileOf, wim, groups[..n]).Some? && fileOf(g.hivePath) in wim;
    if fileOf(g.hivePath) == fileOf(groups[i].hivePath) {
      j := n;
      LogsGrow(wim[fileOf(g.hivePath)], g.dwordPatches + g.keyWrites);
    } else {
      j := GroupedKeepsOneGroup(fileOf, wim, groups[..n], i);
    }
  }

  /** Two spellings of a file have their writes apart. */
  lemma {:induction false} SpellingsShareFile<Op>(fileOf: Path -> Path, writes: seq<Write<Op>>, p: Path, q: Path)
    requires p != q && fileOf(p) == fileOf(q)
    ensures |WritesTo(writes, p)| + |WritesTo(writes, q)| <= |WritesInto(fileOf, writes, fileOf(p))|
  {
    if |writes| > 0 {
      SpellingsShareFile(fileOf, writes[..|writes| - 1], p, q);
    }
  }

  /** The group of one spelling is shorter than what goes into the file under two. */
  lemma GroupMissesOtherSpelling<Op>(fileOf: Path -> Path, dwords: seq<Write<Op>>, keys: seq<Write<Op>>,
                                     p: Path, q: Path)
    requires p != q && fileOf(p) == fileOf(q) && Mentioned(dwords + keys, q)
    ensures |WritesTo(dwords, p)| + |WritesTo(keys, p)| < |WritesInto(fileOf, dwords + keys, fileOf(p))|
  {
    SpellingsShareFile(fileOf, dwords, p, q);
    SpellingsShareFile(fileOf, keys, p, q);
    IntoTogether(fileOf, dwords, keys, fileOf(p));
    NothingToUnmentioned(dwords, q);
    NothingToUnmentioned(keys, q);
    var k :| 0 <= k < |dwords + keys| && (dwords + keys)[k].hivePath == q;
    assert k < |dwords| ==> dwords[k].hivePath == q;
    assert k >= |dwords| ==> keys[k - |dwords|].hivePath == q;
  }

  lemma AliasedHiveLosesWrites<Op>(fileOf: Path -> Path, dwords: seq<Write<Op>>, keys: seq<Write<Op>>,
                                   groups: seq<Group<Op>>, p: Path, q: Path)
    requires IsGrouping(dwords, keys, groups) && p != q && fileOf(p) == fileOf(q)
    requires Mentioned(dwords + keys, p) && Mentioned(dwords + keys, q)
    ensures var wim := EmptyLogs(fileOf, dwords + keys);
            Grouped(Append(), fileOf, wim, groups) != Sequential(Append(), fileOf, wim, dwords + keys)
  {
    var writes, file := dwords + keys, fileOf(p);
    var wim := EmptyLogs(fileOf, writes);
    var k :| 0 <= k < |writes| && writes[k].hivePath == p;
    assert file in wim;
    SequentialKeepsAll(fileOf, writes, file);
    if Grouped(Append(), fileOf, wim, groups).Some? {
      var i := WriteHasGroup(dwords, keys, groups, k);
      var j := GroupedKeepsOneGroup(fileOf, wim, groups, i);
      var spelling := groups[j].hivePath;
      GroupMissesOtherSpelling(fileOf, dwords, keys, spelling, if spelling == p then q else p);
    }
  }

  /** Groups are keyed by spelling, so for a given patch set grouped and sequential patching
      agree on every image exactly when no two of its spellings name one file; otherwise the
      writes of one spelling are lost. */
  lemma GroupingIsFaithfulIff<Op(!new)>(fileOf: Path -> Path, dwords: seq<Write<Op>>,
                                          keys: seq<Write<Op>>, groups: seq<Group<Op>>)
    requires IsGrouping(dwords, keys, groups)
    ensures (forall wim: map<Path, seq<Op>> ::
               Grouped(Append(), fileOf, wim, groups) == Sequential(Append(), fileOf, wim, dwords + keys))
            <==> NamesDistinctFiles(fileOf, dwords + keys)
  {
    if NamesDistinctFiles(fileOf, dwords + keys) {
      forall wim: map<Path, seq<Op>>
        ensures Grouped(Append(), fileOf, wim, groups) == Sequential(Append(), fileOf, wim, dwords + keys)
      {
        GroupingPreservesMeaning(Append(), fileOf, wim, dwords, keys, groups);
      }
    } else {
      var p, q :| Mentioned(dwords + keys, p) && Mentioned(dwords + keys, q) && fileOf(p) == fileOf(q) && p != q;
      AliasedHiveLosesWrites(fileOf, dwords, keys, groups, p, q);
    }
  }

  ghost predicate GroupingIsFaithful(fileOf: Path -> Path) {
    forall wim: map<Path, seq<int>>, dwords: seq<Write<int>>, keys: seq<Write<int>>, groups: seq<Group<int>> ::
      IsGrouping(dwords, keys, groups) ==>
        Grouped(Append(), fileOf, wim, groups) == Sequential(Append(), fileOf, wim, dwords + keys)
  }

  /** So it is faithful for every patch set exactly when spellings and files correspond. */
  lemma EveryGroupingIsFaithfulIff(fileOf: Path -> Path)
    ensures GroupingIsFaithful(fileOf) <==> forall p, q :: fileOf(p) == fileOf(q) ==> p == q
  {
    if p, q :| fileOf(p) == fileOf(q) && p != q {
      var w1, w2 := Write(p, 1), Write(q, 2);
      TwoHives(p, q, w1, w2);
      assert ([w1] + [w2])[0] == w1 && ([w1] + [w2])[1] == w2;
      AliasedHiveLosesWrites(fileOf, [w1], [w2], [Group(p, [w1], []), Group(q, [], [w2])], p, q);
    } else {
      forall wim: map<Path, seq<int>>, dwords: seq<Write<int>>, keys: seq<Write<int>>, groups: seq<Group<int>>
        | IsGrouping(dwords, keys, groups)
        ensures Grouped(Append(), fileOf, wim, groups) == Sequential(Append(), fileOf, wim, dwords + keys)
      {
        GroupingPreservesMeaning(Append(), fileOf, wim, dwords, keys, groups);
      }
    }
  }

  lemma TwoHives(p: Path, q: Path, w1: Write<int>, w2: Write<int>)
    requires p != q && w1.hivePath == p && w2.hivePath == q
    ensures IsGrouping([w1], [w2], [Group(p, [w1], []), Group(q, [], [w2])])
  {
    SingleWrite(w1, p);
    SingleWrite(w1, q);
    SingleWrite(w2, p);
    SingleWrite(w2, q);
    MentionsOfTwo(w1, w2);
    GroupsOfTwo([w1], [w2], Group(p, [w1], []), Group(q, [], [w2]));
  }

  lemma GroupsOfTwo(dwords: seq<Write<int>>, keys: seq<Write<int>>, g: Group<int>, h: Group<int>)
    requires FirstMentions(dwords + keys) == [g.hivePath, h.hivePath]
    requires g.dwordPatches == WritesTo(dwords, g.hivePath) && g.keyWrites == WritesTo(keys, g.hivePath)
    requires h.dwordPatches == WritesTo(dwords, h.hivePath) && h.keyWrites == WritesTo(keys, h.hivePath)
    ensures IsGrouping(dwords, keys, [g, h])
  {
  }

  lemma SingleWrite(w: Write<int>, p: Path)
    ensures WritesTo([w], p) == if w.hivePath == p then [w] else []
  {
    assert [w][..0] == [];
  }

  lemma MentionsOfTwo(w1: Write<int>, w2: Write<int>)
    requires w1.hivePath != w2.hivePath
    ensures FirstMentions([w1] + [w2]) == [w1.hivePath, w2.hivePath]
  {
    var both := [w1] + [w2];
    assert both[..1] == [w1] && [w1][..0] == [];
    assert FirstMentions([w1]) == [w1.hivePath];
  }

  /** Extracting and staging a hive for each write instead. */
  function Separately<Hive, Op>(apply: (Hive, Op) -> Option<Hive>, fileOf: Path -> Path, wim: map<Path, Hive>,
                                writes: seq<Write<Op>>): Option<map<Path, Hive>>
  {
    if |writes| == 0 then Some(wim)
    else
      var n := |writes| - 1;
      match Separately(apply, fileOf, wim, writes[..n])
      case None => None
      case Some(staged) =>
        var file := fileOf(writes[n].hivePath);
        if file !in wim then None
        else
          match apply(wim[file], writes[n].op)
          case None => None
          case Some(h) => Some(staged[file := h])
  }

  /** Extracting separately for each write would lose all but the last write to a hive. */
  lemma SeparateStagingKeepsOnlyLast<Hive, Op>(apply: (Hive, Op) -> Option<Hive>, fileOf: Path -> Path,
                                               wim: map<Path, Hive>,
                                               writes: seq<Write<Op>>, w: Write<Op>)
    ensures var r := Separately(apply, fileOf, wim, writes + [w]);
            var file := fileOf(w.hivePath);
            r.Some? ==> file in r.value && file in wim && Some(r.value[file]) == apply(wim[file], w.op)
  {
    assert (writes + [w])[..|writes|] == writes;
  }
}
