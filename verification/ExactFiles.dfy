/**
 * Restoring the true sizes of all exact files of a FAT image: which directory slot ends up
 * with which size, over any list of files and any order of patching them.
 */
module ExactFiles {
  import opened Bytes
  import opened FatCluster
  import opened FatDirectoryPatch
  import opened ImageFile
  import opened IsoLookup
  import opened Splitting
  import opened Wrappers

  /** An exact file as the loop sees it: short name, size as written, true size. */
  datatype Patch = Patch(name: ShortName, padded: uint32, size: uint32)

  /** The patch of one file has succeeded. */
  ghost predicate IsPatched(pre: seq<byte>, p: Patch, post: seq<byte>) {
    exists slot: nat :: IsFirstSlot(pre, p.name, p.padded, slot) && Resized(pre, slot, p.size, post)
  }

  /** The patches of all files have succeeded, one after the other. */
  ghost predicate IsPatchedAll(pre: seq<byte>, patches: seq<Patch>, post: seq<byte>)
    decreases |patches|
  {
    if patches == [] then post == pre
    else exists mid: seq<byte> :: IsPatched(pre, patches[0], mid) && IsPatchedAll(mid, patches[1..], post)
  }

  lemma {:induction false} OneMoreIsPatched(pre: seq<byte>, patches: seq<Patch>, mid: seq<byte>,
                                            p: Patch, post: seq<byte>)
    requires IsPatchedAll(pre, patches, mid) && IsPatched(mid, p, post)
    ensures IsPatchedAll(pre, patches + [p], post)
    decreases |patches|
  {
    var all := patches + [p];
    if patches == [] {
      assert all[1..] == [];
      assert IsPatchedAll(post, all[1..], post);
    } else {
      var next: seq<byte> :| IsPatched(pre, patches[0], next) && IsPatchedAll(next, patches[1..], mid);
      OneMoreIsPatched(next, patches[1..], mid, p, post);
      assert all[1..] == patches[1..] + [p];
    }
  }

  // ----- The loop

  const MODULUS: nat := 0x1_0000_0000

  /** The last element of a path. */
  function Base(path: Path): seq<byte> {
    var trimmed := TrimSlashes(path);
    if path == [] then [FatDirectoryPatch.DOT]
    else if trimmed == [] then [SLASH]
    else
      var parts := Split(trimmed, SLASH);
      parts[|parts| - 1]
  }

  /** The base of a path is what follows its last slash, slashes at its end aside. */
  lemma BaseFollowsLastSlash(dir: seq<byte>, name: seq<byte>, end: seq<byte>)
    requires name != [] && SLASH !in name && OnlySlashes(end)
    requires dir == [] || dir[|dir| - 1] == SLASH
    ensures Base(dir + name + end) == name
  {
    var slashes := LeadingSlashes(dir);
    var rest := dir[|slashes|..];
    assert dir + name + end == slashes + (rest + name) + end;
    assert name[|name| - 1] in name && name[0] in name;
    SlashesAreTrimmed(slashes, rest + name, end);
    if rest == [] {
      assert rest + name == name;
      SplitFree(name, SLASH);
    } else {
      assert rest[..|rest| - 1] + ([SLASH] + name) == rest + name;
      LastPart(rest[..|rest| - 1], name, SLASH);
    }
  }

  lemma {:induction false} LeadingSlashes(dir: seq<byte>) returns (slashes: seq<byte>)
    ensures slashes <= dir && OnlySlashes(slashes)
    ensures |slashes| < |dir| ==> dir[|slashes|] != SLASH
  {
    if dir == [] || dir[0] != SLASH {
      slashes := [];
    } else {
      var rest := LeadingSlashes(dir[1..]);
      slashes := [SLASH] + rest;
    }
  }

  lemma {:induction false} LastPart(front: seq<byte>, last: seq<byte>, sep: byte)
    requires sep !in last
    ensures var parts := Split(front + ([sep] + last), sep); parts[|parts| - 1] == last
  {
    var s := front + ([sep] + last);
    if front == [] {
      assert s[1..] == last;
      SplitFree(last, sep);
    } else {
      assert s[1..] == front[1..] + ([sep] + last);
      LastPart(front[1..], last, sep);
      SeparatorSplits(s[1..], sep);
    }
  }

  lemma {:induction false} SeparatorSplits(s: seq<byte>, sep: byte)
    requires sep in s
    ensures |Split(s, sep)| > 1
  {
    if s[0] != sep {
      assert s == [s[0]] + s[1..];
      SeparatorSplits(s[1..], sep);
    }
  }

  /** The empty path has the base ".", and slashes alone "/". */
  lemma BaseOfNothing(slashes: seq<byte>)
    requires OnlySlashes(slashes) && slashes != []
    ensures Base([]) == [FatDirectoryPatch.DOT] && Base(slashes) == [SLASH]
  {
    NothingIsLeft(slashes);
  }

  lemma {:induction false} NothingIsLeft(slashes: seq<byte>)
    requires OnlySlashes(slashes)
    ensures TrimSlashes(slashes) == []
  {
    if slashes != [] {
      NothingIsLeft(slashes[1..]);
    }
  }

  function ShortNameOf(path: Path): Option<ShortName> {
    ToFAT83Name(Base(path))
  }

  /** The patches of the exact files that have a short name; lengths are cut to 32 bits. */
  ghost function Patches(files: Files, exact: Files): map<Path, Patch> {
    map path | path in exact && path in files && ShortNameOf(path).Some? ::
      Patch(ShortNameOf(path).value, |files[path]| % MODULUS, |exact[path]| % MODULUS)
  }

  /** The patches of the given paths. */
  ghost function Along(patches: map<Path, Patch>, order: seq<Path>): (r: seq<Patch>)
    requires forall path :: path in order ==> path in patches
    ensures |r| == |order| && forall i :: 0 <= i < |r| ==> r[i] == patches[order[i]]
  {
    if order == [] then []
    else Along(patches, order[..|order| - 1]) + [patches[order[|order| - 1]]]
  }

  /** The paths are those of the set, each once. */
  ghost predicate Lists(order: seq<Path>, paths: set<Path>) {
    && (forall i, j :: 0 <= i < j < |order| ==> order[i] != order[j])
    && forall path :: path in order <==> path in paths
  }

  /** The files in done, and no others, have been patched, in some order. */
  ghost predicate IsPatchedIn(pre: seq<byte>, patches: map<Path, Patch>, done: set<Path>, post: seq<byte>) {
    && done <= patches.Keys
    && exists order: seq<Path> :: Lists(order, done) && IsPatchedAll(pre, Along(patches, order), post)
  }

  lemma OneMoreIsListed(order: seq<Path>, done: set<Path>, path: Path)
    requires Lists(order, done) && path !in done
    ensures Lists(order + [path], done + {path})
  {
  }

  lemma AlongOneMore(patches: map<Path, Patch>, order: seq<Path>, path: Path)
    requires path in patches && forall other :: other in order ==> other in patches
    ensures Along(patches, order + [path]) == Along(patches, order) + [patches[path]]
  {
    assert (order + [path])[..|order|] == order;
  }

  lemma OneMoreAlong(pre: seq<byte>, patches: map<Path, Patch>, order: seq<Path>, mid: seq<byte>,
                     path: Path, post: seq<byte>)
    requires path in patches && forall other :: other in order ==> other in patches
    requires IsPatchedAll(pre, Along(patches, order), mid) && IsPatched(mid, patches[path], post)
    ensures IsPatchedAll(pre, Along(patches, order + [path]), post)
  {
    OneMoreIsPatched(pre, Along(patches, order), mid, patches[path], post);
    AlongOneMore(patches, order, path);
  }

  lemma OneMoreIsDone(pre: seq<byte>, patches: map<Path, Patch>, done: set<Path>, mid: seq<byte>,
                      path: Path, post: seq<byte>)
    requires IsPatchedIn(pre, patches, done, mid)
    requires path in patches && path !in done && IsPatched(mid, patches[path], post)
    ensures IsPatchedIn(pre, patches, done + {path}, post)
  {
    var order: seq<Path> :| Lists(order, done) && IsPatchedAll(pre, Along(patches, order), mid);
    OneMoreIsListed(order, done, path);
    OneMoreAlong(pre, patches, order, mid, path, post);
  }

  lemma NothingIsDone(pre: seq<byte>, patches: map<Path, Patch>)
    ensures IsPatchedIn(pre, patches, {}, pre)
  {
    assert Lists([], {}) && IsPatchedAll(pre, Along(patches, []), pre);
  }

  /** Why a file cannot be patched. */
  ghost predicate CannotPatch(img: seq<byte>, patches: map<Path, Patch>, path: Path, error: PatchError) {
    if path !in patches then error == NoShortName
    else HasNoSlot(img, patches[path].name, patches[path].padded) && error == EntryNotFound
  }

  /** The files in done have been patched, and the next one cannot be. */
  ghost predicate StoppedAt(pre: seq<byte>, patches: map<Path, Patch>, done: set<Path>, path: Path,
                            post: seq<byte>, error: PatchError) {
    path !in done && IsPatchedIn(pre, patches, done, post) && CannotPatch(post, patches, path, error)
  }

  method PatchExactFile(f: ImageFile, files: Files, exact: Files, path: Path) returns (r: Option<PatchError>)
    requires path in exact && path in files
    modifies f
    ensures r.None? ==> path in Patches(files, exact) &&
                        IsPatched(old(f.bytes), Patches(files, exact)[path], f.bytes)
    ensures r.Some? ==> f.bytes == old(f.bytes) &&
                        CannotPatch(f.bytes, Patches(files, exact), path, r.value)
  {
    r := PatchFATFileSize(f, Base(path), |files[path]| % MODULUS, |exact[path]| % MODULUS);
    ghost var patches := Patches(files, exact);
    assert ShortNameOf(path).None? ==> path !in patches;
  }

  /** Patches every exact file, in whatever order the map is read; the first failure ends the
      loop and leaves the files before it patched. */
  method PatchExactFiles(f: ImageFile, files: Files, exact: Files) returns (r: Option<PatchError>)
    requires exact.Keys <= files.Keys
    modifies f
    ensures r.None? ==> IsPatchedIn(old(f.bytes), Patches(files, exact), exact.Keys, f.bytes)
    ensures r.Some? ==> exists done: set<Path>, path: Path ::
                          && path in exact
                          && StoppedAt(old(f.bytes), Patches(files, exact), done, path, f.bytes, r.value)
  {
    r := None;
    ghost var patches := Patches(files, exact);
    var todo := exact.Keys;
    assert exact.Keys - todo == {};
    NothingIsDone(f.bytes, patches);
    while todo != {}
      invariant todo <= exact.Keys && r.None?
      invariant IsPatchedIn(old(f.bytes), patches, exact.Keys - todo, f.bytes)
    {
      var path :| path in todo;
      ghost var mid := f.bytes;
      r := PatchExactFile(f, files, exact, path);
      if r.Some? {
        assert StoppedAt(old(f.bytes), patches, exact.Keys - todo, path, f.bytes, r.value);
        return;
      }
      OneMoreIsDone(old(f.bytes), patches, exact.Keys - todo, mid, path, f.bytes);
      assert exact.Keys - (todo - {path}) == exact.Keys - todo + {path};
      todo := todo - {path};
    }
    assert exact.Keys - todo == exact.Keys;
  }

  // ----- Which slot gets which size

  /** The matching slots, in ascending order. */
  ghost predicate AreSlots(img: seq<byte>, name: ShortName, size: uint32, slots: seq<nat>) {
    && (forall i, j :: 0 <= i < j < |slots| ==> slots[i] < slots[j])
    && forall k: nat :: IsFileSlot(img, k * 32, name, size) <==> k in slots
  }

  predicate Shares(p: Patch, name: ShortName, padded: uint32) {
    p.name == name && p.padded == padded
  }

  /** Within each short name, a true size that is the padded size of some file is padded to
      itself. Padding to whole clusters sees to that. */
  ghost predicate SizesStandOut(patches: seq<Patch>) {
    forall p, q :: p in patches && q in patches && p.name == q.name ==> p.size == q.padded ==> p.padded == q.padded
  }

  /** The same, seen from one group of files. */
  ghost predicate StandsOut(patches: seq<Patch>, name: ShortName, padded: uint32) {
    && (forall p :: p in patches && p.name == name && p.size == padded ==> p.padded == padded)
    && forall p, q :: p in patches && q in patches && Shares(p, name, padded) && p.size != padded ==>
                        q.name == name ==> q.padded != p.size
  }

  lemma GroupStandsOut(patches: seq<Patch>, p: Patch)
    requires SizesStandOut(patches) && p in patches
    ensures StandsOut(patches, p.name, p.padded)
  {
  }

  /** The true sizes below the padded size, of the files that share name and padded size, in
      the order of patching. */
  function ShrunkSizes(patches: seq<Patch>, name: ShortName, padded: uint32): seq<uint32> {
    if patches == [] then []
    else
      var rest := ShrunkSizes(patches[1..], name, padded);
      if Shares(patches[0], name, padded) && patches[0].size != padded then [patches[0].size] + rest else rest
  }

  /** A shrunk size, or the padded size when there are no more. */
  function SizeAt(sizes: seq<uint32>, padded: uint32, k: nat): uint32 {
    if k < |sizes| then sizes[k] else padded
  }

  /** A slot that a patch does not look for keeps its size. */
  lemma SlotIsPassedOver(pre: seq<byte>, p: Patch, mid: seq<byte>, name: ShortName, size: uint32, k: nat)
    requires IsPatched(pre, p, mid) && IsFileSlot(pre, k * 32, name, size)
    requires p.name == name ==> p.padded != size
    ensures IsFileSlot(mid, k * 32, name, size)
  {
    var slot: nat :| IsFirstSlot(pre, p.name, p.padded, slot) && Resized(pre, slot, p.size, mid);
    SlotAfterPatch(pre, p.name, p.padded, slot, p.size, mid, k, name, size);
  }

  /** A slot that no later file looks for keeps its size. */
  lemma {:induction false} SlotStays(pre: seq<byte>, patches: seq<Patch>, post: seq<byte>,
                                     name: ShortName, size: uint32, k: nat)
    requires IsPatchedAll(pre, patches, post) && IsFileSlot(pre, k * 32, name, size)
    requires forall p :: p in patches && p.name == name ==> p.padded != size
    ensures IsFileSlot(post, k * 32, name, size)
    decreases |patches|
  {
    if patches != [] {
      var p := patches[0];
      var mid: seq<byte> :| IsPatched(pre, p, mid) && IsPatchedAll(mid, patches[1..], post);
      SlotIsPassedOver(pre, p, mid, name, size, k);
      SlotStays(mid, patches[1..], post, name, size, k);
    }
  }

  /** A patch of another file, or one that keeps the size, leaves the matching slots. */
  lemma OtherPatchLeavesSlots(pre: seq<byte>, p: Patch, mid: seq<byte>, name: ShortName, padded: uint32,
                              slots: seq<nat>)
    requires IsPatched(pre, p, mid) && AreSlots(pre, name, padded, slots)
    requires p.name == name ==> (p.size == padded <==> p.padded == padded)
    ensures AreSlots(mid, name, padded, slots)
  {
    var slot: nat :| IsFirstSlot(pre, p.name, p.padded, slot) && Resized(pre, slot, p.size, mid);
    forall k: nat ensures IsFileSlot(mid, k * 32, name, padded) <==> IsFileSlot(pre, k * 32, name, padded) {
      SlotAfterPatch(pre, p.name, p.padded, slot, p.size, mid, k, name, padded);
    }
  }

  /** A patch that shrinks takes the first of the matching slots. */
  lemma ShrinkingTakesFirstSlot(pre: seq<byte>, p: Patch, mid: seq<byte>, slots: seq<nat>)
    requires IsPatched(pre, p, mid) && p.size != p.padded && AreSlots(pre, p.name, p.padded, slots)
    ensures slots != [] && IsFileSlot(mid, slots[0] * 32, p.name, p.size)
    ensures AreSlots(mid, p.name, p.padded, slots[1..])
  {
    var slot: nat :| IsFirstSlot(pre, p.name, p.padded, slot) && Resized(pre, slot, p.size, mid);
    PatchedSlotIsPassedOver(pre, p.name, p.padded, slot, p.size, mid);
    assert slot in slots && slots[0] in slots;
    assert slot == slots[0];
    assert slots == [slots[0]] + slots[1..];
  }

  /** After the loop, the slots that matched name and padded size hold, in ascending order,
      the shrunk sizes in the order of patching; the slots left over still hold the padded
      size. */
  lemma {:induction false} SlotsGetSizesInOrder(pre: seq<byte>, patches: seq<Patch>, post: seq<byte>,
                                                name: ShortName, padded: uint32, slots: seq<nat>)
    requires IsPatchedAll(pre, patches, post) && StandsOut(patches, name, padded)
    requires AreSlots(pre, name, padded, slots)
    ensures var sizes := ShrunkSizes(patches, name, padded);
            && |sizes| <= |slots|
            && forall k :: 0 <= k < |slots| ==> IsFileSlot(post, slots[k] * 32, name, SizeAt(sizes, padded, k))
    decreases |patches|
  {
    if patches == [] {
      forall k | 0 <= k < |slots| ensures IsFileSlot(post, slots[k] * 32, name, padded) {
        assert slots[k] in slots;
      }
    } else {
      var p, rest := patches[0], patches[1..];
      var mid: seq<byte> :| IsPatched(pre, p, mid) && IsPatchedAll(mid, rest, post);
      assert p in patches && forall q :: q in rest ==> q in patches;
      var sizes := ShrunkSizes(rest, name, padded);
      if Shares(p, name, padded) && p.size != padded {
        ShrinkingTakesFirstSlot(pre, p, mid, slots);
        SlotStays(mid, rest, post, name, p.size, slots[0]);
        SlotsGetSizesInOrder(mid, rest, post, name, padded, slots[1..]);
        FirstAndRest(post, name, padded, slots, p.size, sizes);
      } else {
        OtherPatchLeavesSlots(pre, p, mid, name, padded, slots);
        SlotsGetSizesInOrder(mid, rest, post, name, padded, slots);
      }
    }
  }

  lemma FirstAndRest(post: seq<byte>, name: ShortName, padded: uint32, slots: seq<nat>,
                     size: uint32, sizes: seq<uint32>)
    requires slots != [] && IsFileSlot(post, slots[0] * 32, name, size)
    requires forall k :: 0 <= k < |slots[1..]| ==>
                           IsFileSlot(post, slots[1..][k] * 32, name, SizeAt(sizes, padded, k))
    ensures forall k :: 0 <= k < |slots| ==>
                          IsFileSlot(post, slots[k] * 32, name, SizeAt([size] + sizes, padded, k))
  {
    forall k | 0 <= k < |slots|
      ensures IsFileSlot(post, slots[k] * 32, name, SizeAt([size] + sizes, padded, k))
    {
      if k > 0 {
        assert slots[k] == slots[1..][k - 1];
        assert SizeAt([size] + sizes, padded, k) == SizeAt(sizes, padded, k - 1);
      }
    }
  }

  /** Each matching slot has a size that is rightfully its: the true size of the file it belongs
      to, or the padded size where it only looks like a slot. The loop gives every matching slot
      its rightful size exactly when those sizes, in the order of the slots, are the shrunk ones
      in the order of patching and then padded ones only. */
  lemma GroupIsRightIff(pre: seq<byte>, patches: seq<Patch>, post: seq<byte>, p: Patch,
                        slots: seq<nat>, rightful: seq<uint32>)
    requires IsPatchedAll(pre, patches, post) && SizesStandOut(patches) && p in patches
    requires AreSlots(pre, p.name, p.padded, slots) && |rightful| == |slots|
    ensures (forall k :: 0 <= k < |slots| ==> IsFileSlot(post, slots[k] * 32, p.name, rightful[k])) <==>
            (forall k :: 0 <= k < |slots| ==>
                           rightful[k] == SizeAt(ShrunkSizes(patches, p.name, p.padded), p.padded, k))
  {
    GroupStandsOut(patches, p);
    SlotsGetSizesInOrder(pre, patches, post, p.name, p.padded, slots);
    var sizes := ShrunkSizes(patches, p.name, p.padded);
    forall k | 0 <= k < |slots|
      ensures IsFileSlot(post, slots[k] * 32, p.name, rightful[k]) <==> rightful[k] == SizeAt(sizes, p.padded, k)
    {
      assert IsFileSlot(post, slots[k] * 32, p.name, SizeAt(sizes, p.padded, k));
    }
  }

  // ----- Files that share no name and size

  lemma {:induction false} ShrunkSizesOfConcat(a: seq<Patch>, b: seq<Patch>, name: ShortName, padded: uint32)
    ensures ShrunkSizes(a + b, name, padded) == ShrunkSizes(a, name, padded) + ShrunkSizes(b, name, padded)
  {
    if a == [] {
      assert a + b == b;
    } else {
      assert (a + b)[1..] == a[1..] + b;
      ShrunkSizesOfConcat(a[1..], b, name, padded);
    }
  }

  lemma {:induction false} ShrunkSizesOfOthers(patches: seq<Patch>, name: ShortName, padded: uint32)
    requires forall p :: p in patches ==> !Shares(p, name, padded)
    ensures ShrunkSizes(patches, name, padded) == []
  {
    if patches != [] {
      assert patches[0] in patches;
      ShrunkSizesOfOthers(patches[1..], name, padded);
    }
  }

  function OwnShrunkSize(p: Patch): seq<uint32> {
    if p.size != p.padded then [p.size] else []
  }

  lemma ShrunkSizesFrom(a: seq<Patch>, p: Patch, b: seq<Patch>)
    requires forall q :: q in a ==> !Shares(q, p.name, p.padded)
    ensures ShrunkSizes(a + [p] + b, p.name, p.padded) == OwnShrunkSize(p) + ShrunkSizes(b, p.name, p.padded)
  {
    ShrunkSizesOfOthers(a, p.name, p.padded);
    ShrunkSizesOfConcat(a + [p], b, p.name, p.padded);
    ShrunkSizesOfConcat(a, [p], p.name, p.padded);
    assert ShrunkSizes([p], p.name, p.padded) == OwnShrunkSize(p);
  }

  /** The file at i is the only one of its short name and padded size. */
  ghost predicate IsAlone(patches: seq<Patch>, i: nat)
    requires i < |patches|
  {
    forall j :: 0 <= j < |patches| && j != i ==> !Shares(patches[j], patches[i].name, patches[i].padded)
  }

  lemma ShrunkSizesOfLone(patches: seq<Patch>, i: nat)
    requires i < |patches| && IsAlone(patches, i)
    ensures ShrunkSizes(patches, patches[i].name, patches[i].padded) == OwnShrunkSize(patches[i])
  {
    var p, a, b := patches[i], patches[..i], patches[i + 1..];
    SplitAt(patches, i);
    ShrunkSizesFrom(a, p, b);
    ShrunkSizesOfOthers(b, p.name, p.padded);
  }

  /** A lone file whose own slot alone matches gets its true size. */
  lemma LoneFileIsRight(pre: seq<byte>, patches: seq<Patch>, post: seq<byte>, i: nat, own: nat)
    requires IsPatchedAll(pre, patches, post) && SizesStandOut(patches)
    requires i < |patches| && IsAlone(patches, i) && AreSlots(pre, patches[i].name, patches[i].padded, [own])
    ensures IsFileSlot(post, own * 32, patches[i].name, patches[i].size)
  {
    var p := patches[i];
    GroupStandsOut(patches, p);
    SlotsGetSizesInOrder(pre, patches, post, p.name, p.padded, [own]);
    ShrunkSizesOfLone(patches, i);
    assert [own][0] == own;
  }

  // ----- What else may match: data of other files

  function Concat(pieces: seq<seq<byte>>): seq<byte> {
    if pieces == [] then [] else pieces[0] + Concat(pieces[1..])
  }

  /** Some 32-byte stretch at a multiple of 32 passes for a slot. */
  ghost predicate HoldsSlot(piece: seq<byte>, name: ShortName, size: uint32) {
    exists k: nat :: IsFileSlot(piece, k * 32, name, size)
  }

  /** Only the 32 bytes of a slot matter, wherever they lie. */
  lemma SlotByItself(img: seq<byte>, i: nat, name: ShortName, size: uint32)
    requires i + 32 <= |img|
    ensures IsFileSlot(img, i, name, size) <==> IsFileSlot(img[i..i + 32], 0, name, size)
  {
    var slot := img[i..i + 32];
    assert slot[0..11] == img[i..i + 11];
    assert slot[11] == img[i + 11];
    assert slot[28] == img[i + 28] && slot[29] == img[i + 29] && slot[30] == img[i + 30] && slot[31] == img[i + 31];
  }

  /** A slot of two joined pieces, the first of whole slots, lies in one or the other. */
  lemma SlotOfJoined(a: seq<byte>, b: seq<byte>, n: nat, name: ShortName, size: uint32, k: nat)
    requires |a| == n * 32
    ensures IsFileSlot(a + b, k * 32, name, size) <==>
            if k < n then IsFileSlot(a, k * 32, name, size) else IsFileSlot(b, (k - n) * 32, name, size)
  {
    var off := k * 32;
    if k < n {
      SlotByItself(a, off, name, size);
      SlotByItself(a + b, off, name, size);
      assert (a + b)[off..off + 32] == a[off..off + 32];
    } else if off + 32 <= |a + b| {
      SlotByItself(b, off - |a|, name, size);
      SlotByItself(a + b, off, name, size);
      assert (a + b)[off..off + 32] == b[off - |a|..off - |a| + 32];
    }
  }

  ghost predicate OfWholeSlots(pieces: seq<seq<byte>>) {
    forall i :: 0 <= i < |pieces| ==> |pieces[i]| % 32 == 0
  }

  lemma {:induction false} ConcatOfWholeSlots(pieces: seq<seq<byte>>)
    requires OfWholeSlots(pieces)
    ensures |Concat(pieces)| % 32 == 0
  {
    if pieces != [] {
      ConcatOfWholeSlots(pieces[1..]);
    }
  }

  lemma {:induction false} SlotOfConcat(pieces: seq<seq<byte>>, name: ShortName, size: uint32)
    requires OfWholeSlots(pieces)
    ensures HoldsSlot(Concat(pieces), name, size) <==>
            exists i :: 0 <= i < |pieces| && HoldsSlot(pieces[i], name, size)
  {
    if pieces == [] {
    } else {
      var first, rest := pieces[0], pieces[1..];
      SlotOfConcat(rest, name, size);
      HoldsSlotEither(first, Concat(rest), |first| / 32, name, size);
      assert forall i :: 0 < i < |pieces| ==> pieces[i] == rest[i - 1];
      assert forall i :: 0 <= i < |rest| ==> rest[i] == pieces[i + 1];
    }
  }

  lemma HoldsSlotEither(a: seq<byte>, b: seq<byte>, n: nat, name: ShortName, size: uint32)
    requires |a| == n * 32
    ensures HoldsSlot(a + b, name, size) <==> HoldsSlot(a, name, size) || HoldsSlot(b, name, size)
  {
    if HoldsSlot(a + b, name, size) {
      var k: nat :| IsFileSlot(a + b, k * 32, name, size);
      SlotOfJoined(a, b, n, name, size, k);
    }
    if HoldsSlot(a, name, size) {
      var k: nat :| IsFileSlot(a, k * 32, name, size);
      SlotOfJoined(a, b, n, name, size, k);
    }
    if HoldsSlot(b, name, size) {
      var k: nat :| IsFileSlot(b, k * 32, name, size);
      SlotOfJoined(a, b, n, name, size, n + k);
      assert IsFileSlot(a + b, (n + k) * 32, name, size);
    }
  }

  ghost function SlotsBelow(img: seq<byte>, name: ShortName, size: uint32, n: nat): (slots: seq<nat>)
    ensures forall i :: 0 <= i < |slots| ==> slots[i] < n
    ensures forall i, j :: 0 <= i < j < |slots| ==> slots[i] < slots[j]
    ensures forall k: nat :: k in slots <==> k < n && IsFileSlot(img, k * 32, name, size)
  {
    if n == 0 then []
    else
      var rest := SlotsBelow(img, name, size, n - 1);
      if IsFileSlot(img, (n - 1) * 32, name, size) then rest + [n - 1] else rest
  }

  /** Nothing passes for a slot among the first n. */
  ghost predicate NoneBefore(img: seq<byte>, name: ShortName, size: uint32, n: nat) {
    forall k: nat :: k < n ==> !IsFileSlot(img, k * 32, name, size)
  }

  /** Of a lone file the first matching slot gets the true size, and no other. */
  lemma LoneFileIsRightIff(pre: seq<byte>, patches: seq<Patch>, post: seq<byte>, i: nat, own: nat)
    requires IsPatchedAll(pre, patches, post) && SizesStandOut(patches)
    requires i < |patches| && IsAlone(patches, i)
    requires IsFileSlot(pre, own * 32, patches[i].name, patches[i].padded)
    ensures IsFileSlot(post, own * 32, patches[i].name, patches[i].size) <==>
            || patches[i].size == patches[i].padded
            || NoneBefore(pre, patches[i].name, patches[i].padded, own)
  {
    var p := patches[i];
    var slots := SlotsBelow(pre, p.name, p.padded, |pre|);
    assert AreSlots(pre, p.name, p.padded, slots);
    GroupStandsOut(patches, p);
    SlotsGetSizesInOrder(pre, patches, post, p.name, p.padded, slots);
    ShrunkSizesOfLone(patches, i);
    var j :| 0 <= j < |slots| && slots[j] == own;
    assert IsFileSlot(post, slots[j] * 32, p.name, SizeAt(OwnShrunkSize(p), p.padded, j));
    assert slots[0] in slots;
  }

  lemma EarlierSlots(front: seq<byte>, rest: seq<byte>, n: nat, own: nat, name: ShortName, size: uint32)
    requires |front| == n * 32
    ensures NoneBefore(front + rest, name, size, n + own) <==>
            !HoldsSlot(front, name, size) && NoneBefore(rest, name, size, own)
  {
    if NoneBefore(front + rest, name, size, n + own) {
      forall k: nat ensures !IsFileSlot(front, k * 32, name, size) {
        SlotOfJoined(front, rest, n, name, size, k);
      }
      forall k: nat | k < own ensures !IsFileSlot(rest, k * 32, name, size) {
        SlotOfJoined(front, rest, n, name, size, n + k);
      }
    } else {
      var k: nat :| k < n + own && IsFileSlot(front + rest, k * 32, name, size);
      SlotOfJoined(front, rest, n, name, size, k);
      if k >= n {
        var m: nat := k - n;
        assert m < own && IsFileSlot(rest, m * 32, name, size);
      }
    }
  }

  lemma SlotBehind(front: seq<byte>, rest: seq<byte>, n: nat, own: nat, name: ShortName, size: uint32)
    requires |front| == n * 32
    ensures IsFileSlot(front + rest, (n + own) * 32, name, size) <==> IsFileSlot(rest, own * 32, name, size)
  {
    SlotOfJoined(front, rest, n, name, size, n + own);
  }

  lemma EarlierPieces(before: seq<seq<byte>>, rest: seq<byte>, n: nat, own: nat, name: ShortName, size: uint32)
    requires OfWholeSlots(before) && |Concat(before)| == n * 32
    ensures NoneBefore(Concat(before) + rest, name, size, n + own) <==>
            && (forall j :: 0 <= j < |before| ==> !HoldsSlot(before[j], name, size))
            && NoneBefore(rest, name, size, own)
  {
    SlotOfConcat(before, name, size);
    EarlierSlots(Concat(before), rest, n, own, name, size);
  }

  lemma OwnSlotLiesBehind(before: seq<seq<byte>>, rest: seq<byte>, n: nat, own: nat, name: ShortName, size: uint32)
    requires OfWholeSlots(before) && |Concat(before)| == n * 32
    requires IsFileSlot(rest, own * 32, name, size)
    ensures IsFileSlot(Concat(before) + rest, (n + own) * 32, name, size)
    ensures NoneBefore(Concat(before) + rest, name, size, n + own) <==>
            && (forall j :: 0 <= j < |before| ==> !HoldsSlot(before[j], name, size))
            && NoneBefore(rest, name, size, own)
  {
    SlotBehind(Concat(before), rest, n, own, name, size);
    EarlierPieces(before, rest, n, own, name, size);
  }

  /** The own slot of a lone file, in the directory that starts the rest of the image, gets the
      true size exactly when that is the padded size or nothing passes for it earlier: no table,
      no directory and no file contents before, and no entry above it in its directory. */
  lemma OwnSlotIsPatchedIff(before: seq<seq<byte>>, rest: seq<byte>, n: nat, patches: seq<Patch>, post: seq<byte>,
                            i: nat, own: nat)
    requires OfWholeSlots(before) && |Concat(before)| == n * 32
    requires IsPatchedAll(Concat(before) + rest, patches, post) && SizesStandOut(patches)
    requires i < |patches| && IsAlone(patches, i)
    requires IsFileSlot(rest, own * 32, patches[i].name, patches[i].padded)
    ensures IsFileSlot(post, (n + own) * 32, patches[i].name, patches[i].size) <==>
            || patches[i].size == patches[i].padded
            || (&& (forall j :: 0 <= j < |before| ==> !HoldsSlot(before[j], patches[i].name, patches[i].padded))
                && NoneBefore(rest, patches[i].name, patches[i].padded, own))
  {
    OwnSlotLiesBehind(before, rest, n, own, patches[i].name, patches[i].padded);
    LoneFileIsRightIff(Concat(before) + rest, patches, post, i, n + own);
  }

  // ----- Files that do share name and size

  /** Of two files that alone share a short name and padded size, both get their true size exactly
      when the sizes are equal, or both are below the padded one and patched in the order of their
      slots, or only one is and it owns the earlier slot. */
  lemma SameNamesAreRightIff(pre: seq<byte>, patches: seq<Patch>, post: seq<byte>, i: nat, j: nat,
                             ownFirst: nat, ownSecond: nat)
    requires IsPatchedAll(pre, patches, post) && SizesStandOut(patches)
    requires i < j < |patches| && Shares(patches[j], patches[i].name, patches[i].padded)
    requires forall k :: 0 <= k < |patches| && k != i && k != j ==>
                           !Shares(patches[k], patches[i].name, patches[i].padded)
    requires ownFirst != ownSecond
    requires forall k: nat :: IsFileSlot(pre, k * 32, patches[i].name, patches[i].padded) <==>
                              k == ownFirst || k == ownSecond
    ensures IsFileSlot(post, ownFirst * 32, patches[i].name, patches[i].size) &&
            IsFileSlot(post, ownSecond * 32, patches[j].name, patches[j].size) <==>
            var padded, first, second := patches[i].padded, patches[i].size, patches[j].size;
            || first == second
            || (first != padded && ownFirst < ownSecond)
            || (first == padded && ownSecond < ownFirst)
  {
    var p, q := patches[i], patches[j];
    ShrunkSizesOfPair(patches, i, j);
    GroupStandsOut(patches, p);
    var slots := if ownFirst < ownSecond then [ownFirst, ownSecond] else [ownSecond, ownFirst];
    SlotsGetSizesInOrder(pre, patches, post, p.name, p.padded, slots);
    var sizes := OwnShrunkSize(p) + OwnShrunkSize(q);
    assert IsFileSlot(post, slots[0] * 32, p.name, SizeAt(sizes, p.padded, 0));
    assert IsFileSlot(post, slots[1] * 32, p.name, SizeAt(sizes, p.padded, 1));
  }

  lemma ShrunkSizesOfPair(patches: seq<Patch>, i: nat, j: nat)
    requires i < j < |patches| && Shares(patches[j], patches[i].name, patches[i].padded)
    requires forall k :: 0 <= k < |patches| && k != i && k != j ==>
                           !Shares(patches[k], patches[i].name, patches[i].padded)
    ensures ShrunkSizes(patches, patches[i].name, patches[i].padded) ==
            OwnShrunkSize(patches[i]) + OwnShrunkSize(patches[j])
  {
    SecondIsAlone(patches, i, j);
    SplitAt(patches, i);
    var a, tail := patches[..i], patches[i + 1..];
    assert forall k :: 0 <= k < |a| ==> a[k] == patches[k];
    ShrunkSizesOfTwo(a, patches[i], tail, j - i - 1);
  }

  lemma ShrunkSizesOfTwo(a: seq<Patch>, p: Patch, tail: seq<Patch>, m: nat)
    requires forall k :: 0 <= k < |a| ==> !Shares(a[k], p.name, p.padded)
    requires m < |tail| && IsAlone(tail, m) && Shares(tail[m], p.name, p.padded)
    ensures ShrunkSizes(a + [p] + tail, p.name, p.padded) == OwnShrunkSize(p) + OwnShrunkSize(tail[m])
  {
    ShrunkSizesFrom(a, p, tail);
    ShrunkSizesOfLone(tail, m);
  }

  lemma SecondIsAlone(patches: seq<Patch>, i: nat, j: nat)
    requires i < j < |patches|
    requires forall k :: 0 <= k < |patches| && k != i && k != j ==>
                           !Shares(patches[k], patches[j].name, patches[j].padded)
    ensures IsAlone(patches[i + 1..], j - i - 1)
  {
    var tail := patches[i + 1..];
    forall k | 0 <= k < |tail| && k != j - i - 1
      ensures !Shares(tail[k], patches[j].name, patches[j].padded)
    {
      assert tail[k] == patches[i + 1 + k];
    }
  }

  // ----- Padding to clusters

  lemma {:induction false} FillsApart(a: nat, b: nat, c: nat)
    requires c > 0 && Fills(a, c)
    ensures Fills(a + b, c) <==> Fills(b, c)
  {
    if a > 0 {
      FillsApart(a - c, b, c);
    }
  }

  lemma {:induction false} CutKeepsBoundary(n: nat, c: nat, modulus: nat)
    requires c > 0 && modulus > 0 && Fills(modulus, c)
    ensures Fills(n % modulus, c) <==> Fills(n, c)
  {
    if n >= modulus {
      CutKeepsBoundary(n - modulus, c, modulus);
      RemainderStep(n, modulus);
      FillsApart(modulus, n - modulus, c);
    } else {
      RemainderBelow(n, modulus);
    }
  }

  lemma RemainderBelow(n: nat, modulus: nat)
    requires n < modulus
    ensures n % modulus == n
  {
  }

  lemma ModulusOnBoundary(c: nat)
    requires IsClusterSize(c)
    ensures Fills(MODULUS, c)
  {
    FillsMeansDivisible(MODULUS, c);
  }

  /** A padded length, cut to 32 bits, is on a boundary, and a true size that is on one was not
      padded. */
  lemma PaddingEndsOnBoundary(data: seq<byte>, c: nat, padded: seq<byte>)
    requires IsClusterSize(c) && IsPadding(data, c, padded)
    ensures Fills(|padded| % MODULUS, c)
    ensures Fills(|data| % MODULUS, c) ==> |padded| == |data|
  {
    ModulusOnBoundary(c);
    CutKeepsBoundary(|data|, c, MODULUS);
    CutKeepsBoundary(|padded|, c, MODULUS);
    PaddedLengthIsFirstBoundary(|data|, c, |data|);
  }

  lemma PaddedPairStandsOut(padded: Files, exact: Files, c: nat, files: Files, one: Path, other: Path)
    requires IsClusterSize(c) && IsPass(padded, exact, c, files)
    requires one in Patches(files, exact) && other in Patches(files, exact)
    ensures var p, q := Patches(files, exact)[one], Patches(files, exact)[other];
            p.size == q.padded ==> p.padded == q.padded
  {
    PaddingEndsOnBoundary(exact[one], c, files[one]);
    PaddingEndsOnBoundary(exact[other], c, files[other]);
  }

  ghost predicate FilesStandOut(patches: map<Path, Patch>) {
    forall a, b :: a in patches && b in patches && patches[a].name == patches[b].name ==>
                     patches[a].size == patches[b].padded ==> patches[a].padded == patches[b].padded
  }

  /** The files of a resolved pass have sizes that stand out. */
  lemma PaddedFilesStandOut(padded: Files, exact: Files, c: nat, files: Files)
    requires IsClusterSize(c) && IsPass(padded, exact, c, files)
    ensures FilesStandOut(Patches(files, exact))
  {
    var patches := Patches(files, exact);
    forall a, b | a in patches && b in patches && patches[a].name == patches[b].name &&
                  patches[a].size == patches[b].padded
      ensures patches[a].padded == patches[b].padded
    {
      PaddedPairStandsOut(padded, exact, c, files, a, b);
    }
  }

  lemma AlongStandsOut(patches: map<Path, Patch>, order: seq<Path>)
    requires FilesStandOut(patches) && forall path :: path in order ==> path in patches
    ensures SizesStandOut(Along(patches, order))
  {
    var along := Along(patches, order);
    forall p, q | p in along && q in along && p.name == q.name && p.size == q.padded ensures p.padded == q.padded {
      var i :| 0 <= i < |along| && along[i] == p;
      var j :| 0 <= j < |along| && along[j] == q;
      assert order[i] in order && order[j] in order;
    }
  }

  /** The slot of each file is the only one that passes for it. */
  ghost predicate OwnsSlots(img: seq<byte>, patches: map<Path, Patch>, own: map<Path, nat>) {
    && patches.Keys <= own.Keys
    && (forall a, b :: a in patches && b in patches && a != b ==> own[a] != own[b])
    && forall path :: path in patches ==> AreSlots(img, patches[path].name, patches[path].padded, [own[path]])
  }

  lemma OnlySlot(img: seq<byte>, name: ShortName, size: uint32, a: nat, b: nat)
    requires AreSlots(img, name, size, [a]) && AreSlots(img, name, size, [b])
    ensures a == b
  {
    assert a in [a];
    assert IsFileSlot(img, a * 32, name, size);
  }

  lemma OwnersAreAlone(img: seq<byte>, patches: map<Path, Patch>, own: map<Path, nat>, order: seq<Path>, i: nat)
    requires OwnsSlots(img, patches, own) && Lists(order, patches.Keys) && i < |order|
    ensures IsAlone(Along(patches, order), i)
  {
    var along := Along(patches, order);
    forall j | 0 <= j < |along| && j != i ensures !Shares(along[j], along[i].name, along[i].padded) {
      var a, b := order[i], order[j];
      assert a in order && b in order && a != b;
      if Shares(patches[b], patches[a].name, patches[a].padded) {
        OnlySlot(img, patches[a].name, patches[a].padded, own[a], own[b]);
      }
    }
  }

  lemma OwnerIsRight(pre: seq<byte>, patches: map<Path, Patch>, post: seq<byte>, own: map<Path, nat>, path: Path)
    requires IsPatchedIn(pre, patches, patches.Keys, post)
    requires FilesStandOut(patches) && OwnsSlots(pre, patches, own) && path in patches
    ensures IsFileSlot(post, own[path] * 32, patches[path].name, patches[path].size)
  {
    var order: seq<Path> :| Lists(order, patches.Keys) && IsPatchedAll(pre, Along(patches, order), post);
    assert path in order;
    var i :| 0 <= i < |order| && order[i] == path;
    AlongStandsOut(patches, order);
    OwnersAreAlone(pre, patches, own, order, i);
    assert Along(patches, order)[i] == patches[path];
    LoneFileIsRight(pre, Along(patches, order), post, i, own[path]);
  }

  /** Files padded in a resolved pass whose slots nothing else passes for all get their true
      sizes back, in whatever order the loop takes them. */
  lemma ExactFilesAreRestored(padded: Files, exact: Files, c: nat, files: Files, pre: seq<byte>, post: seq<byte>,
                              own: map<Path, nat>)
    requires IsClusterSize(c) && IsPass(padded, exact, c, files)
    requires IsPatchedIn(pre, Patches(files, exact), exact.Keys, post)
    requires OwnsSlots(pre, Patches(files, exact), own)
    ensures forall path :: path in exact ==>
                             var p := Patches(files, exact)[path];
                             IsFileSlot(post, own[path] * 32, p.name, p.size)
  {
    var patches := Patches(files, exact);
    assert patches.Keys == exact.Keys;
    PaddedFilesStandOut(padded, exact, c, files);
    forall path | path in exact ensures IsFileSlot(post, own[path] * 32, patches[path].name, patches[path].size) {
      OwnerIsRight(pre, patches, post, own, path);
    }
  }

  // ----- Inputs that fail

  /** A directory slot of a plain file. */
  function Entry(name: ShortName, size: uint32): (r: seq<byte>)
    ensures |r| == 32 && IsFileSlot(r, 0, name, size)
  {
    name + [0x20] + seq(16, _ => 0) + PutLe32(size)
  }

  lemma EntriesDifferInSize(name: ShortName, a: uint32, b: uint32, tail: seq<byte>)
    ensures Resized(Entry(name, a) + tail, 0, b, Entry(name, b) + tail)
  {
  }

  /** A patch takes the entry at the start of an image. */
  lemma FirstEntryIsPatched(name: ShortName, padded: uint32, size: uint32, tail: seq<byte>)
    ensures IsPatched(Entry(name, padded) + tail, Patch(name, padded, size), Entry(name, size) + tail)
  {
    SlotOfJoined(Entry(name, padded), tail, 1, name, padded, 0);
    assert IsFirstSlot(Entry(name, padded) + tail, name, padded, 0);
    EntriesDifferInSize(name, padded, size, tail);
  }

  lemma EntriesMatch(name: ShortName, a: uint32, b: uint32)
    ensures IsFileSlot(Entry(name, a) + Entry(name, b), 0, name, a)
    ensures IsFileSlot(Entry(name, a) + Entry(name, b), 32, name, b)
  {
    SlotOfJoined(Entry(name, a), Entry(name, b), 1, name, a, 0);
    SlotOfJoined(Entry(name, a), Entry(name, b), 1, name, b, 1);
  }

  /** Two files of one short name and padded size, the first of which fills its clusters: patched
      in the order of their slots, the first file's slot ends up with the second one's size, and
      the second file's slot keeps the padded size. */
  lemma FullFileFirstFails(name: ShortName, padded: uint32, size: uint32)
    requires size != padded
    ensures var pre, post := Entry(name, padded) + Entry(name, padded), Entry(name, size) + Entry(name, padded);
            && IsPatchedAll(pre, [Patch(name, padded, padded), Patch(name, padded, size)], post)
            && IsFileSlot(pre, 0, name, padded) && IsFileSlot(pre, 32, name, padded)
            && !IsFileSlot(post, 0, name, padded) && !IsFileSlot(post, 32, name, size)
  {
    EntriesMatch(name, padded, padded);
    EntriesMatch(name, size, padded);
    FirstEntryIsPatched(name, padded, padded, Entry(name, padded));
    FirstEntryIsPatched(name, padded, size, Entry(name, padded));
    var pre, post := Entry(name, padded) + Entry(name, padded), Entry(name, size) + Entry(name, padded);
    PatchedTwice(pre, Patch(name, padded, padded), pre, Patch(name, padded, size), post);
  }

  lemma PatchedTwice(pre: seq<byte>, p: Patch, mid: seq<byte>, q: Patch, post: seq<byte>)
    requires IsPatched(pre, p, mid) && IsPatched(mid, q, post)
    ensures IsPatchedAll(pre, [p, q], post)
  {
    assert [p, q][1..] == [q] && [q][1..] == [];
    assert IsPatchedAll(post, [q][1..], post);
    assert IsPatchedAll(mid, [p, q][1..], post);
  }

  /** File contents that begin like a slot of the short name and padded size, stored before the
      directory: the patch changes the contents, and the file's own slot keeps the padded size. */
  lemma ContentsLikeASlotFail(name: ShortName, padded: uint32, size: uint32, filler: seq<byte>)
    requires size != padded && |filler| % 32 == 0
    ensures var contents, changed := Entry(name, padded) + filler, Entry(name, size) + filler;
            && IsPatchedAll(contents + Entry(name, padded), [Patch(name, padded, size)],
                            changed + Entry(name, padded))
            && changed != contents
            && IsFileSlot(changed + Entry(name, padded), |contents|, name, padded)
            && !IsFileSlot(changed + Entry(name, padded), |contents|, name, size)
  {
    var own := Entry(name, padded);
    FirstEntryIsPatched(name, padded, size, filler + own);
    ConcatIsAssociative(Entry(name, padded), filler, own);
    ConcatIsAssociative(Entry(name, size), filler, own);
    var post := Entry(name, size) + filler + own;
    assert IsPatchedAll(post, [Patch(name, padded, size)][1..], post);
    var n := |filler| / 32 + 1;
    SlotOfJoined(Entry(name, size) + filler, own, n, name, padded, n);
    SlotOfJoined(Entry(name, size) + filler, own, n, name, size, n);
    assert Le32(Entry(name, padded) + filler, 28) == padded && Le32(Entry(name, size) + filler, 28) == size;
  }
}
