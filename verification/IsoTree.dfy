/** A directory tree as mastered onto an ISO 9660 image, and what path look-up makes of it. */
module IsoTree {
  import opened Bytes
  import opened Wrappers
  import opened ImageFile
  import opened EfiBootInjection
  import opened ElToritoProperties
  import opened IsoDirectory
  import opened IsoLookup
  import opened Splitting

  datatype Node = Node(entry: DirEntry, children: seq<Child>)
  datatype Child = Child(name: seq<byte>, node: Node)

  // ----- The tree on disk

  /** Every directory's bytes are laid-out records of its children, dot records aside. */
  ghost predicate OnDisk(img: seq<byte>, node: Node) {
    node.entry.isDir ==>
      && RegionReadable(img, node.entry.extent, node.entry.size)
      && Holds(Region(img, node.entry.extent, node.entry.size), node.children)
      && forall c :: c in node.children ==> OnDisk(img, c.node)
  }

  ghost predicate Holds(data: seq<byte>, children: seq<Child>) {
    exists recs: seq<Record>, starts: seq<nat> :: LaidOut(data, recs, starts) && Describe(recs, children)
  }

  /** The records are those of the children, in order, and any number of dot records. */
  ghost predicate Describe(recs: seq<Record>, children: seq<Child>) {
    if |recs| == 0 then children == []
    else
      var rec, n := recs[|recs| - 1], |children| - 1;
      if IsDotName(NameAt(rec, 0)) then Describe(recs[..|recs| - 1], children)
      else
        && n >= 0
        && children[n].name == NameAt(rec, 0)
        && children[n].node.entry == EntryAt(rec, 0)
        && Describe(recs[..|recs| - 1], children[..n])
  }

  ghost function Keys(children: seq<Child>): set<seq<byte>> {
    set c | c in children :: Key(c.name)
  }

  /** The last child listed under a key. */
  ghost function ChildAt(children: seq<Child>, key: seq<byte>): (node: Node)
    requires key in Keys(children)
    ensures exists c :: c in children && node == c.node && Key(c.name) == key
  {
    var n := |children| - 1;
    if Key(children[n].name) == key then children[n].node else ChildAt(children[..n], key)
  }

  lemma {:induction false} TableOfChildren(recs: seq<Record>, children: seq<Child>)
    requires Describe(recs, children)
    ensures RecordTable(recs).Keys == Keys(children)
    ensures forall key :: key in Keys(children) ==> RecordTable(recs)[key] == ChildAt(children, key).entry
  {
    if |recs| > 0 {
      var rec, n := recs[|recs| - 1], |children| - 1;
      if IsDotName(NameAt(rec, 0)) {
        TableOfChildren(recs[..|recs| - 1], children);
      } else {
        TableOfChildren(recs[..|recs| - 1], children[..n]);
        KeysOfLast(children);
      }
    }
  }

  lemma KeysOfLast(children: seq<Child>)
    requires |children| > 0
    ensures var n := |children| - 1;
            Keys(children) == Keys(children[..n]) + {Key(children[n].name)}
  {
    var n := |children| - 1;
    assert children == children[..n] + [children[n]];
  }

  // ----- Walking the tree by exact names

  datatype Walk =
    | Reached(node: Node)
    | Missing(dir: Node, rest: seq<seq<byte>>) // the directory does not list the first of these
    | ThroughFile

  ghost function WalkTree(node: Node, parts: seq<seq<byte>>): (walk: Walk)
    ensures walk.Missing? ==> |walk.rest| > 0 && Upper(walk.rest[0]) !in Keys(walk.dir.children)
    decreases |parts|
  {
    if |parts| == 0 then Reached(node)
    else if !node.entry.isDir then ThroughFile
    else if Upper(parts[0]) in Keys(node.children) then
      WalkTree(ChildAt(node.children, Upper(parts[0])), parts[1..])
    else Missing(node, parts)
  }

  /** A directory on disk lists exactly its children. */
  lemma DirectoryLists(img: seq<byte>, node: Node)
    requires OnDisk(img, node) && node.entry.isDir
    ensures var listing := Listing(img, node.entry.extent, node.entry.size);
            && listing.Ok? && listing.value.Keys == Keys(node.children)
            && forall key :: key in Keys(node.children) ==> listing.value[key] == ChildAt(node.children, key).entry
  {
    var data := Region(img, node.entry.extent, node.entry.size);
    var recs: seq<Record>, starts: seq<nat> :| LaidOut(data, recs, starts) && Describe(recs, node.children);
    LaidOutDirectoryListsItsRecords(data, recs, starts);
    TableOfChildren(recs, node.children);
  }

  lemma ChildOnDisk(img: seq<byte>, node: Node, key: seq<byte>)
    requires OnDisk(img, node) && node.entry.isDir && key in Keys(node.children)
    ensures OnDisk(img, ChildAt(node.children, key))
  {
  }

  /** A listed name is taken whatever else would be tolerated. */
  lemma ListedNameIsTaken(img: seq<byte>, node: Node, parts: seq<seq<byte>>, r: Result<DirEntry, IsoError>)
    requires |parts| > 0 && OnDisk(img, node) && node.entry.isDir && Upper(parts[0]) in Keys(node.children)
    ensures var child := ChildAt(node.children, Upper(parts[0]));
            MayFind(img, node.entry, parts, r)
            <==> if |parts| == 1 then r == Ok(child.entry) else MayFind(img, child.entry, parts[1..], r)
  {
    DirectoryLists(img, node);
    var table := Listing(img, node.entry.extent, node.entry.size).value;
    assert Candidates(table.Keys, parts[0]) == {Upper(parts[0])};
    assert Upper(parts[0]) in Candidates(table.Keys, parts[0]);
  }

  /** Look-up on disk agrees with the tree on listed names: it returns the extent of the node a
      path reaches, and a path with an unlisted name has the outcomes of looking up the rest of
      it in the directory that does not list it. */
  lemma {:induction false} LookupFollowsTree(img: seq<byte>, node: Node,
                                             parts: seq<seq<byte>>, r: Result<DirEntry, IsoError>)
    requires |parts| > 0 && OnDisk(img, node) && node.entry.isDir
    ensures var walk := WalkTree(node, parts);
            && (walk.Reached? ==> (MayFind(img, node.entry, parts, r) <==> r == Ok(walk.node.entry)))
            && (walk.Missing? ==>
                  && OnDisk(img, walk.dir) && walk.dir.entry.isDir
                  && |walk.rest| > 0 && Upper(walk.rest[0]) !in Keys(walk.dir.children)
                  && (MayFind(img, node.entry, parts, r) <==> MayFind(img, walk.dir.entry, walk.rest, r)))
    decreases |parts|
  {
    if Upper(parts[0]) in Keys(node.children) {
      var child := ChildAt(node.children, Upper(parts[0]));
      ListedNameIsTaken(img, node, parts, r);
      ChildOnDisk(img, node, Upper(parts[0]));
      if |parts| > 1 && child.entry.isDir {
        LookupFollowsTree(img, child, parts[1..], r);
      }
    }
  }

  /** The whole look-up, from the bytes of the image: its root directory's record and the laid-out
      directories below it decide what a listed path returns. */
  lemma LookupReturnsNode(img: seq<byte>, k: nat, date: seq<byte>, root: Node,
                          parts: seq<seq<byte>>, r: Result<DirEntry, IsoError>)
    requires HasRoot(img, k, root.entry, date) && OnDisk(img, root)
    requires |parts| > 0 && WalkTree(root, parts).Reached?
    ensures MayReturn(img, parts, r) <==> r == Ok(WalkTree(root, parts).node.entry)
  {
    LookupStartsAtRoot(img, k, root.entry, date, parts, r);
    LookupFollowsTree(img, root, parts, r);
  }

  /** The node a name may be mistaken for: one whose key is a prefix of it or short for it. */
  ghost predicate IsMistakenFor(dir: Node, key: seq<byte>, name: seq<byte>) {
    key in Keys(dir.children) && (key <= Upper(name) || IsShortened(key, Upper(name)))
  }

  /** A path whose last name is not listed is reported missing exactly when no listed key is a
      prefix of that name or short for it; otherwise another file's extent is returned. */
  lemma MissingPathIff(img: seq<byte>, root: Node, parts: seq<seq<byte>>, r: Result<DirEntry, IsoError>)
    requires |parts| > 0 && OnDisk(img, root) && root.entry.isDir && MayFind(img, root.entry, parts, r)
    requires WalkTree(root, parts).Missing? && |WalkTree(root, parts).rest| == 1
    ensures var dir, name := WalkTree(root, parts).dir, WalkTree(root, parts).rest[0];
            && (r == Err(NotFound) <==> forall key :: !IsMistakenFor(dir, key, name))
            && (r != Err(NotFound) ==>
                  exists key :: IsMistakenFor(dir, key, name) && r == Ok(ChildAt(dir.children, key).entry))
  {
    LookupFollowsTree(img, root, parts, r);
    var dir, name := WalkTree(root, parts).dir, WalkTree(root, parts).rest[0];
    UnlistedNameInDirectory(img, dir, name, r);
    assert WalkTree(root, parts).rest == [name];
  }

  lemma UnlistedNameInDirectory(img: seq<byte>, dir: Node, name: seq<byte>, r: Result<DirEntry, IsoError>)
    requires OnDisk(img, dir) && dir.entry.isDir && Upper(name) !in Keys(dir.children)
    requires MayFind(img, dir.entry, [name], r)
    ensures r == Err(NotFound) <==> forall key :: !IsMistakenFor(dir, key, name)
    ensures r != Err(NotFound) ==>
              exists key :: IsMistakenFor(dir, key, name) && r == Ok(ChildAt(dir.children, key).entry)
  {
    DirectoryLists(img, dir);
    var table := Listing(img, dir.entry.extent, dir.entry.size).value;
    UnlistedNameIsMissingIff(img, table, name, r);
    if r == Err(NotFound) {
      forall key ensures !IsMistakenFor(dir, key, name) {
        assert key in table <==> key in Keys(dir.children);
      }
    } else {
      var key :| key in table && (key <= Upper(name) || IsShortened(key, Upper(name))) && r == Ok(table[key]);
      assert IsMistakenFor(dir, key, name);
    }
  }

  /** A path with an unlisted name that nothing is mistaken for is missing, wherever it stands. */
  lemma UnmistakenPathIsMissing(img: seq<byte>, root: Node, parts: seq<seq<byte>>, r: Result<DirEntry, IsoError>)
    requires |parts| > 0 && OnDisk(img, root) && root.entry.isDir && MayFind(img, root.entry, parts, r)
    requires WalkTree(root, parts).Missing?
    requires forall key :: !IsMistakenFor(WalkTree(root, parts).dir, key, WalkTree(root, parts).rest[0])
    ensures r == Err(NotFound)
  {
    LookupFollowsTree(img, root, parts, r);
    var dir, rest := WalkTree(root, parts).dir, WalkTree(root, parts).rest;
    DirectoryLists(img, dir);
    var table := Listing(img, dir.entry.extent, dir.entry.size).value;
    forall key | key in table ensures !Tolerates(key, Upper(rest[0])) {
      assert !IsMistakenFor(dir, key, rest[0]);
      ToleratesIff(key, Upper(rest[0]));
    }
    assert Candidates(table.Keys, rest[0]) == {};
  }

  const BOOT: seq<byte> := [0x42, 0x4F, 0x4F, 0x54] // "BOOT"
  const BOOTMGR: seq<byte> := [0x42, 0x4F, 0x4F, 0x54, 0x4D, 0x47, 0x52] // "BOOTMGR"

  lemma BootKeys()
    ensures Key(BOOT) == BOOT && Upper(BOOTMGR) == BOOTMGR && BOOT <= BOOTMGR && BOOT != BOOTMGR
  {
    SplitFree(BOOT, 0x3B);
  }

  /** In a directory that lists BOOT alone, BOOTMGR is not missing: BOOT's extent is returned. */
  lemma BootIsMistakenForBootmgr(img: seq<byte>, dir: Node, boot: Node, r: Result<DirEntry, IsoError>)
    requires OnDisk(img, dir) && dir.entry.isDir && dir.children == [Child(BOOT, boot)]
    requires MayFind(img, dir.entry, [BOOTMGR], r)
    ensures WalkTree(dir, [BOOTMGR]) == Missing(dir, [BOOTMGR])
    ensures r == Ok(boot.entry)
  {
    BootKeys();
    assert Child(BOOT, boot) in dir.children;
    assert Keys(dir.children) == {BOOT};
    assert IsMistakenFor(dir, BOOT, BOOTMGR);
    UnlistedNameInDirectory(img, dir, BOOTMGR, r);
  }

  /** A one-sector directory with a record of the given entry named BOOT and nothing else. */
  function BootSector(entry: DirEntry): (img: seq<byte>)
    ensures |img| == 2048
  {
    var rec := EncodeRecord(BOOT, entry, seq(7, _ => 0), []);
    rec + seq(2048 - |rec|, _ => 0)
  }

  function BootDirectory(entry: DirEntry): Node {
    Node(DirEntry(0, 2048, true), [Child(BOOT, Node(entry, []))])
  }

  lemma BootRecord(entry: DirEntry) returns (rec: Record)
    ensures rec == EncodeRecord(BOOT, entry, seq(7, _ => 0), []) && |rec| <= 2048
    ensures Describe([rec], BootDirectory(entry).children)
  {
    var date := seq(7, _ => 0);
    EncodedRecordReadsBack(BOOT, entry, date, []);
    rec := EncodeRecord(BOOT, entry, date, []);
    assert [rec][..0] == [] && BootDirectory(entry).children[..0] == [];
    assert !IsDotName(BOOT);
  }

  lemma OneRecordIsLaidOut(rec: Record, data: seq<byte>)
    requires |rec| <= |data| && data[..|rec|] == rec && IsZero(data[|rec|..])
    ensures LaidOut(data, [rec], [0])
  {
    assert HoldsRecord(data, [0][0], [rec][0]);
    assert ZeroFillBefore(data, [rec], [0], 0);
  }

  lemma BootDirectoryIsOnDisk(entry: DirEntry)
    requires !entry.isDir
    ensures OnDisk(BootSector(entry), BootDirectory(entry))
  {
    var img, dir := BootSector(entry), BootDirectory(entry);
    var rec := BootRecord(entry);
    OneRecordIsLaidOut(rec, img);
    assert Region(img, 0, 2048) == img;
    assert Holds(img, dir.children);
  }

  lemma OnlyCandidate(table: map<seq<byte>, DirEntry>, name: seq<byte>, key: seq<byte>)
    requires table.Keys == {key} && Tolerates(key, Upper(name)) && Upper(name) != key
    ensures Candidates(table.Keys, name) == {key} && key in Candidates(table.Keys, name)
  {
  }

  /** Such a directory on disk: looking up BOOTMGR in it returns the entry of BOOT, and only that. */
  lemma BootSectorIsMistaken(entry: DirEntry, r: Result<DirEntry, IsoError>)
    requires !entry.isDir
    ensures MayFind(BootSector(entry), DirEntry(0, 2048, true), [BOOTMGR], r) <==> r == Ok(entry)
  {
    var img, dir := BootSector(entry), BootDirectory(entry);
    BootDirectoryIsOnDisk(entry);
    BootKeys();
    DirectoryLists(img, dir);
    KeysOfOne(BOOT, dir);
    ToleratesIff(BOOT, BOOTMGR);
    OnlyCandidate(Listing(img, 0, 2048).value, BOOTMGR, BOOT);
  }

  lemma KeysOfOne(name: seq<byte>, dir: Node)
    requires |dir.children| == 1 && dir.children[0].name == name
    ensures Keys(dir.children) == {Key(name)}
    ensures ChildAt(dir.children, Key(name)) == dir.children[0].node
  {
    assert dir.children[0] in dir.children;
  }

  // ----- Injecting a boot record leaves the tree alone

  /** Whether an injection rewrites a sector: on ISO 9660 media 18 only if it is free, and 19
      only on UDF media. */
  predicate IsRewritten(pre: seq<byte>, lba: nat) {
    || lba == 15 || lba == 17
    || (lba == 18 && Readable(pre, 18) && (IsUdfLayout(pre) || IsZero(SectorAt(pre, 18))))
    || (lba == 19 && Readable(pre, 17) && IsUdfLayout(pre))
  }

  lemma OtherSectorsStay(pre: seq<byte>, bootImage: seq<byte>, post: seq<byte>, i: nat)
    requires Rejection(pre, bootImage).None? && Injected(pre, bootImage, post)
    requires i < |pre| && !IsRewritten(pre, i / 2048)
    ensures i < |post| && post[i] == pre[i]
  {
    if i / 2048 == 18 {
      assert SectorAt(post, 18)[i - 18 * 2048] == SectorAt(pre, 18)[i - 18 * 2048];
    }
  }

  /** The bytes of an extent lie outside the sectors that an injection rewrites. */
  predicate AvoidsRewritten(pre: seq<byte>, entry: DirEntry) {
    var first := entry.extent as nat * 2048;
    forall i :: first <= i < first + entry.size ==> !IsRewritten(pre, i / 2048)
  }

  ghost predicate DirectoriesAvoidRewritten(pre: seq<byte>, node: Node)
    decreases node
  {
    node.entry.isDir ==>
      && AvoidsRewritten(pre, node.entry)
      && forall c :: c in node.children ==> DirectoriesAvoidRewritten(pre, c.node)
  }

  lemma InjectionKeepsExtent(pre: seq<byte>, bootImage: seq<byte>, post: seq<byte>, entry: DirEntry)
    requires Rejection(pre, bootImage).None? && Injected(pre, bootImage, post)
    requires RegionReadable(pre, entry.extent, entry.size) && AvoidsRewritten(pre, entry)
    ensures RegionReadable(post, entry.extent, entry.size)
    ensures Region(post, entry.extent, entry.size) == Region(pre, entry.extent, entry.size)
  {
    var first := entry.extent as nat * 2048;
    forall i | first <= i < first + entry.size ensures i < |post| && post[i] == pre[i] {
      OtherSectorsStay(pre, bootImage, post, i);
    }
  }

  lemma {:induction false} InjectionKeepsTree(pre: seq<byte>, bootImage: seq<byte>, post: seq<byte>, node: Node)
    requires Rejection(pre, bootImage).None? && Injected(pre, bootImage, post)
    requires OnDisk(pre, node) && DirectoriesAvoidRewritten(pre, node)
    ensures OnDisk(post, node)
    decreases node
  {
    if node.entry.isDir {
      InjectionKeepsExtent(pre, bootImage, post, node.entry);
      forall c | c in node.children ensures OnDisk(post, c.node) {
        InjectionKeepsTree(pre, bootImage, post, c.node);
      }
    }
  }

  /** An image that has a primary volume descriptor keeps it. */
  lemma InjectionKeepsPrimaryDescriptor(pre: seq<byte>, bootImage: seq<byte>, post: seq<byte>)
    requires Rejection(pre, bootImage).None? && Injected(pre, bootImage, post)
    requires PrimaryFrom(pre, 16).Ok?
    ensures PrimaryFrom(post, 16) == PrimaryFrom(pre, 16)
  {
    InjectedHead(pre, bootImage, post);
    assert !PrimaryFrom(pre, 17).Ok?;
  }

  lemma InjectionKeepsRoot(pre: seq<byte>, bootImage: seq<byte>, post: seq<byte>, k: nat, entry: DirEntry,
                           date: seq<byte>, parts: seq<seq<byte>>, r: Result<DirEntry, IsoError>)
    requires Rejection(pre, bootImage).None? && Injected(pre, bootImage, post)
    requires HasRoot(pre, k, entry, date) && |parts| > 0
    ensures MayReturn(post, parts, r) <==> MayFind(post, entry, parts, r)
  {
    PrimaryIsFound(pre, 16, k);
    InjectionKeepsPrimaryDescriptor(pre, bootImage, post);
    RootOfPrimary(pre, k, entry, date);
  }

  /** No way of resolving the parts but the last, mistaken names included, leads to a file. */
  ghost predicate PassesNoFile(node: Node, parts: seq<seq<byte>>)
    requires |parts| > 0
    decreases |parts|
  {
    && node.entry.isDir
    && (|parts| > 1 ==>
          forall key :: key in Candidates(Keys(node.children), parts[0]) ==>
                          key in Keys(node.children) && PassesNoFile(ChildAt(node.children, key), parts[1..]))
  }

  ghost predicate SameOutcome(a: seq<byte>, b: seq<byte>, entry: DirEntry,
                              parts: seq<seq<byte>>, r: Result<DirEntry, IsoError>)
    requires |parts| > 0
  {
    MayFind(a, entry, parts, r) <==> MayFind(b, entry, parts, r)
  }

  /** Two images with one tree on disk resolve paths through its directories alike, mistaken
      names included. */
  lemma {:induction false} SameTreeSameOutcomes(a: seq<byte>, b: seq<byte>, node: Node,
                                                parts: seq<seq<byte>>, r: Result<DirEntry, IsoError>)
    requires |parts| > 0 && OnDisk(a, node) && OnDisk(b, node) && PassesNoFile(node, parts)
    ensures SameOutcome(a, b, node.entry, parts, r)
    decreases |parts|
  {
    DirectoryLists(a, node);
    DirectoryLists(b, node);
    var table := Listing(a, node.entry.extent, node.entry.size).value;
    assert Listing(b, node.entry.extent, node.entry.size).value == table;
    if |parts| > 1 {
      forall key | key in Candidates(table.Keys, parts[0]) ensures SameOutcome(a, b, table[key], parts[1..], r) {
        ChildOnDisk(a, node, key);
        ChildOnDisk(b, node, key);
        SameTreeSameOutcomes(a, b, ChildAt(node.children, key), parts[1..], r);
      }
      SameListingSameOutcome(a, b, table, parts, r);
    }
  }

  lemma SameListingSameOutcome(a: seq<byte>, b: seq<byte>, table: map<seq<byte>, DirEntry>,
                               parts: seq<seq<byte>>, r: Result<DirEntry, IsoError>)
    requires |parts| > 1
    requires forall key :: key in Candidates(table.Keys, parts[0]) ==> SameOutcome(a, b, table[key], parts[1..], r)
    ensures MayFindIn(a, table, parts, r) <==> MayFindIn(b, table, parts, r)
  {
    var c := Candidates(table.Keys, parts[0]);
    forall key | key in c ensures MayFind(a, table[key], parts[1..], r) <==> MayFind(b, table[key], parts[1..], r) {
      assert SameOutcome(a, b, table[key], parts[1..], r);
    }
  }

  /** Paths through the directories of a tree that the injection avoids resolve as before,
      whatever the outcome: found, missing or mistaken. */
  lemma OutcomesSurviveInjection(pre: seq<byte>, bootImage: seq<byte>, post: seq<byte>, root: Node,
                                 parts: seq<seq<byte>>, r: Result<DirEntry, IsoError>)
    requires Rejection(pre, bootImage).None? && Injected(pre, bootImage, post)
    requires OnDisk(pre, root) && DirectoriesAvoidRewritten(pre, root)
    requires |parts| > 0 && PassesNoFile(root, parts)
    ensures MayFind(post, root.entry, parts, r) <==> MayFind(pre, root.entry, parts, r)
  {
    InjectionKeepsTree(pre, bootImage, post, root);
    SameTreeSameOutcomes(pre, post, root, parts, r);
  }

  /** The bytes of a file outside the rewritten sectors are what they were. */
  ghost predicate KeepsContents(pre: seq<byte>, post: seq<byte>, entry: DirEntry) {
    RegionReadable(pre, entry.extent, entry.size) && AvoidsRewritten(pre, entry) ==>
      && RegionReadable(post, entry.extent, entry.size)
      && Region(post, entry.extent, entry.size) == Region(pre, entry.extent, entry.size)
  }

  /** Look-up in the injected image returns the extent of the node that a listed path reaches,
      and its contents are what they were unless they lie in the rewritten sectors. */
  lemma LookupSurvivesInjection(pre: seq<byte>, bootImage: seq<byte>, post: seq<byte>,
                                k: nat, date: seq<byte>, root: Node,
                                parts: seq<seq<byte>>, r: Result<DirEntry, IsoError>)
    requires Rejection(pre, bootImage).None? && Injected(pre, bootImage, post)
    requires HasRoot(pre, k, root.entry, date) && OnDisk(pre, root) && DirectoriesAvoidRewritten(pre, root)
    requires |parts| > 0 && WalkTree(root, parts).Reached?
    ensures MayReturn(post, parts, r) <==> r == Ok(WalkTree(root, parts).node.entry)
    ensures KeepsContents(pre, post, WalkTree(root, parts).node.entry)
  {
    InjectionKeepsRoot(pre, bootImage, post, k, root.entry, date, parts, r);
    assert OnDisk(post, root) by {
      InjectionKeepsTree(pre, bootImage, post, root);
    }
    LookupFollowsTree(post, root, parts, r);
    ContentsAreKept(pre, bootImage, post, WalkTree(root, parts).node.entry);
  }

  lemma ContentsAreKept(pre: seq<byte>, bootImage: seq<byte>, post: seq<byte>, entry: DirEntry)
    requires Rejection(pre, bootImage).None? && Injected(pre, bootImage, post)
    ensures KeepsContents(pre, post, entry)
  {
    if RegionReadable(pre, entry.extent, entry.size) && AvoidsRewritten(pre, entry) {
      InjectionKeepsExtent(pre, bootImage, post, entry);
    }
  }
}
