/** Restores the true size of an exact file in the directory entry of a FAT image. */
module FatDirectoryPatch {
  import opened Bytes
  import opened Wrappers
  import opened ImageFile

  const SPACE: byte := 0x20
  const DOT: byte := 0x2E

  datatype PatchError = NoShortName | EntryNotFound

  type ShortName = s: seq<byte> | |s| == 11 witness seq(11, _ => SPACE)

  // ----- Directory slots

  /** A 32-byte slot that is a plain file entry of the given short name and size. */
  predicate IsFileSlot(img: seq<byte>, off: nat, name: ShortName, size: uint32) {
    && off + 32 <= |img|
    && img[off..off + 11] == name
    && img[off + 11] / 0x08 % 2 == 0 // not a volume label
    && img[off + 11] / 0x10 % 2 == 0 // not a directory
    && Le32(img, off + 28) == size
  }

  lemma BitsThreeAndFour(attr: byte)
    ensures attr / 0x08 % 2 == 0 && attr / 0x10 % 2 == 0 <==> attr % 32 < 8
  {
    var n, r := attr / 32, attr % 32;
    assert attr / 0x10 == 2 * n + if r < 16 then 0 else 1;
    assert attr / 0x08 == 4 * n + if r < 8 then 0 else if r < 16 then 1 else if r < 24 then 2 else 3;
  }

  /** Among slots of that name and size, plain files are those with attribute bits 3 and 4 clear;
      long-name slots, whose attribute byte is 0x0F, are none. */
  lemma PlainFileAttributes(img: seq<byte>, off: nat, name: ShortName, size: uint32)
    requires off + 32 <= |img| && img[off..off + 11] == name && Le32(img, off + 28) == size
    ensures IsFileSlot(img, off, name, size) <==> img[off + 11] % 32 < 8
  {
    BitsThreeAndFour(img[off + 11]);
  }

  /** The first matching slot at or after a 32-byte boundary. */
  ghost predicate IsFirstSlot(img: seq<byte>, name: ShortName, size: uint32, slot: nat) {
    && IsFileSlot(img, slot * 32, name, size)
    && forall k: nat :: k < slot ==> !IsFileSlot(img, k * 32, name, size)
  }

  ghost predicate HasNoSlot(img: seq<byte>, name: ShortName, size: uint32) {
    forall k: nat :: !IsFileSlot(img, k * 32, name, size)
  }

  /** The only change: the size field of one slot. */
  ghost predicate Resized(pre: seq<byte>, slot: nat, size: uint32, post: seq<byte>) {
    && |post| == |pre| && slot * 32 + 32 <= |pre|
    && Le32(post, slot * 32 + 28) == size
    && forall i :: 0 <= i < |pre| && !(slot * 32 + 28 <= i < slot * 32 + 32) ==> post[i] == pre[i]
  }

  method PatchFATFileSize(f: ImageFile, fileName: seq<byte>, expectSize: uint32, newSize: uint32)
    returns (r: Option<PatchError>)
    modifies f
    ensures r == var name := ToFAT83Name(fileName);
                 if name.None? then Some(NoShortName)
                 else if HasNoSlot(old(f.bytes), name.value, expectSize) then Some(EntryNotFound)
                 else None
    ensures r.Some? ==> f.bytes == old(f.bytes)
    ensures r.None? ==> exists slot: nat :: IsFirstSlot(old(f.bytes), ToFAT83Name(fileName).value, expectSize, slot) &&
                                            Resized(old(f.bytes), slot, newSize, f.bytes)
  {
    var sfn := ToFAT83Name(fileName);
    if sfn.None? {
      return Some(NoShortName);
    }
    var img := f.bytes;
    var off := 0;
    ghost var slot := 0;
    while off + 32 <= |img|
      invariant off == slot * 32
      invariant forall k: nat :: k < slot ==> !IsFileSlot(img, k * 32, sfn.value, expectSize)
      decreases |img| - off
    {
      if img[off..off + 11] == sfn.value {
        var attr := img[off + 11];
        if attr / 0x08 % 2 == 0 && attr / 0x10 % 2 == 0 && Le32(img, off + 28) == expectSize {
          assert IsFirstSlot(img, sfn.value, expectSize, slot);
          WriteSize(f, slot, off, newSize);
          return None;
        }
      }
      off := off + 32;
      slot := slot + 1;
    }
    assert HasNoSlot(img, sfn.value, expectSize);
    return Some(EntryNotFound);
  }

  method WriteSize(f: ImageFile, ghost slot: nat, off: nat, newSize: uint32)
    requires off == slot * 32 && off + 32 <= |f.bytes|
    modifies f
    ensures Resized(old(f.bytes), slot, newSize, f.bytes)
  {
    var field := PutLe32(newSize);
    f.WriteAt(field, off + 28);
    ghost var b := f.bytes;
    assert b[off + 28] == field[0] && b[off + 29] == field[1] && b[off + 30] == field[2] && b[off + 31] == field[3];
  }

  // ----- Short names

  /** Position of the first dot, or the length. */
  function DotAt(s: seq<byte>): (n: nat)
    ensures n <= |s| && DOT !in s[..n]
    ensures n < |s| ==> s[n] == DOT
  {
    if s == [] || s[0] == DOT then 0 else 1 + DotAt(s[1..])
  }

  function SpacePadded(s: seq<byte>, n: nat): (r: seq<byte>)
    requires |s| <= n
    ensures |r| == n && s <= r
  {
    s + seq(n - |s|, _ => SPACE)
  }

  /** The space-padded 8.3 name, or None for a name that does not fit it. */
  function ToFAT83Name(name: seq<byte>): Option<ShortName> {
    var upper := Upper(name);
    var n := DotAt(upper);
    var base, ext := upper[..n], if n < |upper| then upper[n + 1..] else [];
    if |base| > 8 || |ext| > 3 then None else Some(SpacePadded(base, 8) + SpacePadded(ext, 3))
  }

  /** Byte i of an 11-byte name with this base and extension: the upper-cased base in the first
      eight bytes, the upper-cased extension in the last three, both filled up with spaces. */
  function ShortNameByte(base: seq<byte>, ext: seq<byte>, i: nat): byte {
    if i < 8 then
      if i < |base| then UpperByte(base[i]) else 0x20
    else
      if i - 8 < |ext| then UpperByte(ext[i - 8]) else 0x20
  }

  ghost predicate IsShortName(base: seq<byte>, ext: seq<byte>, r: Option<ShortName>) {
    if |base| > 8 || |ext| > 3 then r == None
    else r.Some? && forall i :: 0 <= i < 11 ==> r.value[i] == ShortNameByte(base, ext, i)
  }

  lemma DotOfParts(base: seq<byte>, tail: seq<byte>)
    requires DOT !in base
    ensures DotAt(Upper(base + ([DOT] + tail))) == |base| && DotAt(Upper(base)) == |base|
  {
    var whole := Upper(base + ([DOT] + tail));
    assert forall i :: 0 <= i < |base| ==> Upper(base)[i] != DOT && whole[i] != DOT;
    assert whole[|base|] == DOT;
  }

  /** The short name of a file with an extension; it exists exactly when neither part is too long. */
  lemma ShortNameOfParts(base: seq<byte>, ext: seq<byte>)
    requires DOT !in base
    ensures IsShortName(base, ext, ToFAT83Name(base + ([DOT] + ext)))
  {
    DotOfParts(base, ext);
    var name := base + ([DOT] + ext);
    var upper := Upper(name);
    assert forall i :: 0 <= i < |base| ==> upper[..|base|][i] == UpperByte(base[i]);
    assert forall i :: 0 <= i < |ext| ==> upper[|base| + 1..][i] == UpperByte(ext[i]);
  }

  /** The short name of a file without one. */
  lemma ShortNameWithoutDot(base: seq<byte>)
    requires DOT !in base
    ensures IsShortName(base, [], ToFAT83Name(base))
  {
    DotOfParts(base, []);
    assert forall i :: 0 <= i < |base| ==> Upper(base)[..|base|][i] == UpperByte(base[i]);
  }

  /** Base and extension spelled in upper case make up the short name. */
  lemma ShortNameSpelled(base: seq<byte>, ext: seq<byte>, upperBase: seq<byte>, upperExt: seq<byte>, fill: seq<byte>)
    requires DOT !in base && |base| + |fill| == 8 && |ext| == 3
    requires |upperBase| == |base| && forall i :: 0 <= i < |base| ==> upperBase[i] == UpperByte(base[i])
    requires |upperExt| == 3 && forall i :: 0 <= i < 3 ==> upperExt[i] == UpperByte(ext[i])
    requires forall i :: 0 <= i < |fill| ==> fill[i] == 0x20
    ensures ToFAT83Name(base + ([DOT] + ext)) == Some(upperBase + fill + upperExt)
  {
    ShortNameOfParts(base, ext);
    var name := ToFAT83Name(base + ([DOT] + ext)).value;
    forall i | 0 <= i < 11 ensures name[i] == (upperBase + fill + upperExt)[i] {
      assert name[i] == ShortNameByte(base, ext, i);
    }
    assert name == upperBase + fill + upperExt;
  }

  /** "vioser" + "." + "inf" has the short name "VIOSER" + "  " + "INF". */
  lemma ShortNameOfVioser()
    ensures ToFAT83Name([0x76, 0x69, 0x6F, 0x73, 0x65, 0x72] + ([DOT] + [0x69, 0x6E, 0x66]))
            == Some([0x56, 0x49, 0x4F, 0x53, 0x45, 0x52] + [0x20, 0x20] + [0x49, 0x4E, 0x46])
  {
    ShortNameSpelled([0x76, 0x69, 0x6F, 0x73, 0x65, 0x72], [0x69, 0x6E, 0x66],
                     [0x56, 0x49, 0x4F, 0x53, 0x45, 0x52], [0x49, 0x4E, 0x46], [0x20, 0x20]);
  }

  // ----- What one patch leaves behind

  lemma SlotAfterResize(pre: seq<byte>, slot: nat, newSize: uint32, post: seq<byte>, k: nat)
    requires Resized(pre, slot, newSize, post) && k * 32 + 32 <= |pre|
    ensures post[k * 32 + 11] == pre[k * 32 + 11]
    ensures post[k * 32..k * 32 + 11] == pre[k * 32..k * 32 + 11]
    ensures Le32(post, k * 32 + 28) == if k == slot then newSize else Le32(pre, k * 32 + 28)
  {
  }

  /** The patched slot carries the new size under the old name, and every other slot is
      what it was. */
  lemma SlotAfterPatch(pre: seq<byte>, name: ShortName, expectSize: uint32, slot: nat, newSize: uint32,
                       post: seq<byte>, k: nat, other: ShortName, size: uint32)
    requires IsFirstSlot(pre, name, expectSize, slot) && Resized(pre, slot, newSize, post)
    ensures IsFileSlot(post, k * 32, other, size) <==>
            if k == slot then other == name && size == newSize else IsFileSlot(pre, k * 32, other, size)
  {
    if k * 32 + 32 <= |pre| {
      SlotAfterResize(pre, slot, newSize, post, k);
    }
  }

  /** A patch leaves every slot of any other short name as it was, so the patches of files
      with distinct short names do not disturb each other, in whatever order they run. */
  lemma PatchLeavesOtherNames(pre: seq<byte>, name: ShortName, expectSize: uint32, slot: nat, newSize: uint32,
                              post: seq<byte>, other: ShortName, size: uint32)
    requires IsFirstSlot(pre, name, expectSize, slot) && Resized(pre, slot, newSize, post)
    requires other != name
    ensures forall k: nat :: IsFileSlot(post, k * 32, other, size) <==> IsFileSlot(pre, k * 32, other, size)
  {
    forall k: nat
      ensures IsFileSlot(post, k * 32, other, size) <==> IsFileSlot(pre, k * 32, other, size)
    {
      SlotAfterPatch(pre, name, expectSize, slot, newSize, post, k, other, size);
    }
  }

  /** After a patch that changes the size, the slot carries the new size and no longer
      matches the old one; the next file of the same short name and padded size is found
      in the next matching slot. A patch that keeps the size leaves every match in place,
      and the next such file is found in the same slot again. */
  lemma PatchedSlotIsPassedOver(pre: seq<byte>, name: ShortName, expectSize: uint32, slot: nat,
                                   newSize: uint32, post: seq<byte>)
    requires IsFirstSlot(pre, name, expectSize, slot) && Resized(pre, slot, newSize, post)
    ensures IsFileSlot(post, slot * 32, name, newSize)
    ensures forall k: nat :: IsFileSlot(post, k * 32, name, expectSize) <==>
              IsFileSlot(pre, k * 32, name, expectSize) && (k == slot ==> newSize == expectSize)
  {
    forall k: nat
      ensures IsFileSlot(post, k * 32, name, expectSize) <==>
              IsFileSlot(pre, k * 32, name, expectSize) && (k == slot ==> newSize == expectSize)
    {
      SlotAfterPatch(pre, name, expectSize, slot, newSize, post, k, name, expectSize);
    }
    SlotAfterPatch(pre, name, expectSize, slot, newSize, post, slot, name, newSize);
  }
}
