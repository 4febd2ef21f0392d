/** Disk images opened for reading and writing, addressed in 2048-byte sectors. */
module ImageFile {
  import opened Bytes
  import opened Wrappers

  const SECTOR_SIZE: nat := 2048

  type Sector = s: seq<byte> | |s| == 2048 witness seq(2048, _ => 0)

  predicate Readable(img: seq<byte>, lba: nat) {
    lba * 2048 + 2048 <= |img|
  }

  function SectorAt(img: seq<byte>, lba: nat): Sector
    requires Readable(img, lba)
  {
    img[lba * 2048..lba * 2048 + 2048]
  }

  lemma SliceOfSlice(s: seq<byte>, first: nat, last: nat, i: nat, j: nat)
    requires first <= last <= |s| && i <= j <= last - first
    ensures s[first..last][i..j] == s[first + i..first + j]
  {
    var whole := s[first..last];
    forall k | 0 <= k < j - i ensures whole[i..j][k] == s[first + i..first + j][k] {
      assert whole[i..j][k] == whole[i + k];
    }
  }

  lemma SliceOfSector(img: seq<byte>, lba: nat, i: nat, j: nat)
    requires Readable(img, lba) && i <= j <= 2048
    ensures SectorAt(img, lba)[i..j] == img[lba * 2048 + i..lba * 2048 + j]
  {
    SliceOfSlice(img, lba * 2048, lba * 2048 + 2048, i, j);
  }

  /** The length of n bytes rounded up to whole sectors. */
  function SectorAligned(n: nat): (r: nat)
    ensures r % 2048 == 0 && n <= r < n + 2048
  {
    (n + 2047) / 2048 * 2048
  }

  lemma SectorAlignedByPadding(n: nat)
    ensures SectorAligned(n) == if n % 2048 == 0 then n else n + 2048 - n % 2048
  {
  }

  predicate IsZero(s: seq<byte>) {
    forall i :: 0 <= i < |s| ==> s[i] == 0
  }

  /** What writing data at offset off leaves in a file holding s; a gap past the
      old end reads as zeros. */
  function Spliced(s: seq<byte>, off: nat, data: seq<byte>): (r: seq<byte>)
    ensures |r| == if off + |data| > |s| then off + |data| else |s|
    ensures forall i :: off <= i < off + |data| ==> r[i] == data[i - off]
    ensures forall i :: 0 <= i < |s| && !(off <= i < off + |data|) ==> r[i] == s[i]
    ensures forall i :: |s| <= i < off ==> r[i] == 0
  {
    seq(if off + |data| > |s| then off + |data| else |s|,
        i requires 0 <= i =>
          if off <= i < off + |data| then data[i - off] else if i < |s| then s[i] else 0)
  }

  class ImageFile {
    var bytes: seq<byte>

    /** Reads one whole sector; a short read is an error. */
    method ReadSector(lba: nat) returns (r: Option<Sector>)
      ensures r == if Readable(bytes, lba) then Some(SectorAt(bytes, lba)) else None
    {
      if lba * 2048 + 2048 <= |bytes| {
        r := Some(bytes[lba * 2048..lba * 2048 + 2048]);
      } else {
        r := None;
      }
    }

    method WriteAt(data: seq<byte>, off: nat)
      requires |data| > 0
      modifies this
      ensures bytes == Spliced(old(bytes), off, data)
    {
      if off > |bytes| {
        bytes := bytes + seq(off - |bytes|, _ => 0);
      }
      var end := off + |data|;
      bytes := bytes[..off] + data + (if end < |bytes| then bytes[end..] else []);
    }
  }
}
