/**
 * Padding files to the cluster size of the FAT volume that will hold them, when the
 * cluster size depends on the padded total.
 */
module FatCluster {
  import opened Bytes
  import opened MapSums

  type Path = seq<byte>
  type Files = map<Path, seq<byte>>

  const MB: nat := 1024 * 1024
  const GB: nat := 1024 * MB
  const NEWLINE: byte := 10

  function FatDiskSize(totalSize: nat): nat {
    var diskSize := totalSize + 10 * MB;
    if diskSize < 64 * MB then 64 * MB else diskSize
  }

  function FATClusterBytes(totalSize: nat): nat {
    var size := FatDiskSize(totalSize);
    if size <= 260 * MB then 512
    else if size <= 8 * GB then 4096
    else if size <= 16 * GB then 8192
    else if size <= 32 * GB then 16384
    else 32768
  }

  predicate IsClusterSize(c: nat) {
    c == 512 || c == 4096 || c == 8192 || c == 16384 || c == 32768
  }

  /** Cluster sizes by the bytes of files: a volume has 10 MB to spare and at least 64 MB. */
  lemma ClusterTable(totalSize: nat)
    ensures FATClusterBytes(totalSize) == 512 <==> totalSize <= 250 * 1048576
    ensures FATClusterBytes(totalSize) == 4096 <==> 250 * 1048576 < totalSize <= 8182 * 1048576
    ensures FATClusterBytes(totalSize) == 8192 <==> 8182 * 1048576 < totalSize <= 16374 * 1048576
    ensures FATClusterBytes(totalSize) == 16384 <==> 16374 * 1048576 < totalSize <= 32758 * 1048576
    ensures FATClusterBytes(totalSize) == 32768 <==> 32758 * 1048576 < totalSize
  {
  }

  /** Position in the chain of cluster sizes. */
  function Rank(c: nat): nat
    requires IsClusterSize(c)
  {
    if c == 512 then 0 else if c == 4096 then 1 else if c == 8192 then 2 else if c == 16384 then 3 else 4
  }

  // ----- Padding one file

  /** The length after padding to whole clusters. */
  function PaddedLength(n: nat, c: int): (r: nat)
    ensures n <= r
  {
    if c <= 0 then n
    else if n == 0 then 0
    else if n <= c then c
    else c + PaddedLength(n - c, c)
  }

  /** What the padding code computes with a remainder. */
  lemma {:induction false} PaddedLengthByRemainder(n: nat, c: nat)
    requires c > 0
    ensures PaddedLength(n, c) == if n % c == 0 then n else n + c - n % c
  {
    if n > c {
      PaddedLengthByRemainder(n - c, c);
      RemainderStep(n, c);
    } else if n == c {
      RemainderStep(n, c);
    }
  }

  lemma RemainderStep(n: nat, c: nat)
    requires 0 < c <= n
    ensures (n - c) % c == n % c
  {
    var q, r := n / c, n % c;
    var q', r' := (n - c) / c, (n - c) % c;
    assert n == c * q + r && n - c == c * q' + r';
    assert c * (q - 1 - q') == r' - r;
    MultiplesAreSpaced(c, q - 1 - q');
  }

  /** A nonzero multiple of c is at least c away from zero. */
  lemma MultiplesAreSpaced(c: int, k: int)
    requires c > 0
    ensures k == 0 || c * k >= c || c * k <= -c
  {
    if k >= 1 {
      assert c * (k - 1) >= 0;
    } else if k <= -1 {
      assert c * (-1 - k) >= 0;
    }
  }

  /** Whether n bytes fill whole clusters. */
  predicate Fills(n: nat, c: nat)
    requires c > 0
  {
    n == 0 || (n >= c && Fills(n - c, c))
  }

  lemma {:induction false} FillsMeansDivisible(n: nat, c: nat)
    requires c > 0
    ensures Fills(n, c) <==> n % c == 0
  {
    if n >= c {
      FillsMeansDivisible(n - c, c);
      RemainderStep(n, c);
    }
  }

  /** Padding ends on the first cluster boundary at or after the end of the data. */
  lemma {:induction false} PaddedLengthIsFirstBoundary(n: nat, c: nat, r: nat)
    requires c > 0
    ensures Fills(PaddedLength(n, c), c)
    ensures n <= r && Fills(r, c) ==> PaddedLength(n, c) <= r
  {
    if 0 < n <= c {
      assert Fills(0, c);
    } else if n > c {
      PaddedLengthIsFirstBoundary(n - c, c, if r >= c then r - c else 0);
    }
  }

  lemma {:induction false} FillsTogether(a: nat, b: nat, c: nat)
    requires c > 0 && Fills(a, c) && Fills(b, c)
    ensures Fills(a + b, c)
  {
    if a > 0 {
      FillsTogether(a - c, b, c);
    }
  }

  /** A boundary of larger clusters is one of clusters that fill them. */
  lemma {:induction false} FillsSmaller(n: nat, c: nat, larger: nat)
    requires c > 0 && larger > 0 && Fills(larger, c) && Fills(n, larger)
    ensures Fills(n, c)
  {
    if n > 0 {
      FillsSmaller(n - larger, c, larger);
      FillsTogether(n - larger, larger, c);
    }
  }

  /** Cluster sizes divide one another: 512 | 4096 | 8192 | 16384 | 32768. */
  lemma ClusterSizesDivide(c: nat, larger: nat)
    requires IsClusterSize(c) && IsClusterSize(larger) && c <= larger
    ensures Fills(larger, c)
  {
    FillsMeansDivisible(larger, c);
  }

  /** A larger cluster size never pads a file to less. */
  lemma PaddedLengthIsMonotone(n: nat, c: nat, larger: nat)
    requires IsClusterSize(c) && IsClusterSize(larger) && c <= larger
    ensures PaddedLength(n, c) <= PaddedLength(n, larger)
  {
    var r := PaddedLength(n, larger);
    PaddedLengthIsFirstBoundary(n, larger, r);
    ClusterSizesDivide(c, larger);
    FillsSmaller(r, c, larger);
    PaddedLengthIsFirstBoundary(n, c, r);
  }

  /** The data followed by newlines up to a cluster boundary. */
  ghost predicate IsPadding(data: seq<byte>, c: int, padded: seq<byte>) {
    && |padded| == PaddedLength(|data|, c)
    && data <= padded
    && forall i :: |data| <= i < |padded| ==> padded[i] == NEWLINE
  }

  method PadToFATCluster(data: seq<byte>, clusterBytes: int) returns (padded: seq<byte>)
    ensures IsPadding(data, clusterBytes, padded)
  {
    if clusterBytes <= 0 {
      return data;
    }
    PaddedLengthByRemainder(|data|, clusterBytes);
    var rem := |data| % clusterBytes;
    if rem == 0 {
      return data;
    }
    var out := new byte[|data| + clusterBytes - rem](i requires 0 <= i => if i < |data| then data[i] else 0);
    var i := |data|;
    while i < out.Length
      invariant |data| <= i <= out.Length
      invariant out[..|data|] == data
      invariant forall j :: |data| <= j < i ==> out[j] == NEWLINE
    {
      out[i] := NEWLINE;
      i := i + 1;
    }
    padded := out[..];
    assert padded[..|data|] == data;
  }

  // ----- The fixed point

  ghost function Lengths(files: Files): map<Path, nat> {
    map k | k in files :: |files[k]|
  }

  ghost function PaddedLengths(files: Files, c: int): map<Path, nat> {
    map k | k in files :: PaddedLength(|files[k]|, c)
  }

  /** The byte count one pass arrives at; a name in both maps is counted twice. */
  ghost function PassTotal(padded: Files, exact: Files, c: nat): nat {
    Sum(PaddedLengths(padded, c)) + Sum(PaddedLengths(exact, c))
  }

  /** The cluster size that padding to clusters of c leads to. */
  ghost function NextCluster(padded: Files, exact: Files, c: nat): nat {
    FATClusterBytes(PassTotal(padded, exact, c))
  }

  ghost predicate IsFixedPoint(padded: Files, exact: Files, c: nat) {
    IsClusterSize(c) && NextCluster(padded, exact, c) == c
  }

  lemma PaddedSumIsMonotone(files: Files, c: nat, larger: nat)
    requires IsClusterSize(c) && IsClusterSize(larger) && c <= larger
    ensures Sum(PaddedLengths(files, c)) <= Sum(PaddedLengths(files, larger))
  {
    forall k | k in files ensures PaddedLength(|files[k]|, c) <= PaddedLength(|files[k]|, larger) {
      PaddedLengthIsMonotone(|files[k]|, c, larger);
    }
    SumIsMonotone(PaddedLengths(files, c), PaddedLengths(files, larger));
  }

  lemma ClusterBytesIsMonotone(total: nat, larger: nat)
    requires total <= larger
    ensures IsClusterSize(FATClusterBytes(total))
    ensures FATClusterBytes(total) <= FATClusterBytes(larger)
  {
  }

  /** Padding to larger clusters never leads to smaller ones. */
  lemma NextClusterIsMonotone(padded: Files, exact: Files, c: nat, larger: nat)
    requires IsClusterSize(c) && IsClusterSize(larger) && c <= larger
    ensures NextCluster(padded, exact, c) <= NextCluster(padded, exact, larger)
  {
    PaddedSumIsMonotone(padded, c, larger);
    PaddedSumIsMonotone(exact, c, larger);
    ClusterBytesIsMonotone(PassTotal(padded, exact, c), PassTotal(padded, exact, larger));
  }

  lemma SumOfOneMore(files: Files, todo: set<Path>, name: Path, c: int)
    requires name in todo && todo <= files.Keys
    ensures Sum(PaddedLengths(files - (todo - {name}), c)) ==
            Sum(PaddedLengths(files - todo, c)) + PaddedLength(|files[name]|, c)
  {
    var before, after := PaddedLengths(files - todo, c), PaddedLengths(files - (todo - {name}), c);
    var length := PaddedLength(|files[name]|, c);
    assert after == before[name := length];
    SumWithKey(before, name, length);
  }

  ghost predicate PaddedSoFar(files: Files, cluster: nat, before: Files, done: set<Path>, result: Files) {
    && done <= files.Keys && result.Keys == before.Keys + done
    && (forall k :: k in done ==> IsPadding(files[k], cluster, result[k]))
    && (forall k :: k in before && k !in files ==> result[k] == before[k])
  }

  lemma PadOneMore(files: Files, cluster: nat, before: Files, done: set<Path>,
                   result: Files, name: Path, pd: seq<byte>)
    requires PaddedSoFar(files, cluster, before, done, result)
    requires name in files && IsPadding(files[name], cluster, pd)
    ensures PaddedSoFar(files, cluster, before, done + {name}, result[name := pd])
  {
  }

  /** One pass over one of the two maps: pads every file into the result and adds up. */
  method PadInto(files: Files, cluster: nat, before: Files, start: nat) returns (result: Files, total: nat)
    ensures result.Keys == before.Keys + files.Keys
    ensures forall k :: k in files ==> IsPadding(files[k], cluster, result[k])
    ensures forall k :: k in before && k !in files ==> result[k] == before[k]
    ensures total == start + Sum(PaddedLengths(files, cluster))
  {
    result, total := before, start;
    var todo := files.Keys;
    assert files - todo == map[];
    while todo != {}
      invariant todo <= files.Keys && PaddedSoFar(files, cluster, before, files.Keys - todo, result)
      invariant total == start + Sum(PaddedLengths(files - todo, cluster))
    {
      var name :| name in todo;
      var pd := PadToFATCluster(files[name], cluster);
      PadOneMore(files, cluster, before, files.Keys - todo, result, name, pd);
      assert files.Keys - (todo - {name}) == files.Keys - todo + {name};
      result := result[name := pd];
      total := total + |pd|;
      SumOfOneMore(files, todo, name, cluster);
      todo := todo - {name};
    }
    assert files - todo == files;
  }

  /** The files of one pass: everything padded to one cluster size, exact files last. */
  ghost predicate IsPass(padded: Files, exact: Files, c: nat, files: Files) {
    && files.Keys == padded.Keys + exact.Keys
    && (forall k :: k in padded && k !in exact ==> IsPadding(padded[k], c, files[k]))
    && (forall k :: k in exact ==> IsPadding(exact[k], c, files[k]))
  }

  method OnePass(padded: Files, exact: Files, cluster: nat) returns (files: Files, total: nat)
    ensures IsPass(padded, exact, cluster, files)
    ensures total == PassTotal(padded, exact, cluster)
  {
    files, total := PadInto(padded, cluster, map[], 0);
    files, total := PadInto(exact, cluster, files, total);
  }

  lemma NextClusterStaysBelowFixedPoints(padded: Files, exact: Files, c: nat)
    requires IsClusterSize(c)
    requires forall p :: IsFixedPoint(padded, exact, p) ==> c <= p
    ensures forall p :: IsFixedPoint(padded, exact, p) ==> NextCluster(padded, exact, c) <= p
  {
    forall p | IsFixedPoint(padded, exact, p) ensures NextCluster(padded, exact, c) <= p {
      NextClusterIsMonotone(padded, exact, c, p);
    }
  }

  /** Resolves the cluster size before anything is written. The result is the least fixed
      point, found in at most five of the eight passes. */
  method ResolvePadding(padded: Files, exact: Files) returns (files: Files, cluster: nat, passes: nat)
    ensures 1 <= passes <= 5
    ensures IsFixedPoint(padded, exact, cluster) && IsPass(padded, exact, cluster, files)
    ensures forall c :: IsFixedPoint(padded, exact, c) ==> cluster <= c
  {
    cluster := 512;
    files := map[];
    passes := 0;
    while passes < 8
      invariant IsClusterSize(cluster) && passes <= Rank(cluster)
      invariant cluster <= NextCluster(padded, exact, cluster)
      invariant forall c :: IsFixedPoint(padded, exact, c) ==> cluster <= c
      decreases 8 - passes
    {
      var total;
      files, total := OnePass(padded, exact, cluster);
      passes := passes + 1;
      var next := FATClusterBytes(total);
      if next == cluster {
        return;
      }
      NextClusterIsMonotone(padded, exact, cluster, next);
      NextClusterStaysBelowFixedPoints(padded, exact, cluster);
      cluster := next;
    }
  }

  /** Every file of a resolved pass fills whole clusters of the volume formatted for the
      files as written, even when a name in both maps was counted twice. */
  lemma FilesFillClusters(padded: Files, exact: Files, c: nat, files: Files)
    requires IsFixedPoint(padded, exact, c) && IsPass(padded, exact, c, files)
    ensures forall k :: k in files ==> |files[k]| % FATClusterBytes(Sum(Lengths(files))) == 0
    ensures padded.Keys !! exact.Keys ==> FATClusterBytes(Sum(Lengths(files))) == c
  {
    WrittenTotal(padded, exact, c, files);
    var actual := FATClusterBytes(Sum(Lengths(files)));
    ClusterBytesIsMonotone(Sum(Lengths(files)), PassTotal(padded, exact, c));
    forall k | k in files ensures |files[k]| % actual == 0 {
      var data := if k in exact then exact[k] else padded[k];
      PaddedLengthIsFirstBoundary(|data|, c, 0);
      ClusterSizesDivide(actual, c);
      FillsSmaller(|files[k]|, actual, c);
      FillsMeansDivisible(|files[k]|, actual);
    }
  }

  lemma WrittenTotal(padded: Files, exact: Files, c: nat, files: Files)
    requires IsPass(padded, exact, c, files)
    ensures Sum(Lengths(files)) <= PassTotal(padded, exact, c)
    ensures padded.Keys !! exact.Keys ==> Sum(Lengths(files)) == PassTotal(padded, exact, c)
  {
    var p, e := PaddedLengths(padded, c), PaddedLengths(exact, c);
    assert Lengths(files) == p + e;
    SumOfMerge(p, e);
  }
}
