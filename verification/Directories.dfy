/**
 * Clusters as disjoint pieces of the disk, and what `parse_dir` reads after `write_dir`
 * (src/fs.c) has written.
 */
module Directories {
  import opened Bytes
  import opened FatCells
  import opened Chains
  import opened Records
  import opened Volumes
  import Offsets

  /** Bytes from the start of the data region to the end of cluster `c`. */
  function Reach(v: Vol, c: nat): int {
    (c - 1) * Size(v)
  }

  /** A cluster the table addresses, whose position does not wrap around and which the disk holds. */
  predicate IsDataCluster(v: Vol, c: nat) {
    2 <= c < |v.fat| && Reach(v, c) <= WORD && v.dataOffset + Reach(v, c) <= |v.disk|
  }

  /** Clusters have a size, and on FAT32 the root directory lies on the disk. */
  predicate Laid(v: Vol) {
    && 0 < Size(v) && 2 <= |v.fat| <= WORD && v.dataOffset <= |v.disk|
    && (v.geo.kind == Fat32 ==> IsDataCluster(v, v.geo.rootCluster))
  }

  lemma LaidOnDisk(v: Vol, c: nat)
    requires Laid(v) && IsDataCluster(v, c)
    ensures OnDisk(v, c) && v.dataOffset <= Offset(v, c)
  {
    Offsets.PositionExact(Size(v), c + 1, c);
  }

  lemma LaidApart(v: Vol, c: nat, d: nat)
    requires Laid(v) && IsDataCluster(v, c) && IsDataCluster(v, d) && c != d
    ensures OnDisk(v, c) && OnDisk(v, d) && Offsets.Apart(Offset(v, c), Offset(v, d), Size(v))
  {
    LaidOnDisk(v, c);
    LaidOnDisk(v, d);
    Offsets.PositionsApart(Size(v), (if c < d then d else c) + 1, c, d);
  }

  /** Overwriting one cluster leaves every other cluster alone. */
  lemma PutOther(v: Vol, c: nat, data: seq<byte>, d: nat)
    requires Laid(v) && IsDataCluster(v, c) && IsDataCluster(v, d) && c != d && |data| == Size(v)
    ensures OnDisk(v, c) && OnDisk(v, d) && OnDisk(Put(v, c, data), d)
    ensures Cluster(Put(v, c, data), d) == Cluster(v, d)
  {
    LaidApart(v, c, d);
    SpliceApart(v.disk, Offset(v, c), data, Offset(v, d), Offset(v, d) + Size(v));
  }

  /** Overwriting a cluster with what it holds changes nothing. */
  lemma PutSame(v: Vol, c: nat)
    requires OnDisk(v, c)
    ensures Put(v, c, Cluster(v, c)) == v
  {
    assert Splice(v.disk, Offset(v, c), Cluster(v, c)) == v.disk;
  }

  predicate AreDistinct(s: seq<nat>) {
    forall i, j :: 0 <= i < j < |s| ==> s[i] != s[j]
  }

  predicate AreDataClusters(v: Vol, s: seq<nat>) {
    forall c :: c in s ==> IsDataCluster(v, c)
  }

  lemma AllLaid(v: Vol, s: seq<nat>)
    requires Laid(v) && AreDataClusters(v, s)
    ensures AllOnDisk(v, s)
  {
    forall c | c in s
      ensures OnDisk(v, c)
    {
      LaidOnDisk(v, c);
    }
  }

  lemma LaidAnyDisk(v: Vol, disk: seq<byte>)
    requires Laid(v) && |disk| == |v.disk|
    ensures Laid(v.(disk := disk))
  {
  }

  /** One turn of `write_dir` leaves every cluster but its own alone. */
  lemma WriteStepOther(v: Vol, s: seq<nat>, heap: seq<byte>, n: nat, c: nat)
    requires Laid(v) && AreDataClusters(v, s) && n < |s| && AllOnDisk(v, s) && HeapNeeded(Size(v), n + 1) <= |heap|
    requires IsDataCluster(v, c) && c != s[n]
    ensures HeapNeeded(Size(v), n) <= |heap|
    ensures OnDisk(WriteClusters(v, s, heap, n), c) && OnDisk(WriteClusters(v, s, heap, n + 1), c)
    ensures Cluster(WriteClusters(v, s, heap, n + 1), c) == Cluster(WriteClusters(v, s, heap, n), c)
  {
    WriteUnfold(v, s, heap, n);
    assert s[n] in s;
    PutStepOther(v, WriteClusters(v, s, heap, n), WriteClusters(v, s, heap, n + 1), s[n],
                 Memory(Size(v), heap, n), c);
  }

  lemma PutStepOther(v: Vol, w: Vol, w': Vol, d: nat, data: seq<byte>, c: nat)
    requires Laid(v) && w == v.(disk := w.disk) && |w.disk| == |v.disk|
    requires IsDataCluster(v, d) && IsDataCluster(v, c) && c != d && |data| == Size(v)
    requires OnDisk(w, d) && w' == Put(w, d, data)
    ensures OnDisk(w, c) && OnDisk(w', c) && Cluster(w', c) == Cluster(w, c)
  {
    LaidAnyDisk(v, w.disk);
    PutOther(w, d, data, c);
  }

  /** `write_dir` touches the clusters of the chain and nothing else. */
  lemma {:induction false} WriteOthers(v: Vol, s: seq<nat>, heap: seq<byte>, n: nat, c: nat)
    requires Laid(v) && AreDataClusters(v, s) && n <= |s| && AllOnDisk(v, s) && HeapNeeded(Size(v), n) <= |heap|
    requires IsDataCluster(v, c) && forall i :: 0 <= i < n ==> s[i] != c
    ensures OnDisk(v, c) && OnDisk(WriteClusters(v, s, heap, n), c)
    ensures Cluster(WriteClusters(v, s, heap, n), c) == Cluster(v, c)
  {
    LaidOnDisk(v, c);
    if n != 0 {
      var m := n - 1;
      HeapNeededOrder(Size(v), m, n);
      WriteOthers(v, s, heap, m, c);
      WriteStepOther(v, s, heap, m, c);
    }
  }

  /** Cluster number `j` receives the memory at stride `j`. */
  lemma {:induction false} WriteStrided(v: Vol, s: seq<nat>, heap: seq<byte>, n: nat, w: Vol, j: nat)
    requires Laid(v) && AreDataClusters(v, s) && AreDistinct(s)
    requires j < n <= |s| && AllOnDisk(v, s) && HeapNeeded(Size(v), n) <= |heap|
    requires w == WriteClusters(v, s, heap, n)
    ensures Stride(Size(v), j) + Size(v) <= |heap| && OnDisk(w, s[j])
    ensures Cluster(w, s[j]) == Memory(Size(v), heap, j)
    decreases n
  {
    var m := n - 1;
    HeapNeededOrder(Size(v), m, n);
    WriteUnfold(v, s, heap, m);
    assert s[j] in s && s[m] in s;
    if j < m {
      var w0 := WriteClusters(v, s, heap, m);
      WriteStrided(v, s, heap, m, w0, j);
      PutStepOther(v, w0, w, s[m], Memory(Size(v), heap, m), s[j]);
    }
  }

  lemma {:induction false} StrideIs(size: nat, n: nat)
    ensures Stride(size, n) == RECORD * size * n
  {
    if n != 0 {
      StrideIs(size, n - 1);
      assert RECORD * size * n == RECORD * size * (n - 1) + RECORD * size;
    }
  }

  /** From the second cluster on, the stride is past the end of a buffer of the chain's size. */
  lemma StridePastEnd(size: nat, n: nat)
    requires n >= 2
    ensures n * size <= Stride(size, n - 1)
  {
    StrideIs(size, n - 1);
    assert RECORD * size * (n - 1) == (RECORD * (n - 1)) * size;
    Offsets.MulAtMost(size, n, RECORD * (n - 1));
  }

  /** `parse_dir` of the chain `s` after `write_dir` from memory `heap` gives back `buf`. */
  predicate ReadsBack(v: Vol, s: seq<nat>, heap: seq<byte>, buf: seq<byte>)
    requires AllOnDisk(v, s) && HeapNeeded(Size(v), |s|) <= |heap|
  {
    var w := WriteClusters(v, s, heap, |s|);
    AllOnDisk(w, s) && Data(w, s) == buf
  }

  /**
   * Whatever follows the buffer in memory, `parse_dir` after `write_dir` gives back the
   * entries that were written: exactly for directories of at most one cluster, because the
   * loop's index counts bytes where the pointer counts records.
   */
  lemma WriteParseIff(v: Vol, s: seq<nat>, buf: seq<byte>)
    requires Laid(v) && AreDataClusters(v, s) && AreDistinct(s) && AllOnDisk(v, s)
    requires |buf| == |s| * Size(v)
    ensures (forall heap :: buf <= heap && HeapNeeded(Size(v), |s|) <= |heap| ==> ReadsBack(v, s, heap, buf))
            <==> |s| <= 1
  {
    if |s| <= 1 {
      forall heap | buf <= heap && HeapNeeded(Size(v), |s|) <= |heap|
        ensures ReadsBack(v, s, heap, buf)
      {
        OneClusterReadsBack(v, s, buf, heap);
      }
    } else {
      var heap := BadHeap(v, s, buf);
    }
  }

  /** The chain of a directory is the same after `write_dir`, so `parse_dir` reads the data of those clusters. */
  lemma ListingAfterWrite(v: Vol, r: Record, heap: seq<byte>)
    requires IsDirectory(r) && First(v, r) != 0 && Readable(v, First(v, r))
    requires HeapNeeded(Size(v), |Walk(Cells(v), First(v, r))|) <= |heap|
    ensures var s := Walk(Cells(v), First(v, r));
            var w := WriteClusters(v, s, heap, |s|);
            Readable(w, First(w, r)) && AllOnDisk(w, s) && Listing(w, r) == Some(Data(w, s))
  {
    var s := Walk(Cells(v), First(v, r));
    var w := WriteClusters(v, s, heap, |s|);
    ReadableAnyDisk(v, w.disk, First(v, r));
    ListingIs(w, r, s);
  }

  lemma OneClusterReadsBack(v: Vol, s: seq<nat>, buf: seq<byte>, heap: seq<byte>)
    requires Laid(v) && AreDataClusters(v, s) && AllOnDisk(v, s) && |s| <= 1
    requires |buf| == |s| * Size(v) && buf <= heap && HeapNeeded(Size(v), |s|) <= |heap|
    ensures ReadsBack(v, s, heap, buf)
  {
    var w := WriteClusters(v, s, heap, |s|);
    AllOnDiskAnyDisk(v, w.disk, s);
    if |s| == 1 {
      WriteOne(v, s, heap);
      assert Data(w, s) == Cluster(w, s[0]) + Data(w, s[1..]);
      assert heap[..Size(v)] == buf;
    }
  }

  /** The last cluster of a chain ends the chain's data. */
  lemma LastOfData(w: Vol, s: seq<nat>)
    requires s != [] && AllOnDisk(w, s)
    ensures s[|s| - 1] in s
    ensures Data(w, s)[LastAt(Size(w), |s|)..] == Cluster(w, s[|s| - 1])
  {
    var init, last := s[..|s| - 1], s[|s| - 1];
    assert s == init + [last];
    DataSplit(w, init, [last]);
    assert Data(w, [last]) == Cluster(w, last) + Data(w, []);
  }

  /** Where the last cluster of an `n`-cluster buffer starts. */
  function LastAt(size: nat, n: nat): (at: nat)
    requires n >= 1
    ensures at + size == n * size
  {
    assert n * size == (n - 1) * size + size;
    (n - 1) * size
  }

  /** Memory that differs from the buffer where the last cluster starts is not read back. */
  lemma NotReadBack(v: Vol, s: seq<nat>, heap: seq<byte>, buf: seq<byte>)
    requires Laid(v) && AreDataClusters(v, s) && AreDistinct(s) && AllOnDisk(v, s)
    requires |buf| == |s| * Size(v) && |s| >= 1 && HeapNeeded(Size(v), |s|) <= |heap|
    requires heap[Stride(Size(v), |s| - 1)] != buf[LastAt(Size(v), |s|)]
    ensures !ReadsBack(v, s, heap, buf)
  {
    var w := WriteClusters(v, s, heap, |s|);
    AllOnDiskAnyDisk(v, w.disk, s);
    WriteStrided(v, s, heap, |s|, w, |s| - 1);
    LastDiffers(w, s, buf);
  }

  lemma LastDiffers(w: Vol, s: seq<nat>, buf: seq<byte>)
    requires s != [] && AllOnDisk(w, s) && |buf| == |s| * Size(w) && 0 < Size(w)
    requires s[|s| - 1] in s && Cluster(w, s[|s| - 1])[0] != buf[LastAt(Size(w), |s|)]
    ensures Data(w, s) != buf
  {
    LastOfData(w, s);
    assert Data(w, s)[LastAt(Size(w), |s|)..][0] == Cluster(w, s[|s| - 1])[0];
  }

  /** Memory after the buffer that does not agree with the first byte of the last cluster. */
  lemma BadHeap(v: Vol, s: seq<nat>, buf: seq<byte>) returns (heap: seq<byte>)
    requires Laid(v) && AreDataClusters(v, s) && AreDistinct(s) && AllOnDisk(v, s)
    requires |buf| == |s| * Size(v) && |s| >= 2
    ensures buf <= heap && HeapNeeded(Size(v), |s|) <= |heap| && !ReadsBack(v, s, heap, buf)
  {
    var b: byte := if buf[LastAt(Size(v), |s|)] == 0 then 1 else 0;
    StridePastEnd(Size(v), |s|);
    heap := buf + seq(HeapNeeded(Size(v), |s|), _ => b);
    NotReadBack(v, s, heap, buf);
  }
}
