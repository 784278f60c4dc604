/**
 * The state of a mounted volume as a value, and what each operation of src/fs.c and
 * src/user.c computes on it. The class in Driver.dfy is proved against these functions.
 */
module Volumes {
  import opened Bytes
  import opened FatCells
  import opened Chains
  import opened Records
  import opened Paths
  import Offsets

  /** What the driver derives from the boot sector; sizes and positions are in bytes. */
  datatype Geometry = Geometry(
    kind: Kind,
    clusterSize: nat,
    tableStart: nat,
    tableBytes: nat,
    tableCount: nat,
    rootEntries: nat,
    rootCluster: uint32,
    rootSkip: nat,
    rootBytes: nat)

  datatype Vol = Vol(
    geo: Geometry,
    fat: seq<uint32>,
    bak: seq<uint32>,
    root: seq<byte>,
    rootCount: nat,
    dataOffset: nat,
    disk: seq<byte>)

  function Size(v: Vol): nat {
    v.geo.clusterSize
  }

  function Cells(v: Vol): (t: seq<Cell>)
    ensures |t| == |v.fat|
  {
    Table(v.geo.kind, v.fat)
  }

  /** First cluster of a record on this volume. */
  function First(v: Vol, r: Record): uint32 {
    FirstCluster(v.geo.kind, r)
  }

  // ----- clusters and chain data -----

  function Offset(v: Vol, c: nat): nat {
    v.dataOffset + Offsets.Position(Size(v), c)
  }

  predicate OnDisk(v: Vol, c: nat) {
    Offset(v, c) + Size(v) <= |v.disk|
  }

  function Cluster(v: Vol, c: nat): (b: seq<byte>)
    requires OnDisk(v, c)
    ensures |b| == Size(v)
  {
    v.disk[Offset(v, c)..Offset(v, c) + Size(v)]
  }

  predicate AllOnDisk(v: Vol, s: seq<nat>) {
    forall c :: c in s ==> OnDisk(v, c)
  }

  /** The clusters of a chain, one after the other. */
  function Data(v: Vol, s: seq<nat>): (b: seq<byte>)
    requires AllOnDisk(v, s)
    ensures |b| == |s| * Size(v)
  {
    if s == [] then [] else Cluster(v, s[0]) + Data(v, s[1..])
  }

  lemma {:induction false} DataSplit(v: Vol, a: seq<nat>, b: seq<nat>)
    requires AllOnDisk(v, a + b)
    ensures AllOnDisk(v, a) && AllOnDisk(v, b)
    ensures Data(v, a + b) == Data(v, a) + Data(v, b)
  {
    forall c | c in a || c in b
      ensures OnDisk(v, c)
    {
      assert c in a + b;
    }
    if a == [] {
      assert a + b == b;
    } else {
      assert (a + b)[1..] == a[1..] + b;
      DataSplit(v, a[1..], b);
    }
  }

  lemma DataSnoc(v: Vol, a: seq<nat>, c: nat)
    requires AllOnDisk(v, a) && OnDisk(v, c)
    ensures AllOnDisk(v, a + [c]) && Data(v, a + [c]) == Data(v, a) + Cluster(v, c)
  {
    DataSplit(v, a, [c]);
    assert Data(v, [c]) == Cluster(v, c) + Data(v, []);
  }

  /** The walk from `c` ends, inside the table and on the disk. */
  ghost predicate Readable(v: Vol, c: nat) {
    Walkable(Cells(v), c) && AllOnDisk(v, Walk(Cells(v), c))
  }

  /** The bytes of the chain starting at `c`. */
  ghost function Content(v: Vol, c: nat): seq<byte>
    requires Readable(v, c)
  {
    Data(v, Walk(Cells(v), c))
  }

  // ----- parse_dir and lookup -----

  /** What `parse_dir` returns: the buffer, or NULL for a non-directory and for an empty chain. */
  ghost function Listing(v: Vol, r: Record): Option<seq<byte>>
    requires IsDirectory(r) ==> Readable(v, First(v, r))
  {
    if !IsDirectory(r) || First(v, r) == 0 then None else Some(Content(v, First(v, r)))
  }

  lemma ListingIs(v: Vol, r: Record, s: seq<nat>)
    requires IsDirectory(r) && Readable(v, First(v, r)) && s == Walk(Cells(v), First(v, r))
    ensures Listing(v, r) == if s == [] then None else Some(Data(v, s))
  {
  }

  /** Result of `find`; `Undefined` when some directory's walk never ends or leaves the disk. */
  datatype Lookup = Found(rec: Record) | Missing | Undefined

  /** Lookup of a token list, one directory at a time, starting in the buffer `buf`. */
  ghost function Resolve(v: Vol, buf: seq<byte>, ts: seq<Token>): Lookup
    requires ts != []
    decreases |ts|, 0
  {
    match Search(buf, ts[0])
    case None => Missing
    case Some(i) => if |ts| == 1 then Found(Rec(buf, i)) else Enter(v, Rec(buf, i), ts[1..])
  }

  /** Lookup of the remaining tokens in the directory `r` names. */
  ghost function Enter(v: Vol, r: Record, ts: seq<Token>): Lookup
    requires ts != []
    decreases |ts|, 1
  {
    if !IsDirectory(r) then Missing
    else if !Readable(v, First(v, r)) then Undefined
    else if First(v, r) == 0 then Missing
    else Resolve(v, Content(v, First(v, r)), ts)
  }

  /** Lookup goes on in the directory that is found. */
  lemma EnterUnfold(v: Vol, buf: seq<byte>, ts: seq<Token>, r: Record)
    requires |ts| > 1 && Search(buf, ts[0]).Some? && r == Rec(buf, Search(buf, ts[0]).value)
    ensures Resolve(v, buf, ts) == Enter(v, r, ts[1..])
    ensures IsDirectory(r) && Readable(v, First(v, r)) && First(v, r) != 0 ==>
              Resolve(v, buf, ts) == Resolve(v, Content(v, First(v, r)), ts[1..])
    ensures !IsDirectory(r) || (Readable(v, First(v, r)) && First(v, r) == 0) ==> Resolve(v, buf, ts) == Missing
    ensures Resolve(v, buf, ts).Found? ==> IsDirectory(r) && Readable(v, First(v, r)) && First(v, r) != 0
  {
  }

  /** The last name, or a name that is not there. */
  lemma StopUnfold(v: Vol, buf: seq<byte>, ts: seq<Token>)
    requires ts != [] && (|ts| == 1 || Search(buf, ts[0]).None?)
    ensures Resolve(v, buf, ts) ==
            match Search(buf, ts[0]) case None => Missing case Some(i) => Found(Rec(buf, i))
  {
  }

  ghost function Find(v: Vol, path: seq<byte>): Lookup
    requires Tokens(path) != []
  {
    Resolve(v, v.root, Tokens(path))
  }

  /**
   * Lookup splits at the last token: find the parent, enter it, search it. In particular a
   * path that is found has a parent that is found, is a directory, and lists the record.
   */
  lemma {:induction false} ResolveSplit(v: Vol, buf: seq<byte>, ts: seq<Token>, x: Token)
    requires ts != []
    ensures Resolve(v, buf, ts + [x]) ==
            match Resolve(v, buf, ts)
            case Found(p) => Enter(v, p, [x])
            case other => other
    decreases |ts|
  {
    var all := ts + [x];
    assert all[0] == ts[0];
    match Search(buf, ts[0])
    case None =>
    case Some(i) =>
      var r := Rec(buf, i);
      if |ts| == 1 {
        assert all[1..] == [x];
      } else {
        assert all[1..] == ts[1..] + [x];
        if IsDirectory(r) && Readable(v, First(v, r)) && First(v, r) != 0 {
          ResolveSplit(v, Content(v, First(v, r)), ts[1..], x);
        }
      }
  }

  /** What `cd` passes to `find` has a name in it. */
  predicate Named(npath: seq<byte>) {
    npath != [SLASH] ==> Tokens(npath) != []
  }

  /** The current path after `cd path`. */
  ghost function NextPath(v: Vol, cwd: seq<byte>, path: Option<seq<byte>>): seq<byte>
    requires Named(Convert(cwd, path))
  {
    var npath := Convert(cwd, path);
    if npath == [SLASH] || (Find(v, npath).Found? && IsDirectory(Find(v, npath).rec)) then npath else cwd
  }

  // ----- write_dir -----

  /**
   * Byte position of `entries + index` after `n` clusters: the index grows by the cluster size
   * in bytes but counts records, so the position grows by 32 cluster sizes.
   */
  function Stride(size: nat, n: nat): nat {
    if n == 0 then 0 else Stride(size, n - 1) + RECORD * size
  }

  /** Bytes of memory, from the buffer on, that the loop reads for `n` clusters. */
  function HeapNeeded(size: nat, n: nat): nat {
    if n == 0 then 0 else Stride(size, n - 1) + size
  }

  lemma {:induction false} HeapNeededOrder(size: nat, m: nat, n: nat)
    requires m <= n
    ensures HeapNeeded(size, m) <= HeapNeeded(size, n)
  {
    if m < n {
      HeapNeededOrder(size, m, n - 1);
    }
  }

  lemma OnDiskAnyDisk(v: Vol, disk: seq<byte>, c: nat)
    requires |disk| == |v.disk|
    ensures OnDisk(v.(disk := disk), c) <==> OnDisk(v, c)
    ensures Offset(v.(disk := disk), c) == Offset(v, c)
  {
  }

  lemma AllOnDiskAnyDisk(v: Vol, disk: seq<byte>, s: seq<nat>)
    requires |disk| == |v.disk| && AllOnDisk(v, s)
    ensures AllOnDisk(v.(disk := disk), s)
  {
    forall c | c in s
      ensures OnDisk(v.(disk := disk), c)
    {
      OnDiskAnyDisk(v, disk, c);
    }
  }

  /** One cluster overwritten. */
  function Put(v: Vol, c: nat, data: seq<byte>): (v': Vol)
    requires OnDisk(v, c) && |data| == Size(v)
    ensures v' == v.(disk := v'.disk) && |v'.disk| == |v.disk|
    ensures OnDisk(v', c) && Cluster(v', c) == data
  {
    v.(disk := Splice(v.disk, Offset(v, c), data))
  }

  lemma PutTwice(v: Vol, c: nat, first: seq<byte>, second: seq<byte>)
    requires OnDisk(v, c) && |first| == |second| == Size(v)
    ensures Put(Put(v, c, first), c, second) == Put(v, c, second)
  {
    SpliceTwice(v.disk, Offset(v, c), first, second);
  }

  /** The memory that goes to cluster number `n`. */
  function Memory(size: nat, heap: seq<byte>, n: nat): (m: seq<byte>)
    requires Stride(size, n) + size <= |heap|
    ensures |m| == size
  {
    heap[Stride(size, n)..Stride(size, n) + size]
  }

  /** The loop of `write_dir` after `n` clusters of the chain `s`; `heap` is memory from the buffer on. */
  function WriteClusters(v: Vol, s: seq<nat>, heap: seq<byte>, n: nat): (v': Vol)
    requires n <= |s| && AllOnDisk(v, s) && HeapNeeded(Size(v), n) <= |heap|
    ensures v' == v.(disk := v'.disk) && |v'.disk| == |v.disk|
  {
    if n == 0 then v
    else
      HeapNeededOrder(Size(v), n - 1, n);
      assert s[n - 1] in s;
      var v1 := WriteClusters(v, s, heap, n - 1);
      OnDiskAnyDisk(v, v1.disk, s[n - 1]);
      Put(v1, s[n - 1], Memory(Size(v), heap, n - 1))
  }

  lemma WriteUnfold(v: Vol, s: seq<nat>, heap: seq<byte>, n: nat)
    requires n < |s| && AllOnDisk(v, s) && HeapNeeded(Size(v), n + 1) <= |heap|
    ensures HeapNeeded(Size(v), n) <= |heap| && Stride(Size(v), n) + Size(v) <= |heap|
    ensures OnDisk(WriteClusters(v, s, heap, n), s[n])
    ensures WriteClusters(v, s, heap, n + 1)
         == Put(WriteClusters(v, s, heap, n), s[n], Memory(Size(v), heap, n))
  {
    HeapNeededOrder(Size(v), n, n + 1);
    assert s[n] in s;
    OnDiskAnyDisk(v, WriteClusters(v, s, heap, n).disk, s[n]);
  }

  /** `write_dir` has written `n` clusters of `all`, which made the volume `w`, and stands at `cluster`. */
  ghost predicate Writing(v: Vol, all: seq<nat>, heap: seq<byte>, n: nat, cluster: nat, index: nat, w: Vol) {
    && n <= |all| && AllOnDisk(v, all) && HeapNeeded(Size(v), |all|) <= |heap|
    && HeapNeeded(Size(v), n) <= |heap| && RECORD * index == Stride(Size(v), n)
    && IsWalk(Cells(v), cluster, all[n..])
    && w == WriteClusters(v, all, heap, n)
  }

  lemma WritingStep(v: Vol, all: seq<nat>, heap: seq<byte>, n: nat, cluster: nat, index: nat, w: Vol) returns (w': Vol)
    requires Writing(v, all, heap, n, cluster, index, w) && cluster != 0
    ensures n < |all| && cluster < |w.fat| && OnDisk(w, cluster)
    ensures RECORD * index + Size(w) <= |heap| && Size(w) == Size(v)
    ensures w' == Put(w, cluster, heap[RECORD * index..RECORD * index + Size(w)])
    ensures Writing(v, all, heap, n + 1, Next(Cells(w), cluster), index + Size(v), w')
  {
    assert cluster == all[n..][0] == all[n] && all[n..][1..] == all[n + 1..];
    HeapNeededOrder(Size(v), n + 1, |all|);
    w' := WriteClusters(v, all, heap, n + 1);
    WriteUnfold(v, all, heap, n);
  }

  lemma WritingStart(v: Vol, all: seq<nat>, heap: seq<byte>, cluster: nat)
    requires AllOnDisk(v, all) && HeapNeeded(Size(v), |all|) <= |heap| && IsWalk(Cells(v), cluster, all)
    ensures Writing(v, all, heap, 0, cluster, 0, v)
  {
    assert all[0..] == all;
  }

  lemma WritingDone(v: Vol, all: seq<nat>, heap: seq<byte>, n: nat, index: nat, w: Vol)
    requires Writing(v, all, heap, n, 0, index, w)
    ensures w == WriteClusters(v, all, heap, |all|)
  {
    EmptyWalk(Cells(v), all[n..]);
  }

  lemma EmptyWalk(t: seq<Cell>, s: seq<nat>)
    requires IsWalk(t, 0, s)
    ensures s == []
  {
  }

  // ----- progress of the loop of parse_dir -----

  /** `parse_dir` has read the first `n` clusters of `all` and stands at `cluster`. */
  ghost predicate Reading(v: Vol, all: seq<nat>, n: nat, cluster: nat, entries: Option<seq<byte>>) {
    && n <= |all| && AllOnDisk(v, all)
    && IsWalk(Cells(v), cluster, all[n..])
    && AllOnDisk(v, all[..n])
    && entries == if n == 0 then None else Some(Data(v, all[..n]))
  }

  lemma ReadingStep(v: Vol, all: seq<nat>, n: nat, cluster: nat, entries: Option<seq<byte>>)
    requires Reading(v, all, n, cluster, entries) && cluster != 0
    ensures n < |all| && cluster < |v.fat| && OnDisk(v, cluster)
    ensures Reading(v, all, n + 1, Next(Cells(v), cluster),
                    Some((if entries.Some? then entries.value else []) + Cluster(v, cluster)))
  {
    assert all[n..][1..] == all[n + 1..];
    assert cluster == all[n..][0] == all[n];
    assert all[n] in all;
    assert all[..n + 1] == all[..n] + [cluster];
    DataSnoc(v, all[..n], cluster);
    assert n == 0 ==> Data(v, all[..n]) == [];
  }

  lemma ReadingDone(v: Vol, r: Record, n: nat, entries: Option<seq<byte>>)
    requires IsDirectory(r) && Readable(v, First(v, r))
    requires Reading(v, Walk(Cells(v), First(v, r)), n, 0, entries)
    ensures entries == Listing(v, r)
  {
    var all := Walk(Cells(v), First(v, r));
    assert all[..n] == all;
    ListingIs(v, r, all);
  }

  // ----- marking records -----

  /** The buffer after the marking loop has seen `n` records: those byte-equal to `e` have first byte `c`. */
  function MarkUpTo(buf: seq<byte>, e: Record, c: byte, n: nat): (r: seq<byte>)
    requires n <= Count(buf)
    ensures |r| == |buf|
  {
    seq(|buf|, k requires 0 <= k < |buf| => if k % 32 == 0 && k / 32 < n && Rec(buf, k / 32) == e then c else buf[k])
  }

  function Mark(buf: seq<byte>, e: Record, c: byte): (r: seq<byte>)
    ensures |r| == |buf|
  {
    MarkUpTo(buf, e, c, Count(buf))
  }

  lemma MarkUpToRec(buf: seq<byte>, e: Record, c: byte, n: nat, i: nat)
    requires i < Count(buf) && n <= Count(buf)
    ensures Rec(MarkUpTo(buf, e, c, n), i) == if i < n && Rec(buf, i) == e then Renamed(e, c) else Rec(buf, i)
  {
    var m := MarkUpTo(buf, e, c, n);
    assert m[32 * i] == (if i < n && Rec(buf, i) == e then c else Rec(buf, i)[0]) by {
      assert (32 * i) % 32 == 0 && (32 * i) / 32 == i;
    }
    forall k | 1 <= k < 32
      ensures m[32 * i + k] == Rec(buf, i)[k]
    {
      assert (32 * i + k) % 32 == k;
    }
  }

  lemma MarkRec(buf: seq<byte>, e: Record, c: byte, i: nat)
    requires i < Count(buf)
    ensures Rec(Mark(buf, e, c), i) == if Rec(buf, i) == e then Renamed(e, c) else Rec(buf, i)
  {
    MarkUpToRec(buf, e, c, Count(buf), i);
  }

  /** One turn of the marking loop. */
  lemma MarkStep(buf: seq<byte>, e: Record, c: byte, n: nat)
    requires n < Count(buf)
    ensures MarkUpTo(buf, e, c, n + 1)
         == if Rec(buf, n) == e then MarkUpTo(buf, e, c, n)[32 * n := c] else MarkUpTo(buf, e, c, n)
  {
    assert (32 * n) % 32 == 0 && (32 * n) / 32 == n;
  }

  predicate ListsUpTo(buf: seq<byte>, e: Record, n: nat)
    requires n <= Count(buf)
  {
    exists i: nat :: i < n && Rec(buf, i) == e
  }

  predicate Lists(buf: seq<byte>, e: Record) {
    ListsUpTo(buf, e, Count(buf))
  }

  lemma MarkNothing(buf: seq<byte>, e: Record, c: byte)
    requires !Lists(buf, e)
    ensures Mark(buf, e, c) == buf
  {
  }

  /** Marking the first records is marking the buffer's start. */
  lemma MarkPrefix(buf: seq<byte>, n: nat, e: Record, c: byte)
    requires n % 32 == 0 && n <= |buf|
    ensures Mark(buf, e, c)[..n] == Mark(buf[..n], e, c)
  {
    forall k | 0 <= k < n && k % 32 == 0
      ensures k / 32 < Count(buf[..n]) && Rec(buf[..n], k / 32) == Rec(buf, k / 32)
    {
      var j := k / 32;
      assert buf[..n][32 * j..32 * j + 32] == buf[32 * j..32 * j + 32];
    }
  }

  // ----- writing the marked buffer -----

  /** Only the disk bytes differ, so chains and what is readable are the same. */
  lemma ReadableAnyDisk(v: Vol, disk: seq<byte>, c: nat)
    requires Readable(v, c) && |disk| == |v.disk|
    ensures Readable(v.(disk := disk), c) && Walk(Cells(v.(disk := disk)), c) == Walk(Cells(v), c)
  {
    assert forall x :: OnDisk(v, x) ==> OnDisk(v.(disk := disk), x);
  }

  /** Writing a directory of one cluster twice is writing it the second time. */
  lemma WriteTwice(v: Vol, s: seq<nat>, first: seq<byte>, second: seq<byte>)
    requires |s| <= 1 && AllOnDisk(v, s)
    requires HeapNeeded(Size(v), |s|) <= |first| && HeapNeeded(Size(v), |s|) <= |second|
    ensures AllOnDisk(WriteClusters(v, s, first, |s|), s)
    ensures WriteClusters(WriteClusters(v, s, first, |s|), s, second, |s|) == WriteClusters(v, s, second, |s|)
  {
    if s == [] {
      WriteNone(v, first);
      WriteNone(v, second);
    } else {
      Single(s);
      WriteTwiceOne(v, s[0], first, second);
    }
  }

  lemma Single<T>(s: seq<T>)
    requires |s| == 1
    ensures s == [s[0]]
  {
  }

  lemma WriteNone(v: Vol, heap: seq<byte>)
    ensures HeapNeeded(Size(v), 0) == 0 && WriteClusters(v, [], heap, 0) == v
  {
  }

  lemma WriteTwiceOne(v: Vol, c: nat, first: seq<byte>, second: seq<byte>)
    requires OnDisk(v, c) && Size(v) <= |first| && Size(v) <= |second|
    ensures HeapNeeded(Size(v), 1) == Size(v)
    ensures var v1 := WriteClusters(v, [c], first, 1);
            AllOnDisk(v1, [c]) && WriteClusters(v1, [c], second, 1) == WriteClusters(v, [c], second, 1)
  {
    WriteOne(v, [c], first);
    WriteOne(v, [c], second);
    var v1 := Put(v, c, first[..Size(v)]);
    assert AllOnDisk(v1, [c]);
    WriteOne(v1, [c], second);
    PutTwice(v, c, first[..Size(v)], second[..Size(v)]);
  }

  lemma WriteOne(v: Vol, s: seq<nat>, heap: seq<byte>)
    requires |s| == 1 && AllOnDisk(v, s) && HeapNeeded(Size(v), 1) <= |heap|
    ensures OnDisk(v, s[0]) && Size(v) <= |heap|
    ensures WriteClusters(v, s, heap, 1) == Put(v, s[0], heap[..Size(v)])
  {
    assert s[0] in s;
    assert Stride(Size(v), 0) == 0;
    assert WriteClusters(v, s, heap, 0) == v;
  }

  /** Writing the marked listing of `dir`, whose chain is `s`, stays within the buffer. */
  ghost predicate CanWrite(v: Vol, dir: Record, s: seq<nat>, buf: seq<byte>) {
    && IsDirectory(dir) && Readable(v, First(v, dir)) && s == Walk(Cells(v), First(v, dir))
    && |s| <= 1 && HeapNeeded(Size(v), |s|) <= |buf|
  }

  /** The volume after the marking loop has seen `n` records of the folder of directory `s`. */
  function Marked(v: Vol, s: seq<nat>, buf: seq<byte>, e: Record, c: byte, n: nat): Vol
    requires n <= Count(buf) && |s| <= 1 && AllOnDisk(v, s) && HeapNeeded(Size(v), |s|) <= |buf|
  {
    if ListsUpTo(buf, e, n) then WriteClusters(v, s, MarkUpTo(buf, e, c, n), |s|) else v
  }

  // ----- delete and undelete -----

  /** Both tables after delete's loop from `c`: zero at exactly the clusters reached. */
  ghost function Release(v: Vol, c: nat): Vol {
    v.(fat := Zeroed(v.fat, Cells(v), c), bak := Zeroed(v.bak, Cells(v), c))
  }

  ghost function Zeroed(fat: seq<uint32>, t: seq<Cell>, c: nat): (r: seq<uint32>)
    ensures |r| == |fat|
    ensures forall i :: 0 <= i < |fat| ==> r[i] == if Reached(t, c, i) then 0 else fat[i]
  {
    seq(|fat|, i requires 0 <= i < |fat| => if Reached(t, c, i) then 0 else fat[i])
  }

  /** A table with the entries of `z` zeroed. */
  ghost function Blank(fat: seq<uint32>, z: set<nat>): (r: seq<uint32>)
    ensures |r| == |fat|
    ensures forall i :: 0 <= i < |fat| ==> r[i] == if i in z then 0 else fat[i]
  {
    seq(|fat|, i requires 0 <= i < |fat| => if i in z then 0 else fat[i])
  }

  lemma BlankStep(fat: seq<uint32>, z: set<nat>, x: nat)
    requires x < |fat|
    ensures Blank(fat, z)[x := 0] == Blank(fat, z + {x})
  {
  }

  /** Delete's loop has zeroed `z` in both tables and stands at `cluster`. */
  ghost predicate Freeing(t: seq<Cell>, c: nat, fat0: seq<uint32>, bak0: seq<uint32>, z: set<nat>, cluster: nat,
                          fat: seq<uint32>, bak: seq<uint32>)
  {
    && Follows(t, c, z, cluster) && InRange(t, c)
    && |fat0| == |bak0| == |t|
    && fat == Blank(fat0, z) && bak == Blank(bak0, z)
  }

  lemma FreeingStart(t: seq<Cell>, c: nat, fat0: seq<uint32>, bak0: seq<uint32>)
    requires InRange(t, c) && |fat0| == |bak0| == |t|
    ensures Freeing(t, c, fat0, bak0, {}, c, fat0, bak0)
  {
    FollowStart(t, c);
  }

  lemma FreeingStep(kind: Kind, t: seq<Cell>, c: nat, fat0: seq<uint32>, bak0: seq<uint32>, z: set<nat>, cluster: nat,
                    fat: seq<uint32>, bak: seq<uint32>)
    requires Freeing(t, c, fat0, bak0, z, cluster, fat, bak) && cluster != 0
    requires t == Table(kind, fat0)
    ensures cluster < |fat| == |bak|
    ensures Freeing(t, c, fat0, bak0, z + {cluster}, Link(kind, fat[cluster]), fat[cluster := 0], bak[cluster := 0])
    ensures |z + {cluster}| <= |fat|
    ensures |z + {cluster}| == |z| + 1 || (z + {cluster} == z && Link(kind, fat[cluster]) == 0)
  {
    FollowStep(t, c, z, cluster);
    LinkIsNext(kind, fat0, cluster);
    BlankStep(fat0, z, cluster);
    BlankStep(bak0, z, cluster);
  }

  lemma FreeingDone(t: seq<Cell>, c: nat, fat0: seq<uint32>, bak0: seq<uint32>, z: set<nat>,
                    fat: seq<uint32>, bak: seq<uint32>)
    requires Freeing(t, c, fat0, bak0, z, 0, fat, bak)
    ensures fat == Zeroed(fat0, t, c) && bak == Zeroed(bak0, t, c)
  {
    FollowDone(t, c, z);
  }

  /** Both tables after undelete's `change_cluster(c, 0x0FFFFFFF)`. */
  function Claim(v: Vol, c: uint32): Vol
    requires Index(v.geo.kind, c) < |v.fat| == |v.bak|
  {
    var i, raw := Index(v.geo.kind, c), Truncate(v.geo.kind, EOC);
    v.(fat := v.fat[i := raw], bak := v.bak[i := raw])
  }

  /** Where the parent's records are: the root buffer, or the directory a lookup found. */
  datatype Parent = RootDir | SubDir(dir: Record) | NoParent

  ghost predicate ParentKnown(v: Vol, pn: seq<byte>) {
    pn == [SLASH] || (Tokens(pn) != [] && Find(v, pn) != Undefined)
  }

  ghost function FindParent(v: Vol, pn: seq<byte>): Parent
    requires ParentKnown(v, pn)
  {
    if pn == [SLASH] then RootDir
    else match Find(v, pn)
      case Found(p) => SubDir(p)
      case _ => NoParent
  }

  /** The buffer the marking loop scans. */
  ghost function Folder(v: Vol, p: Parent): seq<byte>
    requires p.SubDir? && IsDirectory(p.dir) ==> Readable(v, First(v, p.dir))
  {
    match p
    case RootDir => v.root
    case SubDir(dir) => (match Listing(v, dir) case Some(b) => b case None => [])
    case NoParent => []
  }

  /**
   * The marking loop on the tables of `v1`: memory-safe when the parent chain, read through the
   * tables as they are by now, has at most one cluster (or nothing is written at all).
   */
  ghost predicate MarkDefined(v: Vol, v1: Vol, p: Parent, e: Record) {
    && !p.NoParent?
    && (p.SubDir? && IsDirectory(p.dir) ==> Readable(v, First(v, p.dir)))
    && (p.SubDir? && Lists(Folder(v, p), e) ==>
          Readable(v1, First(v1, p.dir)) && |Walk(Cells(v1), First(v1, p.dir))| <= 1)
  }

  ghost function MarkParent(v: Vol, v1: Vol, p: Parent, e: Record, c: byte): Vol
    requires v1.geo == v.geo && v1.disk == v.disk && v1.dataOffset == v.dataOffset
    requires |v1.fat| == |v.fat|
    requires MarkDefined(v, v1, p, e)
  {
    var folder := Folder(v, p);
    if p.RootDir? then v1.(root := Mark(folder, e, c))
    else if !Lists(folder, e) then v1
    else
      FolderCovers(v, v1, p);
      Marked(v1, Walk(Cells(v1), First(v1, p.dir)), folder, e, c, Count(folder))
  }

  /** A directory that lists something was read from at least one cluster. */
  lemma FolderCovers(v: Vol, v1: Vol, p: Parent)
    requires v1.geo == v.geo && p.SubDir?
    requires IsDirectory(p.dir) ==> Readable(v, First(v, p.dir))
    requires Readable(v1, First(v1, p.dir)) && |Walk(Cells(v1), First(v1, p.dir))| <= 1
    requires |Folder(v, p)| > 0
    ensures IsDirectory(p.dir) && First(v, p.dir) != 0
    ensures HeapNeeded(Size(v1), |Walk(Cells(v1), First(v1, p.dir))|) <= |Folder(v, p)|
  {
    var s := Walk(Cells(v), First(v, p.dir));
    assert |Folder(v, p)| == |s| * Size(v);
    Offsets.MulAtMost(Size(v), 1, |s|);
  }

  /** No step of `delete` on the absolute path `path` leaves a table, the heap or the disk, or never ends. */
  ghost predicate DeleteDefined(v: Vol, path: seq<byte>) {
    && |v.bak| == |v.fat|
    && path != [] && Tokens(path) != [] && Find(v, path) != Undefined
    && ParentKnown(v, ParentPath(path))
    && var p := FindParent(v, ParentPath(path));
    && !p.NoParent?
    && (p.SubDir? && IsDirectory(p.dir) ==> Readable(v, First(v, p.dir)))
    && (Find(v, path).Found? ==>
          var e := Find(v, path).rec;
          InRange(Cells(v), First(v, e)) && MarkDefined(v, Release(v, First(v, e)), p, e))
  }

  ghost function Delete(v: Vol, path: seq<byte>): Vol
    requires DeleteDefined(v, path)
  {
    match Find(v, path)
    case Found(e) =>
      MarkParent(v, Release(v, First(v, e)), FindParent(v, ParentPath(path)), e, DELETED)
    case _ => v
  }

  ghost predicate UndeleteDefined(v: Vol, path: seq<byte>) {
    && |v.bak| == |v.fat|
    && path != [] && Tokens(path) != [] && Find(v, path) != Undefined
    && (Find(v, path).Found? ==>
          var e := Find(v, path).rec;
          && ParentKnown(v, ParentPath(path))
          && Index(v.geo.kind, First(v, e)) < |v.fat|
          && MarkDefined(v, Claim(v, First(v, e)), FindParent(v, ParentPath(path)), e))
  }

  ghost function Undelete(v: Vol, path: seq<byte>, c: byte): Vol
    requires UndeleteDefined(v, path)
  {
    match Find(v, path)
    case Found(e) =>
      MarkParent(v, Claim(v, First(v, e)), FindParent(v, ParentPath(path)), e, c)
    case _ => v
  }

  // ----- the two tables -----

  lemma MarkKeepsTables(v: Vol, v1: Vol, p: Parent, e: Record, c: byte)
    requires v1.geo == v.geo && v1.disk == v.disk && v1.dataOffset == v.dataOffset
    requires |v1.fat| == |v.fat| && MarkDefined(v, v1, p, e)
    ensures var w := MarkParent(v, v1, p, e, c); w == v1.(root := w.root, disk := w.disk)
  {
  }

  /** Delete of a file that is found zeroes, in both tables, the entries its chain reaches; no other entry changes. */
  lemma DeleteTables(v: Vol, path: seq<byte>, e: Record)
    requires DeleteDefined(v, path) && Find(v, path) == Found(e)
    ensures var w := Delete(v, path);
            && w.geo == v.geo && |w.fat| == |v.fat| == |w.bak|
            && (forall i :: 0 <= i < |v.fat| ==> w.fat[i] == if Reached(Cells(v), First(v, e), i) then 0 else v.fat[i])
            && (forall i :: 0 <= i < |v.fat| ==> w.bak[i] == if Reached(Cells(v), First(v, e), i) then 0 else v.bak[i])
  {
    MarkKeepsTables(v, Release(v, First(v, e)), FindParent(v, ParentPath(path)), e, DELETED);
  }

  /**
   * Undelete of a file that is found stores the end mark, cut to the width of an entry, at its first
   * cluster in both tables; no other entry changes.
   */
  lemma UndeleteTables(v: Vol, path: seq<byte>, e: Record, c: byte)
    requires UndeleteDefined(v, path) && Find(v, path) == Found(e)
    ensures First(v, e) < |v.fat| == |v.bak| && Undelete(v, path, c).geo == v.geo
    ensures Undelete(v, path, c).fat == v.fat[First(v, e) := EndMark(v.geo.kind)]
    ensures Undelete(v, path, c).bak == v.bak[First(v, e) := EndMark(v.geo.kind)]
  {
    FirstIsIndex(v, e);
    MarkKeepsTables(v, Claim(v, First(v, e)), FindParent(v, ParentPath(path)), e, c);
  }

  /** The 32-bit end mark, cut to 16 bits on FAT16. */
  function EndMark(kind: Kind): uint32 {
    if kind == Fat16 then 0xFFFF else 0x0FFF_FFFF
  }

  lemma FirstIsIndex(v: Vol, e: Record)
    ensures Index(v.geo.kind, First(v, e)) == First(v, e) && Truncate(v.geo.kind, EOC) == EndMark(v.geo.kind)
  {
  }

  /** A mirror that is equal to the table stays equal. */
  lemma DeleteKeepsMirror(v: Vol, path: seq<byte>)
    requires DeleteDefined(v, path) && v.bak == v.fat
    ensures Delete(v, path).bak == Delete(v, path).fat && Delete(v, path).geo == v.geo
  {
    if Find(v, path).Found? {
      DeleteTables(v, path, Find(v, path).rec);
    }
  }

  lemma UndeleteKeepsMirror(v: Vol, path: seq<byte>, c: byte)
    requires UndeleteDefined(v, path) && v.bak == v.fat
    ensures Undelete(v, path, c).bak == Undelete(v, path, c).fat && Undelete(v, path, c).geo == v.geo
  {
    if Find(v, path).Found? {
      var e := Find(v, path).rec;
      MarkKeepsTables(v, Claim(v, First(v, e)), FindParent(v, ParentPath(path)), e, c);
    }
  }
}
