/**
 * The volume on disk: `init_fat` reads the boot sector, the table, its mirror and the root
 * directory; `write_fat` writes every copy of the table and the root directory back
 * (src/FAT.c, src/FAT16.c, src/FAT32.c).
 */
module Layout {
  import opened Bytes
  import opened FatCells
  import opened Records
  import opened Volumes
  import Offsets

  // ----- tables as bytes -----

  function Width(kind: Kind): nat {
    if kind == Fat16 then 2 else 4
  }

  /** Bytes of a table of `n` entries. */
  function BytesFor(kind: Kind, n: nat): nat {
    if kind == Fat16 then 2 * n else 4 * n
  }

  /** Whole entries in `n` bytes. */
  function EntriesIn(kind: Kind, n: nat): nat {
    if kind == Fat16 then n / 2 else n / 4
  }

  function Entry(kind: Kind, b: seq<byte>): uint32
    requires |b| == Width(kind)
  {
    if kind == Fat16 then Le16(b) else Le32(b)
  }

  function EntryBytes(kind: Kind, n: uint32): (b: seq<byte>)
    ensures |b| == Width(kind)
  {
    if kind == Fat16 then [n % 0x100, n / 0x100 % 0x100]
    else [n % 0x100, n / 0x100 % 0x100, n / 0x1_0000 % 0x100, n / 0x100_0000 % 0x100]
  }

  function DecodeTable(kind: Kind, b: seq<byte>): (fat: seq<uint32>)
    ensures |fat| == EntriesIn(kind, |b|)
    ensures forall i :: 0 <= i < |fat| ==> Fits(kind, fat[i])
    decreases |b|
  {
    var w := Width(kind);
    if |b| < w then [] else [Entry(kind, b[..w])] + DecodeTable(kind, b[w..])
  }

  function EncodeTable(kind: Kind, fat: seq<uint32>): (b: seq<byte>)
    ensures |b| == BytesFor(kind, |fat|)
  {
    if fat == [] then [] else EntryBytes(kind, fat[0]) + EncodeTable(kind, fat[1..])
  }

  lemma EntryRoundTrip(kind: Kind, n: uint32)
    requires Fits(kind, n)
    ensures Entry(kind, EntryBytes(kind, n)) == n
  {
    MiddleDigits(n);
    LastDigit(n);
  }

  lemma MiddleDigits(n: int)
    ensures n / 0x100 == n / 0x100 % 0x100 + 0x100 * (n / 0x1_0000)
    ensures n / 0x1_0000 == n / 0x1_0000 % 0x100 + 0x100 * (n / 0x100_0000)
  {
  }

  lemma LastDigit(n: int)
    requires 0 <= n < WORD
    ensures n / 0x100_0000 % 0x100 == n / 0x100_0000
  {
  }

  /** The head and the rest of an encoded table. */
  lemma EncodeHead(kind: Kind, fat: seq<uint32>)
    requires fat != []
    ensures EncodeTable(kind, fat)[..Width(kind)] == EntryBytes(kind, fat[0])
    ensures EncodeTable(kind, fat)[Width(kind)..] == EncodeTable(kind, fat[1..])
  {
  }

  lemma {:induction false} TableRoundTrip(kind: Kind, fat: seq<uint32>)
    requires forall i :: 0 <= i < |fat| ==> Fits(kind, fat[i])
    ensures DecodeTable(kind, EncodeTable(kind, fat)) == fat
  {
    if fat != [] {
      EntryRoundTrip(kind, fat[0]);
      EncodeHead(kind, fat);
      TableRoundTrip(kind, fat[1..]);
    }
  }

  // ----- geometry -----

  const BOOT: nat := 512

  /** The product of two header fields, as a running sum. */
  function Times(a: nat, b: nat): nat {
    if b == 0 then 0 else Times(a, b - 1) + a
  }

  lemma {:induction false} TimesIs(a: nat, b: nat)
    ensures Times(a, b) == a * b
  {
    if b != 0 {
      TimesIs(a, b - 1);
      assert a * b == a * (b - 1) + a;
    }
  }

  /**
   * What the driver derives from the boot sector; FAT32 when the 16-bit sector total is 0.
   * The root directory follows the tables on FAT16, and lies in the root cluster on FAT32.
   */
  function ReadBoot(disk: seq<byte>): Geometry
    requires |disk| >= BOOT
  {
    var kind := if Le16(disk[19..21]) == 0 then Fat32 else Fat16;
    var sector := Le16(disk[11..13]);
    var rootEntries := Le16(disk[17..19]);
    var rootCluster := Le32(disk[44..48]);
    var clusterSize := Times(sector, disk[13]);
    Geometry(
      kind,
      clusterSize,
      Times(Le16(disk[14..16]), sector),
      Times(sector, if kind == Fat16 then Le16(disk[22..24]) else Le32(disk[36..40])),
      disk[16],
      rootEntries,
      rootCluster,
      if kind == Fat16 then 0 else Offsets.Position(clusterSize, rootCluster),
      if kind == Fat16 then 32 * rootEntries else clusterSize)
  }

  /** Number of copies `init_fat` steps over: it always reads two. */
  function CopiesRead(g: Geometry): nat {
    if g.tableCount > 2 then g.tableCount else 2
  }

  /** Position after `copies` copies of the table. */
  function After(g: Geometry, copies: nat): (p: nat)
    ensures p >= g.tableStart
  {
    if copies == 0 then g.tableStart else After(g, copies - 1) + g.tableBytes
  }

  lemma {:induction false} AfterIs(g: Geometry, copies: nat)
    ensures After(g, copies) == g.tableStart + copies * g.tableBytes
  {
    if copies != 0 {
      AfterIs(g, copies - 1);
      assert copies * g.tableBytes == (copies - 1) * g.tableBytes + g.tableBytes;
    }
  }

  lemma AfterOrder(g: Geometry, a: nat, b: nat)
    requires a <= b
    ensures After(g, a) <= After(g, b)
  {
  }

  /** Where the root directory is when it follows `copies` copies of the table. */
  function RootAt(g: Geometry, copies: nat): nat {
    After(g, copies) + g.rootSkip
  }

  function DataStart(g: Geometry): nat {
    After(g, CopiesRead(g)) + if g.kind == Fat16 then g.rootBytes else 0
  }

  /**
   * Geometry the driver can work with: whole records per cluster, whole entries per table,
   * 32-bit products that do not wrap, and (FAT32) no fixed root entries.
   */
  predicate Sound(g: Geometry) {
    && BOOT <= g.tableStart
    && g.clusterSize % 32 == 0 && 0 < g.clusterSize / 32 < 0x1_0000
    && 0 < g.tableBytes == BytesFor(g.kind, EntriesIn(g.kind, g.tableBytes))
    && After(g, CopiesRead(g)) < g.tableStart + WORD
    && g.rootBytes % 32 == 0
    && (g.kind == Fat32 ==> g.rootEntries == 0)
  }

  /** On FAT32 the root loop runs exactly once: the root chain is the root cluster alone. */
  predicate RootIsOneCluster(g: Geometry, fat: seq<uint32>) {
    g.kind == Fat32 ==> 2 <= g.rootCluster < |fat| && Link(Fat32, fat[g.rootCluster]) == 0
  }

  /**
   * The loop over the FAT32 root chain, `n` turns from `cluster`: every transfer stays inside the
   * buffer of one cluster. The index grows by the cluster size in bytes but counts records.
   */
  ghost predicate RootInside(t: seq<Cell>, cluster: nat, index: nat, size: nat, n: nat)
    decreases n
  {
    n == 0 || cluster == 0
    || (cluster < |t| && RECORD * index + size <= size && RootInside(t, Next(t, cluster), index + size, size, n - 1))
  }

  ghost predicate RootStaysInside(t: seq<Cell>, root: nat, size: nat) {
    forall n: nat :: RootInside(t, root, 0, size, n)
  }

  /** The root is read and written inside its buffer exactly when its chain has at most one cluster. */
  lemma RootInsideIff(t: seq<Cell>, root: nat, size: nat)
    requires root < |t| && 0 < size
    ensures RootStaysInside(t, root, size) <==> root == 0 || Next(t, root) == 0
  {
    if root == 0 || Next(t, root) == 0 {
      forall n: nat
        ensures RootInside(t, root, 0, size, n)
      {
      }
    } else {
      assert !RootInside(t, Next(t, root), 0 + size, size, 1);
      assert !RootInside(t, root, 0, size, 2);
    }
  }

  /** So on FAT32 the geometry the driver can work with is the one for which that holds. */
  lemma RootIsOneClusterIff(g: Geometry, fat: seq<uint32>)
    requires g.kind == Fat32 && 2 <= g.rootCluster < |fat| && 0 < g.clusterSize
    ensures RootIsOneCluster(g, fat) <==> RootStaysInside(Table(Fat32, fat), g.rootCluster, g.clusterSize)
  {
    RootInsideIff(Table(Fat32, fat), g.rootCluster, g.clusterSize);
    LinkIsNext(Fat32, fat, g.rootCluster);
  }

  /** Where `ReadBoot` puts the root directory, and its size. */
  predicate RootPlaced(g: Geometry) {
    && g.rootSkip == (if g.kind == Fat16 then 0 else Offsets.Position(g.clusterSize, g.rootCluster))
    && g.rootBytes == if g.kind == Fat16 then 32 * g.rootEntries else g.clusterSize
  }

  /** The relative seek over the copies that are not read. */
  lemma Skip(g: Geometry)
    requires Sound(g) && g.tableCount > 2
    ensures After(g, 2) + (g.tableCount - 2) * g.tableBytes % WORD == After(g, g.tableCount)
  {
    assert g.tableCount * g.tableBytes == 2 * g.tableBytes + (g.tableCount - 2) * g.tableBytes;
    AfterIs(g, 2);
    AfterIs(g, g.tableCount);
  }

  /** A disk that `init_fat` can read with geometry `g`. */
  predicate Holds(g: Geometry, disk: seq<byte>) {
    && Sound(g)
    && After(g, CopiesRead(g)) + g.rootSkip + g.rootBytes <= |disk|
    && (AfterOrder(g, 1, CopiesRead(g));
        RootIsOneCluster(g, DecodeTable(g.kind, disk[g.tableStart..After(g, 1)])))
  }

  /** What `init_fat` builds once the boot sector is known. */
  function Load(g: Geometry, disk: seq<byte>): Vol
    requires Holds(g, disk)
  {
    AfterOrder(g, 2, CopiesRead(g));
    var rootAt := RootAt(g, CopiesRead(g));
    Vol(g,
        DecodeTable(g.kind, disk[g.tableStart..After(g, 1)]),
        DecodeTable(g.kind, disk[After(g, 1)..After(g, 2)]),
        disk[rootAt..rootAt + g.rootBytes],
        g.rootBytes / 32,
        DataStart(g),
        disk)
  }

  lemma LoadSizes(g: Geometry, disk: seq<byte>)
    requires Holds(g, disk)
    ensures var v := Load(g, disk);
            |v.fat| == |v.bak| && |v.root| == 32 * v.rootCount
            && forall i :: 0 <= i < |v.fat| ==> Fits(g.kind, v.fat[i])
  {
    assert After(g, 1) == g.tableStart + g.tableBytes && After(g, 2) == After(g, 1) + g.tableBytes;
    AfterOrder(g, 2, CopiesRead(g));
    assert |disk[g.tableStart..After(g, 1)]| == |disk[After(g, 1)..After(g, 2)]|;
  }

  /** The tables, from the bytes of the first two copies. */
  lemma LoadTables(g: Geometry, disk: seq<byte>, table: seq<byte>, mirror: seq<byte>)
    requires Holds(g, disk) && After(g, 1) <= After(g, 2) <= |disk|
    requires table == disk[g.tableStart..After(g, 1)] && mirror == disk[After(g, 1)..After(g, 2)]
    ensures Load(g, disk).fat == DecodeTable(g.kind, table) && Load(g, disk).bak == DecodeTable(g.kind, mirror)
  {
  }

  /** The root directory, from its bytes. */
  lemma LoadRoot(g: Geometry, disk: seq<byte>, root: seq<byte>)
    requires Holds(g, disk)
    requires root == disk[RootAt(g, CopiesRead(g))..RootAt(g, CopiesRead(g)) + g.rootBytes]
    ensures Load(g, disk).root == root && Load(g, disk).rootCount == g.rootBytes / 32
  {
  }

  predicate Mountable(disk: seq<byte>) {
    |disk| >= BOOT && Holds(ReadBoot(disk), disk)
  }

  /** The state `init_fat` builds from the disk. */
  function Mount(disk: seq<byte>): Vol
    requires Mountable(disk)
  {
    Load(ReadBoot(disk), disk)
  }

  lemma MountParts(disk: seq<byte>, g: Geometry, fat: seq<uint32>, bak: seq<uint32>, root: seq<byte>, count: nat,
                   offset: nat)
    requires Mountable(disk) && g == ReadBoot(disk) && offset == DataStart(g)
    requires var v := Load(g, disk); v.fat == fat && v.bak == bak && v.root == root && v.rootCount == count
    ensures Vol(g, fat, bak, root, count, offset, disk) == Mount(disk)
  {
  }

  // ----- write_fat -----

  /** `copies` consecutive writes of a table, starting where the tables start. */
  function WriteCopies(g: Geometry, disk: seq<byte>, table: seq<byte>, copies: nat): (r: seq<byte>)
    requires |table| == g.tableBytes && After(g, copies) <= |disk|
    ensures |r| == |disk|
  {
    if copies == 0 then disk
    else Splice(WriteCopies(g, disk, table, copies - 1), After(g, copies - 1), table)
  }

  lemma CopyStep(g: Geometry, disk: seq<byte>, table: seq<byte>, copies: nat)
    requires |table| == g.tableBytes && After(g, copies + 1) <= |disk|
    ensures After(g, copies + 1) == After(g, copies) + g.tableBytes
    ensures WriteCopies(g, disk, table, copies + 1)
         == Splice(WriteCopies(g, disk, table, copies), After(g, copies), table)
  {
  }

  /** The disk holds `table` as copy number `j`. */
  predicate HasCopy(g: Geometry, disk: seq<byte>, table: seq<byte>, j: nat) {
    After(g, j) + |table| <= |disk| && disk[After(g, j)..After(g, j) + |table|] == table
  }

  /** Every copy reads back, and nothing else changes. */
  lemma {:induction false} CopiesReadBack(g: Geometry, disk: seq<byte>, table: seq<byte>, copies: nat)
    requires |table| == g.tableBytes && After(g, copies) <= |disk|
    ensures forall i :: 0 <= i < |disk| && !(g.tableStart <= i < After(g, copies)) ==>
              WriteCopies(g, disk, table, copies)[i] == disk[i]
    ensures forall j: nat :: j < copies ==> HasCopy(g, WriteCopies(g, disk, table, copies), table, j)
  {
    if copies != 0 {
      CopiesReadBack(g, disk, table, copies - 1);
      var before := WriteCopies(g, disk, table, copies - 1);
      forall j: nat | j < copies - 1
        ensures HasCopy(g, WriteCopies(g, disk, table, copies), table, j)
      {
        assert HasCopy(g, before, table, j);
        AfterOrder(g, j + 1, copies - 1);
        SpliceApart(before, After(g, copies - 1), table, After(g, j), After(g, j) + |table|);
      }
    }
  }

  /** Sizes and positions of a mounted volume. */
  predicate Shaped(v: Vol) {
    && Sound(v.geo)
    && |v.fat| == |v.bak| == EntriesIn(v.geo.kind, v.geo.tableBytes)
    && (forall i :: 0 <= i < |v.fat| ==> Fits(v.geo.kind, v.fat[i]))
    && |v.root| == v.geo.rootBytes
    && v.rootCount == v.geo.rootBytes / 32
    && v.dataOffset == DataStart(v.geo)
    && RootIsOneCluster(v.geo, v.fat)
    && After(v.geo, CopiesRead(v.geo)) + v.geo.rootSkip + v.geo.rootBytes <= |v.disk|
  }

  /** A volume as `init_fat` leaves it, and as delete and undelete keep it. */
  predicate Mounted(v: Vol) {
    Shaped(v) && |v.disk| >= BOOT && v.geo == ReadBoot(v.disk)
  }

  lemma SyncFits(v: Vol)
    requires Shaped(v)
    ensures |EncodeTable(v.geo.kind, v.fat)| == v.geo.tableBytes
    ensures After(v.geo, v.geo.tableCount) <= After(v.geo, CopiesRead(v.geo))
    ensures RootAt(v.geo, v.geo.tableCount) + v.geo.rootBytes <= |v.disk|
  {
    AfterOrder(v.geo, v.geo.tableCount, CopiesRead(v.geo));
  }

  function SyncDisk(v: Vol): (d: seq<byte>)
    requires Shaped(v)
    ensures |d| == |v.disk|
  {
    SyncFits(v);
    var g := v.geo;
    Splice(WriteCopies(g, v.disk, EncodeTable(g.kind, v.fat), g.tableCount), RootAt(g, g.tableCount), v.root)
  }

  /** The volume after `write_fat`: the mirror refreshed, the FAT32 root count increased again. */
  function Sync(v: Vol): Vol
    requires Shaped(v)
  {
    Vol(v.geo, v.fat, v.fat, v.root, SyncCount(v.geo, v.rootCount), v.dataOffset, SyncDisk(v))
  }

  /** The root count after `write_fat`: on FAT32 it has grown. */
  function SyncCount(g: Geometry, count: nat): nat {
    if g.kind == Fat16 then count else (count + g.clusterSize / 32) % 0x1_0000
  }

  /** The disk after both writes, from the disk `mid` between them. */
  lemma SyncDiskIs(v: Vol, table: seq<byte>, mid: seq<byte>, root: seq<byte>, disk: seq<byte>)
    requires Shaped(v) && After(v.geo, v.geo.tableCount) <= |v.disk|
    requires table == EncodeTable(v.geo.kind, v.fat) && |table| == v.geo.tableBytes
    requires mid == WriteCopies(v.geo, v.disk, table, v.geo.tableCount)
    requires root == v.root && RootAt(v.geo, v.geo.tableCount) + |root| <= |mid|
    requires disk == Splice(mid, RootAt(v.geo, v.geo.tableCount), root)
    ensures disk == SyncDisk(v)
  {
  }

  lemma SyncIs(v: Vol, disk: seq<byte>, count: nat)
    requires Shaped(v) && disk == SyncDisk(v) && count == SyncCount(v.geo, v.rootCount)
    ensures Sync(v) == Vol(v.geo, v.fat, v.fat, v.root, count, v.dataOffset, disk)
  {
  }

  /**
   * On FAT32 `write_fat` counts the records of the root once more, modulo 2^16; the count agrees with
   * the buffer afterwards exactly on FAT16.
   */
  lemma SyncCountIff(v: Vol, q: nat, m: nat)
    requires Mounted(v) && 2 * v.rootCount == 0x1_0000 * q + m && m < 0x1_0000
    ensures Sync(v).rootCount == if v.geo.kind == Fat32 then m else v.rootCount
    ensures |Sync(v).root| == 32 * Sync(v).rootCount <==> v.geo.kind == Fat16
  {
    RootOfBoot(v.disk, v.geo);
    Twice(v.rootCount, q, m);
    SyncCountParts(v, v.rootCount, m);
  }

  lemma RootOfBoot(disk: seq<byte>, g: Geometry)
    requires |disk| >= BOOT && g == ReadBoot(disk)
    ensures g.kind == Fat32 ==> g.rootBytes == g.clusterSize
  {
  }

  lemma Twice(n: nat, q: nat, m: nat)
    requires 2 * n == 0x1_0000 * q + m && m < 0x1_0000
    ensures (n + n) % 0x1_0000 == m
    ensures 0 < n < 0x1_0000 ==> n != m
  {
  }

  lemma SyncCountParts(v: Vol, n: nat, m: nat)
    requires Shaped(v) && v.rootCount == n && m == (n + n) % 0x1_0000
    requires v.geo.kind == Fat32 ==> v.geo.rootBytes == v.geo.clusterSize
    ensures Sync(v).rootCount == if v.geo.kind == Fat32 then m else n
    ensures |Sync(v).root| == 32 * n && (v.geo.kind == Fat32 ==> 0 < n < 0x1_0000)
  {
  }

  predicate InTables(g: Geometry, i: nat) {
    g.tableStart <= i < After(g, g.tableCount)
  }

  predicate InRoot(g: Geometry, i: nat) {
    RootAt(g, g.tableCount) <= i < RootAt(g, g.tableCount) + g.rootBytes
  }

  /** What `write_fat` leaves on the disk: the root, every copy of the table, the rest as it was. */
  lemma SyncRegions(v: Vol)
    requires Shaped(v)
    ensures RootAt(v.geo, v.geo.tableCount) + v.geo.rootBytes <= |v.disk|
    ensures SyncDisk(v)[RootAt(v.geo, v.geo.tableCount)..RootAt(v.geo, v.geo.tableCount) + v.geo.rootBytes] == v.root
    ensures forall i: nat :: i < |v.disk| && !InTables(v.geo, i) && !InRoot(v.geo, i) ==> SyncDisk(v)[i] == v.disk[i]
    ensures forall j: nat :: j < v.geo.tableCount ==>
              HasCopy(v.geo, SyncDisk(v), EncodeTable(v.geo.kind, v.fat), j)
  {
    SyncFits(v);
    var g, table := v.geo, EncodeTable(v.geo.kind, v.fat);
    var mid := WriteCopies(g, v.disk, table, g.tableCount);
    CopiesReadBack(g, v.disk, table, g.tableCount);
    forall j: nat | j < g.tableCount
      ensures HasCopy(g, SyncDisk(v), table, j)
    {
      assert HasCopy(g, mid, table, j);
      RootSparesCopy(v, mid, table, j);
    }
  }

  lemma RootSparesCopy(v: Vol, mid: seq<byte>, table: seq<byte>, j: nat)
    requires Sound(v.geo) && j < v.geo.tableCount && HasCopy(v.geo, mid, table, j)
    requires RootAt(v.geo, v.geo.tableCount) + |v.root| <= |mid| && |table| == v.geo.tableBytes
    ensures HasCopy(v.geo, Splice(mid, RootAt(v.geo, v.geo.tableCount), v.root), table, j)
  {
    AfterOrder(v.geo, j + 1, v.geo.tableCount);
    SpliceApart(mid, RootAt(v.geo, v.geo.tableCount), v.root, After(v.geo, j), After(v.geo, j) + |table|);
  }

  /** The boot sector is outside everything `write_fat` writes. */
  lemma SyncKeepsBoot(v: Vol)
    requires Mounted(v)
    ensures ReadBoot(SyncDisk(v)) == v.geo
  {
    SyncRegions(v);
    var d := SyncDisk(v);
    AfterOrder(v.geo, 0, v.geo.tableCount);
    assert d[..BOOT] == v.disk[..BOOT] by {
      forall i | 0 <= i < BOOT
        ensures d[i] == v.disk[i]
      {
        assert !InTables(v.geo, i) && !InRoot(v.geo, i);
      }
    }
    BootOnly(d, v.disk);
  }

  lemma BootOnly(d: seq<byte>, e: seq<byte>)
    requires |d| >= BOOT && |e| >= BOOT && d[..BOOT] == e[..BOOT]
    ensures ReadBoot(d) == ReadBoot(e)
  {
    Field(d, e, 11, 13);
    Field(d, e, 14, 16);
    Field(d, e, 17, 19);
    Field(d, e, 19, 21);
    Field(d, e, 22, 24);
    Field(d, e, 36, 40);
    Field(d, e, 44, 48);
    assert d[..BOOT][13] == e[..BOOT][13] && d[..BOOT][16] == e[..BOOT][16];
  }

  lemma Field(d: seq<byte>, e: seq<byte>, lo: nat, hi: nat)
    requires |d| >= BOOT && |e| >= BOOT && d[..BOOT] == e[..BOOT] && lo <= hi <= BOOT
    ensures d[lo..hi] == e[lo..hi]
  {
    assert d[lo..hi] == d[..BOOT][lo..hi];
    assert e[..BOOT][lo..hi] == e[lo..hi];
  }

  /** The table and its mirror, read back from the first two copies. */
  lemma ReloadTables(v: Vol)
    requires Shaped(v) && v.geo.tableCount >= 2
    ensures After(v.geo, 1) <= After(v.geo, 2) <= |v.disk|
    ensures SyncDisk(v)[v.geo.tableStart..After(v.geo, 1)] == EncodeTable(v.geo.kind, v.fat)
    ensures SyncDisk(v)[After(v.geo, 1)..After(v.geo, 2)] == EncodeTable(v.geo.kind, v.fat)
  {
    SyncRegions(v);
    FirstCopies(v.geo, SyncDisk(v), EncodeTable(v.geo.kind, v.fat));
  }

  lemma FirstCopies(g: Geometry, d: seq<byte>, table: seq<byte>)
    requires |table| == g.tableBytes && HasCopy(g, d, table, 0) && HasCopy(g, d, table, 1)
    ensures g.tableStart <= After(g, 1) <= After(g, 2) <= |d|
    ensures d[g.tableStart..After(g, 1)] == table == d[After(g, 1)..After(g, 2)]
  {
    assert After(g, 0) == g.tableStart && After(g, 1) == g.tableStart + g.tableBytes;
    assert After(g, 2) == After(g, 1) + g.tableBytes;
  }

  /** What `init_fat` makes of a disk with these bytes in the places it reads. */
  lemma LoadFrom(g: Geometry, d: seq<byte>, table: seq<byte>, fat: seq<uint32>, root: seq<byte>)
    requires Sound(g) && RootIsOneCluster(g, fat) && DecodeTable(g.kind, table) == fat
    requires After(g, 1) <= After(g, 2) && After(g, CopiesRead(g)) + g.rootSkip + g.rootBytes <= |d|
    requires After(g, 2) <= |d| && d[g.tableStart..After(g, 1)] == table == d[After(g, 1)..After(g, 2)]
    requires d[RootAt(g, CopiesRead(g))..RootAt(g, CopiesRead(g)) + g.rootBytes] == root
    ensures Holds(g, d)
    ensures Load(g, d) == Vol(g, fat, fat, root, g.rootBytes / 32, DataStart(g), d)
  {
  }

  lemma ReloadRoot(v: Vol)
    requires Shaped(v) && v.geo.tableCount >= 2
    ensures RootAt(v.geo, CopiesRead(v.geo)) + v.geo.rootBytes <= |v.disk|
    ensures SyncDisk(v)[RootAt(v.geo, CopiesRead(v.geo))..RootAt(v.geo, CopiesRead(v.geo)) + v.geo.rootBytes] == v.root
  {
    SyncRegions(v);
  }

  lemma Reload(v: Vol)
    requires Shaped(v) && v.geo.tableCount >= 2
    ensures Holds(v.geo, SyncDisk(v))
    ensures Load(v.geo, SyncDisk(v)) == v.(bak := v.fat, disk := SyncDisk(v))
    ensures Shaped(Load(v.geo, SyncDisk(v)))
  {
    ReloadTables(v);
    ReloadRoot(v);
    TableRoundTrip(v.geo.kind, v.fat);
    LoadFrom(v.geo, SyncDisk(v), EncodeTable(v.geo.kind, v.fat), v.fat, v.root);
  }

  /** With two copies or more, unmounting and mounting again rebuilds the state. */
  lemma Remount(v: Vol)
    requires Mounted(v) && v.geo.tableCount >= 2
    ensures Mountable(SyncDisk(v))
    ensures Mount(SyncDisk(v)) == v.(bak := v.fat, disk := SyncDisk(v))
    ensures Mounted(Mount(SyncDisk(v)))
  {
    SyncKeepsBoot(v);
    Reload(v);
  }

  /** After `write_fat`, mounting is loading with the same geometry. */
  lemma MountIsLoad(v: Vol)
    requires Mounted(v)
    ensures Mountable(SyncDisk(v)) <==> Holds(v.geo, SyncDisk(v))
    ensures Mountable(SyncDisk(v)) ==> Mount(SyncDisk(v)) == Load(v.geo, SyncDisk(v))
  {
    SyncKeepsBoot(v);
  }

  /** Writing `root` as the root directory and mounting again gives it back. */
  predicate RemountKeeps(v: Vol, root: seq<byte>)
    requires Shaped(v) && |root| == |v.root|
  {
    var d := SyncDisk(v.(root := root));
    Mountable(d) && Mount(d).root == root
  }

  /** The same with the geometry that is known. */
  predicate ReloadKeeps(v: Vol, root: seq<byte>)
    requires Shaped(v) && |root| == |v.root|
  {
    var d := SyncDisk(v.(root := root));
    Holds(v.geo, d) && Load(v.geo, d).root == root
  }

  /**
   * With fewer than two copies the root directory is written before the place it is read
   * from, and some contents are lost. So remounting keeps the root directory, whatever it
   * holds, if and only if there are at least two copies.
   */
  lemma RemountKeepsRootIff(v: Vol)
    requires Mounted(v) && |v.root| > 0
    ensures (forall root :: |root| == |v.root| ==> RemountKeeps(v, root)) <==> v.geo.tableCount >= 2
  {
    forall root | |root| == |v.root|
      ensures RemountKeeps(v, root) <==> ReloadKeeps(v, root)
    {
      MountIsLoad(v.(root := root));
    }
    if v.geo.tableCount >= 2 {
      ReloadKeepsAll(v);
    } else {
      ReloadLosesSome(v);
    }
  }

  lemma ReloadKeepsAll(v: Vol)
    requires Shaped(v) && v.geo.tableCount >= 2
    ensures forall root :: |root| == |v.root| ==> ReloadKeeps(v, root)
  {
    forall root | |root| == |v.root|
      ensures ReloadKeeps(v, root)
    {
      Reload(v.(root := root));
    }
  }

  lemma ReloadLosesSome(v: Vol)
    requires Shaped(v) && |v.root| > 0 && v.geo.tableCount < 2
    ensures exists root :: |root| == |v.root| && !ReloadKeeps(v, root)
  {
    LastByteUntouched(v);
    var b := v.disk[LastRootByte(v.geo)];
    var root := v.root[|v.root| - 1 := if b == 0 then 1 else 0];
    RootLost(v, root);
  }

  /** Where `init_fat` reads the last byte of the root directory when it steps over two copies. */
  function LastRootByte(g: Geometry): nat
    requires g.rootBytes > 0
  {
    RootAt(g, 2) + g.rootBytes - 1
  }

  /** With one copy or none, `write_fat` does not reach that byte. */
  lemma LastByteUntouched(v: Vol)
    requires Shaped(v) && |v.root| > 0 && v.geo.tableCount < 2
    ensures LastRootByte(v.geo) < |v.disk| && SyncDisk(v)[LastRootByte(v.geo)] == v.disk[LastRootByte(v.geo)]
  {
    AfterOrder(v.geo, v.geo.tableCount, 1);
    assert After(v.geo, 2) == After(v.geo, 1) + v.geo.tableBytes;
    SyncRegions(v);
    var last := LastRootByte(v.geo);
    assert !InTables(v.geo, last) && !InRoot(v.geo, last);
  }

  lemma RootLost(v: Vol, root: seq<byte>)
    requires Shaped(v) && |root| == |v.root| > 0 && v.geo.tableCount < 2
    requires LastRootByte(v.geo) < |v.disk| && root[|root| - 1] != v.disk[LastRootByte(v.geo)]
    ensures !ReloadKeeps(v, root)
  {
    var w := v.(root := root);
    LastByteUntouched(w);
    if Holds(v.geo, SyncDisk(w)) {
      LoadedLast(v.geo, SyncDisk(w));
      assert Load(v.geo, SyncDisk(w)).root != root;
    }
  }

  lemma LoadedLast(g: Geometry, d: seq<byte>)
    requires Holds(g, d) && g.rootBytes > 0 && g.tableCount < 2
    ensures Load(g, d).root[g.rootBytes - 1] == d[LastRootByte(g)]
  {
  }
}
