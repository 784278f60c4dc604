/** The driver as the source writes it: a device, the two tables in memory, and the loops over them. */
module Driver {
  import opened Bytes
  import opened FatCells
  import opened Chains
  import opened Records
  import opened Paths
  import opened Volumes
  import opened Layout
  import opened Dumps
  import Offsets

  /** The open file descriptor: bytes and a position. */
  class Device {
    var bytes: seq<byte>
    var pos: nat

    constructor (image: seq<byte>)
      ensures bytes == image && pos == 0
    {
      bytes, pos := image, 0;
    }

    /** `lseek(fd, p, SEEK_SET)` */
    method SeekSet(p: nat)
      modifies `pos
      ensures pos == p
    {
      pos := p;
    }

    /** `lseek(fd, d, SEEK_CUR)` */
    method SeekCur(d: nat)
      modifies `pos
      ensures pos == old(pos) + d
    {
      pos := pos + d;
    }

    method Read(n: nat) returns (data: seq<byte>)
      requires pos + n <= |bytes|
      modifies `pos
      ensures data == bytes[old(pos)..old(pos) + n] && pos == old(pos) + n
    {
      data := bytes[pos..pos + n];
      pos := pos + n;
    }

    method Write(data: seq<byte>)
      requires pos + |data| <= |bytes|
      modifies this
      ensures bytes == Splice(old(bytes), old(pos), data) && pos == old(pos) + |data|
    {
      bytes := Splice(bytes, pos, data);
      pos := pos + |data|;
    }
  }

  /** A fresh buffer with given contents. */
  method ToArray<T>(s: seq<T>) returns (a: array<T>)
    ensures fresh(a) && a[..] == s
  {
    a := new T[|s|](i requires 0 <= i < |s| => s[i]);
  }

  /** The common part and the FAT16 or FAT32 part of the boot sector. */
  method ReadBootSector(d: Device) returns (g: Geometry)
    requires d.pos == 0 && |d.bytes| >= BOOT
    modifies d`pos
    ensures g == ReadBoot(d.bytes)
  {
    var boot := d.Read(36);
    var extended := d.Read(476);
    BootOnly(boot + extended, d.bytes);
    g := ReadBoot(boot + extended);
  }

  /** The table and its mirror, and the seek over any further copies. */
  method ReadTables(d: Device, g: Geometry) returns (fat: seq<uint32>, bak: seq<uint32>)
    requires Holds(g, d.bytes)
    modifies d`pos
    ensures fat == Load(g, d.bytes).fat && bak == Load(g, d.bytes).bak
    ensures d.pos == After(g, CopiesRead(g))
  {
    AfterOrder(g, 2, CopiesRead(g));
    d.SeekSet(g.tableStart);
    assert After(g, 1) == g.tableStart + g.tableBytes && After(g, 2) == After(g, 1) + g.tableBytes;
    var table := d.Read(g.tableBytes);
    var mirror := d.Read(g.tableBytes);
    LoadTables(g, d.bytes, table, mirror);
    fat, bak := DecodeTable(g.kind, table), DecodeTable(g.kind, mirror);
    if g.tableCount > 2 {
      Skip(g);
      d.SeekCur((g.tableCount - 2) * g.tableBytes % WORD);
    }
  }

  /** The root directory: right here on FAT16, by relative seeks along the root chain on FAT32. */
  method ReadRoot(d: Device, g: Geometry, fat: seq<uint32>) returns (root: seq<byte>, count: nat, dataOffset: nat)
    requires Holds(g, d.bytes) && fat == Load(g, d.bytes).fat
    requires d.pos == After(g, CopiesRead(g))
    requires RootPlaced(g)
    modifies d`pos
    ensures root == Load(g, d.bytes).root && count == Load(g, d.bytes).rootCount
    ensures dataOffset == DataStart(g)
  {
    LoadRoot(g, d.bytes, d.bytes[RootAt(g, CopiesRead(g))..RootAt(g, CopiesRead(g)) + g.rootBytes]);
    if g.kind == Fat16 {
      root := d.Read(32 * g.rootEntries);
      return root, g.rootEntries, d.pos;
    }
    dataOffset := d.pos;
    root, count := ReadRootChain(d, g, fat);
  }

  /** The loop over the FAT32 root chain, into a buffer of one cluster. */
  method ReadRootChain(d: Device, g: Geometry, fat: seq<uint32>) returns (root: seq<byte>, count: nat)
    requires g.kind == Fat32 && RootIsOneCluster(g, fat) && RootPlaced(g)
    requires d.pos + g.rootSkip + g.clusterSize <= |d.bytes|
    modifies d`pos
    ensures root == d.bytes[old(d.pos) + g.rootSkip..old(d.pos) + g.rootSkip + g.clusterSize]
    ensures count == g.rootEntries + g.clusterSize / 32
  {
    var index: nat := 0;
    var cluster: uint32 := g.rootCluster;
    var buffer := new byte[g.clusterSize];
    count := g.rootEntries;
    ghost var before := d.pos;
    ghost var want := d.bytes[before + g.rootSkip..before + g.rootSkip + g.clusterSize];
    while cluster != 0
      invariant || (cluster == g.rootCluster && d.pos == before && count == g.rootEntries && index == 0)
                || (cluster == 0 && buffer[..] == want && count == g.rootEntries + g.clusterSize / 32)
      decreases cluster
    {
      SpliceAll(buffer[..], want);
      ReadAhead(d, Offsets.Position(g.clusterSize, cluster), g.clusterSize, buffer, RECORD * index);
      count := count + g.clusterSize / 32;
      index := index + g.clusterSize;
      cluster := Link(Fat32, fat[cluster]);
    }
    root := buffer[..];
  }

  /** A relative seek, and a `read` into a buffer. */
  method ReadAhead(d: Device, skip: nat, size: nat, buffer: array<byte>, at: nat)
    requires d.pos + skip + size <= |d.bytes| && at + size <= buffer.Length
    modifies d`pos, buffer
    ensures d.pos == old(d.pos) + skip + size
    ensures buffer[..] == Splice(old(buffer[..]), at, d.bytes[old(d.pos) + skip..old(d.pos) + skip + size])
  {
    d.SeekCur(skip);
    var data := d.Read(size);
    FillFrom(buffer, at, data);
  }

  /** `read` into a buffer from position `at` on. */
  method FillFrom(buffer: array<byte>, at: nat, data: seq<byte>)
    requires at + |data| <= buffer.Length
    modifies buffer
    ensures buffer[..] == Splice(old(buffer[..]), at, data)
  {
    forall i | 0 <= i < |data| {
      buffer[at + i] := data[i];
    }
  }

  /** The loop of `write_fat` over all copies. */
  method WriteTables(d: Device, g: Geometry, table: seq<byte>)
    requires |table| == g.tableBytes && After(g, g.tableCount) <= |d.bytes|
    modifies d
    ensures d.bytes == WriteCopies(g, old(d.bytes), table, g.tableCount)
    ensures d.pos == After(g, g.tableCount)
  {
    ghost var disk := d.bytes;
    d.SeekSet(g.tableStart);
    var i := 0;
    AfterOrder(g, 0, g.tableCount);
    while i < g.tableCount
      invariant i <= g.tableCount && After(g, i) <= |disk|
      invariant d.pos == After(g, i) && d.bytes == WriteCopies(g, disk, table, i)
    {
      AfterOrder(g, i + 1, g.tableCount);
      CopyStep(g, disk, table, i);
      d.Write(table);
      i := i + 1;
    }
  }

  /** The root directory written back: right here on FAT16, along the root chain on FAT32. */
  method WriteRoot(d: Device, g: Geometry, fat: seq<uint32>, root: seq<byte>, count: nat) returns (newCount: nat)
    requires RootIsOneCluster(g, fat) && |root| == g.rootBytes && d.pos + g.rootSkip + |root| <= |d.bytes|
    requires RootPlaced(g)
    modifies d
    ensures d.bytes == Splice(old(d.bytes), old(d.pos) + g.rootSkip, root)
    ensures newCount == SyncCount(g, count)
  {
    newCount := count;
    if g.kind == Fat16 {
      d.Write(root);
      return;
    }
    var index: nat := 0;
    var cluster: uint32 := g.rootCluster;
    ghost var before, at := d.bytes, d.pos;
    while cluster != 0
      invariant || (cluster == g.rootCluster && d.bytes == before && d.pos == at && newCount == count && index == 0)
                || (cluster == 0 && d.bytes == Splice(before, at + g.rootSkip, root)
                    && newCount == (count + g.clusterSize / 32) % 0x1_0000)
      decreases cluster
    {
      d.SeekCur(Offsets.Position(g.clusterSize, cluster));
      assert root[0..|root|] == root;
      d.Write(root[RECORD * index..RECORD * index + g.clusterSize]);
      newCount := (newCount + g.clusterSize / 32) % 0x1_0000;
      index := index + g.clusterSize;
      cluster := Link(Fat32, fat[cluster]);
    }
  }

  /** The three buffers of a mounted volume. */
  method Buffers(table: seq<uint32>, mirror: seq<uint32>, rootBytes: seq<byte>)
    returns (fat: array<uint32>, fatBak: array<uint32>, root: array<byte>)
    ensures fresh(fat) && fresh(fatBak) && fresh(root) && fat != fatBak
    ensures fat[..] == table && fatBak[..] == mirror && root[..] == rootBytes
  {
    fat := ToArray(table);
    fatBak := ToArray(mirror);
    root := ToArray(rootBytes);
  }

  /** What `init_fat` reads, from a device at position 0. */
  method ReadVolume(d: Device)
    returns (g: Geometry, fat: seq<uint32>, fatBak: seq<uint32>, root: seq<byte>, count: nat, dataOffset: nat)
    requires d.pos == 0 && Mountable(d.bytes)
    modifies d`pos
    ensures |fat| == |fatBak| && |root| == 32 * count
    ensures forall i :: 0 <= i < |fat| ==> Fits(g.kind, fat[i])
    ensures Vol(g, fat, fatBak, root, count, dataOffset, d.bytes) == Layout.Mount(d.bytes)
  {
    g := ReadBootSector(d);
    fat, fatBak := ReadTables(d, g);
    root, count, dataOffset := ReadRoot(d, g, fat);
    LoadSizes(g, d.bytes);
    MountParts(d.bytes, g, fat, fatBak, root, count, dataOffset);
  }

  /** The whole of `init_fat`. */
  method InitFat(d: Device)
    returns (g: Geometry, fat: array<uint32>, fatBak: array<uint32>, root: array<byte>, count: nat, dataOffset: nat)
    requires d.pos == 0 && Mountable(d.bytes)
    modifies d`pos
    ensures fresh(fat) && fresh(fatBak) && fresh(root) && fat != fatBak
    ensures fat.Length == fatBak.Length && root.Length == 32 * count
    ensures forall i :: 0 <= i < fat.Length ==> Fits(g.kind, fat[i])
    ensures Vol(g, fat[..], fatBak[..], root[..], count, dataOffset, d.bytes) == Layout.Mount(d.bytes)
  {
    var table, mirror, rootBytes;
    g, table, mirror, rootBytes, count, dataOffset := ReadVolume(d);
    fat, fatBak, root := Buffers(table, mirror, rootBytes);
  }

  class Volume {
    var geo: Geometry
    var dev: Device
    var fat: array<uint32>
    var fatBak: array<uint32>
    var rootDir: array<byte>
    var rootCount: nat
    var dataOffset: nat
    var currentPath: seq<byte>

    ghost predicate Valid()
      reads this, fat, fatBak, rootDir
    {
      && fat != fatBak && fat.Length == fatBak.Length
      && rootDir.Length == 32 * rootCount
      && (forall i :: 0 <= i < fat.Length ==> Fits(geo.kind, fat[i]))
      && IsCwd(currentPath) && 0 !in currentPath
    }

    ghost function State(): Vol
      reads this, dev, fat, fatBak, rootDir
    {
      Vol(geo, fat[..], fatBak[..], rootDir[..], rootCount, dataOffset, dev.bytes)
    }

    /** `mount`: `init_fat`, and the root as current path. */
    constructor Mount(d: Device)
      requires d.pos == 0 && Mountable(d.bytes)
      modifies d`pos
      ensures Valid() && fresh(fat) && fresh(fatBak) && fresh(rootDir) && dev == d
      ensures State() == Layout.Mount(d.bytes)
      ensures currentPath == [SLASH]
    {
      var g, table, mirror, root, count, offset := InitFat(d);
      geo, dev, currentPath, rootCount, dataOffset := g, d, [SLASH], count, offset;
      fat, fatBak, rootDir := table, mirror, root;
    }

    // ----- the table -----

    method NextCluster(index: uint32) returns (next: uint32)
      requires Index(geo.kind, index) < fat.Length
      requires Valid()
      ensures next == Link(geo.kind, fat[Index(geo.kind, index)])
      ensures Fits(geo.kind, next)
      ensures Fits(geo.kind, index) ==> next == Next(Cells(State()), index)
    {
      var nindex := Index(geo.kind, index);
      if IsEnd(geo.kind, fat[nindex]) {
        return 0;
      }
      next := if geo.kind == Fat16 then fat[nindex] else Low28(fat[nindex]);
    }

    method ChangeCluster(index: uint32, newValue: uint32)
      requires Valid() && Index(geo.kind, index) < fat.Length
      modifies fat, fatBak
      ensures Valid()
      ensures var i, raw := Index(geo.kind, index), Truncate(geo.kind, newValue);
              fat[..] == old(fat[..])[i := raw] && fatBak[..] == old(fatBak[..])[i := raw]
    {
      var nindex := Index(geo.kind, index);
      fat[nindex] := Truncate(geo.kind, newValue);
      fatBak[nindex] := Truncate(geo.kind, newValue);
    }

    /** The entry that `get_cluster` and `get_cluster_bak` read for `i` differs in the two tables. */
    predicate Differs(i: uint32)
      requires fat.Length == fatBak.Length && Index(geo.kind, i) < fat.Length
      reads this, fat, fatBak
    {
      fat[Index(geo.kind, i)] != fatBak[Index(geo.kind, i)]
    }

    /**
     * `test_fat`: the indices for which the table and its mirror differ. On FAT16 an index is
     * truncated to 16 bits, so entries from 65536 on are never looked at.
     */
    method TestFat() returns (bad: seq<uint32>)
      requires Valid() && fat.Length <= WORD
      ensures forall i: uint32 :: i in bad <==> i < fat.Length && Differs(i)
      ensures bad == [] <==> forall i: uint32 :: i < fat.Length && Fits(geo.kind, i) ==> fat[i] == fatBak[i]
    {
      bad := [];
      var i: nat := 0;
      while i < fat.Length
        invariant i <= fat.Length
        invariant forall k: uint32 :: k in bad <==> k < i && Differs(k)
      {
        if fat[Index(geo.kind, i)] != fatBak[Index(geo.kind, i)] {
          bad := bad + [i];
        }
        i := i + 1;
      }
      if bad == [] {
        forall k: uint32 | k < fat.Length && Fits(geo.kind, k)
          ensures fat[k] == fatBak[k]
        {
          assert k !in bad;
        }
      } else {
        assert bad[0] in bad;
      }
    }

    /** `chain`: the clusters the loop visits. */
    method Chain(first: uint32) returns (visited: seq<nat>)
      requires Valid() && Fits(geo.kind, first) && Walkable(Cells(State()), first)
      ensures visited == Walk(Cells(State()), first)
    {
      visited := [];
      var cluster: uint32 := first;
      ghost var t, rest := Cells(State()), Walk(Cells(State()), first);
      ghost var all := rest;
      while cluster != 0
        invariant Fits(geo.kind, cluster) && Visiting(t, cluster, visited, rest, all)
        decreases |rest|
      {
        VisitStep(t, cluster, visited, rest, all);
        visited, rest := visited + [cluster], rest[1..];
        cluster := NextCluster(cluster);
      }
    }

    /**
     * The loop of `delete` that frees a chain while following it. It ends on every table whose
     * links stay inside, cyclic or not: a link that has been zeroed stops it.
     */
    method FreeChain(first: uint32)
      requires Valid() && Fits(geo.kind, first) && InRange(Cells(State()), first)
      modifies fat, fatBak
      ensures Valid()
      ensures State() == Release(old(State()), first)
    {
      ghost var t, fat0, bak0 := Cells(State()), fat[..], fatBak[..];
      ghost var z: set<nat> := {};
      var cluster: uint32 := first;
      ghost var f, b := fat0, bak0;
      FreeingStart(t, first, fat0, bak0);
      while cluster != 0
        invariant Valid() && Fits(geo.kind, cluster)
        invariant fat[..] == f && fatBak[..] == b
        invariant Freeing(t, first, fat0, bak0, z, cluster, f, b)
        decreases fat.Length - |z|, cluster
      {
        FreeingStep(geo.kind, t, first, fat0, bak0, z, cluster, f, b);
        z, f, b := z + {cluster as nat}, f[cluster := 0], b[cluster := 0];
        cluster := FreeOne(cluster);
      }
      FreeingDone(t, first, fat0, bak0, z, f, b);
    }

    /** One turn of the loop: the link is read before it is zeroed. */
    method FreeOne(clusterBak: uint32) returns (cluster: uint32)
      requires Valid() && Fits(geo.kind, clusterBak) && clusterBak < fat.Length
      modifies fat, fatBak
      ensures Valid()
      ensures cluster == Link(geo.kind, old(fat[clusterBak])) && Fits(geo.kind, cluster)
      ensures fat[..] == old(fat[..])[clusterBak := 0] && fatBak[..] == old(fatBak[..])[clusterBak := 0]
    {
      cluster := NextCluster(clusterBak);
      ChangeCluster(clusterBak, 0);
    }

    // ----- directories -----

    method ReadCluster(cluster: uint32) returns (data: seq<byte>)
      requires OnDisk(State(), cluster)
      modifies dev`pos
      ensures data == Cluster(State(), cluster)
    {
      dev.SeekSet(dataOffset + Offsets.Position(geo.clusterSize, cluster));
      data := dev.Read(geo.clusterSize);
    }

    method WriteCluster(cluster: uint32, data: seq<byte>)
      requires |data| == geo.clusterSize && OnDisk(State(), cluster)
      modifies dev
      ensures State() == Put(old(State()), cluster, data)
    {
      dev.SeekSet(dataOffset + Offsets.Position(geo.clusterSize, cluster));
      dev.Write(data);
    }

    /** `parse_dir` */
    method ParseDir(dir: Record) returns (entries: Option<seq<byte>>)
      requires Valid()
      requires IsDirectory(dir) ==> Readable(State(), First(State(), dir))
      modifies dev`pos
      ensures entries == Listing(State(), dir)
    {
      if !IsDirectory(dir) {
        return None;
      }
      entries := None;
      var cluster: uint32 := FirstCluster(geo.kind, dir);
      ghost var v, t := State(), Cells(State());
      ghost var all := Walk(t, cluster);
      ghost var n := 0;
      while cluster != 0
        invariant State() == v && Fits(geo.kind, cluster)
        invariant Reading(v, all, n, cluster, entries)
        decreases |all| - n
      {
        ReadingStep(v, all, n, cluster, entries);
        var data := ReadCluster(cluster);
        entries := Some((if entries.Some? then entries.value else []) + data);
        n := n + 1;
        cluster := NextCluster(cluster);
      }
      ReadingDone(v, dir, n, entries);
    }

    /** `write_dir`; `heap` is memory from `entries` on. */
    method WriteDir(dir: Record, heap: seq<byte>)
      requires Valid()
      requires IsDirectory(dir) ==>
                 Readable(State(), First(State(), dir))
                 && HeapNeeded(Size(State()), |Walk(Cells(State()), First(State(), dir))|) <= |heap|
      modifies dev
      ensures State() == if IsDirectory(dir)
                         then (var s := Walk(Cells(old(State())), First(old(State()), dir));
                               WriteClusters(old(State()), s, heap, |s|))
                         else old(State())
    {
      if IsDirectory(dir) {
        WriteChain(FirstCluster(geo.kind, dir), heap, Walk(Cells(State()), First(State(), dir)));
      }
    }

    /** Its loop, over the chain `all`. */
    method WriteChain(first: uint32, heap: seq<byte>, ghost all: seq<nat>)
      requires Valid() && Fits(geo.kind, first) && IsWalk(Cells(State()), first, all)
      requires AllOnDisk(State(), all) && HeapNeeded(geo.clusterSize, |all|) <= |heap|
      modifies dev
      ensures State() == WriteClusters(old(State()), all, heap, |all|)
    {
      var cluster: uint32 := first;
      var index: nat := 0;
      ghost var v, w, n := State(), State(), 0;
      WritingStart(v, all, heap, first);
      while cluster != 0
        invariant State() == w && Fits(geo.kind, cluster)
        invariant Writing(v, all, heap, n, cluster, index, w)
        decreases |all| - n
      {
        cluster, w := WriteTurn(cluster, heap, index, v, all, n, w);
        n, index := n + 1, index + geo.clusterSize;
      }
      WritingDone(v, all, heap, n, index, w);
    }

    /** One turn of the loop: a cluster's worth of memory from record `index` on. */
    method WriteTurn(cluster: uint32, heap: seq<byte>, index: nat, ghost v: Vol, ghost all: seq<nat>, ghost n: nat,
                     ghost w: Vol)
      returns (next: uint32, ghost w': Vol)
      requires Valid() && Fits(geo.kind, cluster) && cluster != 0
      requires State() == w && Writing(v, all, heap, n, cluster, index, w)
      modifies dev
      ensures State() == w' && n < |all| && Fits(geo.kind, next)
      ensures Writing(v, all, heap, n + 1, next, index + geo.clusterSize, w')
    {
      assert Size(w) == geo.clusterSize;
      w' := WritingStep(v, all, heap, n, cluster, index, w);
      next := WriteNext(cluster, heap[RECORD * index..RECORD * index + geo.clusterSize], w, w');
    }

    /** The cluster written, and the link followed. */
    method WriteNext(cluster: uint32, data: seq<byte>, ghost before: Vol, ghost after: Vol) returns (next: uint32)
      requires Valid() && Fits(geo.kind, cluster) && cluster < fat.Length
      requires State() == before && OnDisk(before, cluster) && |data| == Size(before)
      requires after == Put(before, cluster, data)
      modifies dev
      ensures State() == after
      ensures Fits(geo.kind, next) && next == Next(Cells(before), cluster)
    {
      WriteCluster(cluster, data);
      next := NextCluster(cluster);
    }

    /** `find`; for a path without a name it returns memory that was never set. */
    method FindPath(path: seq<byte>) returns (found: Option<Record>)
      requires Valid() && (Tokens(path) != [] ==> Find(State(), path) != Undefined)
      modifies dev`pos
      ensures Tokens(path) != [] ==> found == match Find(State(), path) case Found(e) => Some(e) case _ => None
      ensures Tokens(path) == [] ==> found.Some?
    {
      ghost var v := State();
      var dir := rootDir[..];
      var token, rest := StrTok(path);
      if token.None? {
        var unset: Record := *;
        return Some(unset);
      }
      while true
        invariant State() == v
        invariant token.Some?
        invariant Resolve(v, dir, [token.value] + Tokens(rest)) == Find(v, path)
        decreases |rest|
      {
        var i := SearchDir(dir, token.value);
        ghost var ts := [token.value] + Tokens(rest);
        if i.None? {
          return None;
        }
        var file := Rec(dir, i.value);
        assert ts[1..] == Tokens(rest);
        token, rest := StrTok(rest);
        if token.None? {
          return Some(file);
        }
        var entries := ParseDir(file);
        if entries.None? {
          return None;
        }
        dir := entries.value;
      }
    }

    // ----- delete and undelete -----

    /**
     * The loop of `delete` and `undelete` over the parent's records: every record byte-equal to
     * `e` gets the first byte `c`, and a folder that is not the root is written back each time.
     */
    method MarkFolder(folder: array<byte>, parent: Option<Record>, e: Record, c: byte, ghost s: seq<nat>)
      requires Valid() && (parent.None? <==> folder == rootDir)
      requires parent.Some? && Lists(folder[..], e) ==> CanWrite(State(), parent.value, s, folder[..])
      modifies folder, dev
      ensures Valid() && folder[..] == Mark(old(folder[..]), e, c)
      ensures parent.None? || !Lists(old(folder[..]), e) ==> dev.bytes == old(dev.bytes)
      ensures parent.Some? && Lists(old(folder[..]), e) ==>
                State() == Marked(old(State()), s, old(folder[..]), e, c, Count(old(folder[..])))
    {
      ghost var v, buf := State(), folder[..];
      var i := 0;
      while i < folder.Length / 32
        invariant i <= Count(buf) && folder[..] == MarkUpTo(buf, e, c, i)
        invariant parent.None? || !Lists(buf, e) ==> dev.bytes == v.disk
        invariant parent.Some? && Lists(buf, e) ==> State() == Marked(v, s, buf, e, c, i)
      {
        MarkOne(folder, parent, e, c, i, s, v, buf);
        i := i + 1;
      }
    }

    method MarkOne(folder: array<byte>, parent: Option<Record>, e: Record, c: byte, i: nat,
                   ghost s: seq<nat>, ghost v: Vol, ghost buf: seq<byte>)
      requires Valid() && (parent.None? <==> folder == rootDir)
      requires i < Count(buf) && folder[..] == MarkUpTo(buf, e, c, i)
      requires parent.Some? && Lists(buf, e) ==>
                 CanWrite(v, parent.value, s, buf) && State() == Marked(v, s, buf, e, c, i)
      modifies folder, dev
      ensures Valid() && folder[..] == MarkUpTo(buf, e, c, i + 1)
      ensures parent.None? || !Lists(buf, e) ==> dev.bytes == old(dev.bytes)
      ensures parent.Some? && Lists(buf, e) ==> State() == Marked(v, s, buf, e, c, i + 1)
    {
      MarkUpToRec(buf, e, c, i, i);
      MarkStep(buf, e, c, i);
      if folder[32 * i..32 * i + 32] == e {
        folder[32 * i] := c;
        if parent.Some? {
          ReadableAnyDisk(v, dev.bytes, First(v, parent.value));
          WriteDir(parent.value, folder[..]);
          WriteTwice(v, s, MarkUpTo(buf, e, c, i), MarkUpTo(buf, e, c, i + 1));
        }
      }
    }

    /** The parent's record and its listing, in a buffer of its own; for the root, the root buffer itself. */
    method OpenParent(pndir: seq<byte>) returns (parentFile: Option<Record>, folder: array<byte>)
      requires Valid() && ParentKnown(State(), pndir)
      requires var p := FindParent(State(), pndir);
               !p.NoParent? && (p.SubDir? && IsDirectory(p.dir) ==> Readable(State(), First(State(), p.dir)))
      modifies dev`pos
      ensures FindParent(State(), pndir) == if parentFile.None? then RootDir else SubDir(parentFile.value)
      ensures folder[..] == Folder(State(), FindParent(State(), pndir))
      ensures if parentFile.None? then folder == rootDir else fresh(folder)
    {
      parentFile, folder := None, rootDir;
      if pndir != [SLASH] {
        parentFile := FindPath(pndir);
        var entries := ParseDir(parentFile.value);
        folder := ToArray(if entries.Some? then entries.value else []);
      }
    }

    /** `delete`, for what the user typed. */
    method DeleteFile(dir: Option<seq<byte>>)
      requires Valid() && (dir.Some? ==> 0 !in dir.value) && Roomy(currentPath, dir)
      requires DeleteDefined(State(), Convert(currentPath, dir))
      modifies fat, fatBak, rootDir, dev
      ensures Valid()
      ensures State() == Delete(old(State()), Convert(currentPath, dir))
    {
      ConvertHasNoNul(currentPath, dir);
      var ndir := AddressConvertor(currentPath, dir);
      DeletePath(ndir);
    }

    /** `delete`, for an absolute path. */
    method DeletePath(ndir: seq<byte>)
      requires Valid() && 0 !in ndir && DeleteDefined(State(), ndir)
      modifies fat, fatBak, rootDir, dev
      ensures Valid()
      ensures State() == Delete(old(State()), ndir)
    {
      var pndir := GetParentPath(ndir);
      ghost var v, p := State(), FindParent(State(), pndir);
      var file := FindPath(ndir);
      assert State() == v;
      var parentFile, folder := OpenParent(pndir);
      if file.None? {
        return;
      }
      DeleteFound(file.value, parentFile, folder, v, p);
    }

    method DeleteFound(e: Record, parent: Option<Record>, folder: array<byte>, ghost v: Vol, ghost p: Parent)
      requires Valid() && (parent.None? <==> folder == rootDir)
      requires v == State() && p == if parent.None? then RootDir else SubDir(parent.value)
      requires InRange(Cells(v), First(v, e)) && MarkDefined(v, Release(v, First(v, e)), p, e)
      requires folder[..] == Folder(v, p)
      modifies fat, fatBak, folder, dev
      ensures Valid()
      ensures State() == MarkParent(v, Release(v, First(v, e)), p, e, DELETED)
    {
      FreeChain(FirstCluster(geo.kind, e));
      MarkIn(folder, parent, e, DELETED, v, p);
    }

    /** `undelete`, for what the user typed. */
    method UndeleteFile(dir: seq<byte>)
      requires Valid() && dir != [] && 0 !in dir && Roomy(currentPath, Some(FixedPath(dir)))
      requires UndeleteDefined(State(), Convert(currentPath, Some(FixedPath(dir))))
      modifies fat, fatBak, rootDir, dev
      ensures Valid()
      ensures State() == Undelete(old(State()), Convert(currentPath, Some(FixedPath(dir))), FixedChar(dir))
    {
      FixedHasNoNul(dir);
      var ddir, deletedChar := FixDeletedChar(dir);
      ConvertHasNoNul(currentPath, Some(ddir));
      var ndir := AddressConvertor(currentPath, Some(ddir));
      UndeletePath(ndir, deletedChar);
    }

    /** `undelete`, for an absolute path. */
    method UndeletePath(ndir: seq<byte>, deletedChar: byte)
      requires Valid() && 0 !in ndir && UndeleteDefined(State(), ndir)
      modifies fat, fatBak, rootDir, dev
      ensures Valid()
      ensures State() == Undelete(old(State()), ndir, deletedChar)
    {
      var pndir := GetParentPath(ndir);
      ghost var v := State();
      var file := FindPath(ndir);
      if file.None? {
        return;
      }
      ghost var p := FindParent(v, pndir);
      var parentFile, folder := OpenParent(pndir);
      UndeleteFound(file.value, parentFile, folder, deletedChar, v, p);
    }

    method UndeleteFound(e: Record, parent: Option<Record>, folder: array<byte>, c: byte, ghost v: Vol, ghost p: Parent)
      requires Valid() && (parent.None? <==> folder == rootDir)
      requires v == State() && p == if parent.None? then RootDir else SubDir(parent.value)
      requires Index(geo.kind, First(v, e)) < |v.fat| && MarkDefined(v, Claim(v, First(v, e)), p, e)
      requires folder[..] == Folder(v, p)
      modifies fat, fatBak, folder, dev
      ensures Valid()
      ensures State() == MarkParent(v, Claim(v, First(v, e)), p, e, c)
    {
      ChangeCluster(FirstCluster(geo.kind, e), EOC);
      MarkIn(folder, parent, e, c, v, p);
    }

    /** The marking loop, once the tables have been changed from those of `v`. */
    method MarkIn(folder: array<byte>, parent: Option<Record>, e: Record, c: byte, ghost v: Vol, ghost p: Parent)
      requires Valid() && (parent.None? <==> folder == rootDir)
      requires p == if parent.None? then RootDir else SubDir(parent.value)
      requires State().geo == v.geo && State().disk == v.disk && State().dataOffset == v.dataOffset
      requires State().root == v.root && |State().fat| == |v.fat|
      requires MarkDefined(v, State(), p, e) && folder[..] == Folder(v, p)
      modifies folder, dev
      ensures Valid()
      ensures State() == MarkParent(v, old(State()), p, e, c)
    {
      ghost var s: seq<nat> := [];
      if p.SubDir? && Lists(folder[..], e) {
        FolderCovers(v, State(), p);
        s := Walk(Cells(State()), First(State(), p.dir));
      }
      MarkFolder(folder, parent, e, c, s);
    }

    // ----- dump -----

    /** The loop of `dump` and, byte by byte in hexadecimal, of `hdump`. */
    method DumpChain(first: uint32, fileSize: uint32, hex: bool) returns (out: seq<byte>)
      requires Valid() && Fits(geo.kind, first) && Readable(State(), first)
      modifies dev`pos
      ensures out == Shown(hex, DumpOutput(State(), Walk(Cells(State()), first), fileSize))
    {
      out := [];
      var cluster: uint32 := first;
      var size: nat := fileSize;
      ghost var v, all := State(), Walk(Cells(State()), first);
      ghost var rest, c: nat := all, first;
      assert [] + Shown(hex, DumpOutput(v, all, size)) == Shown(hex, DumpOutput(v, all, size));
      while cluster != 0
        invariant State() == v && Fits(geo.kind, cluster) && cluster == c
        invariant Printing(v, all, fileSize, hex, c, rest, size, out)
        decreases |rest|
      {
        assert rest[0] in rest;
        var part, left := ReadPart(cluster, size);
        PrintingStep(v, all, fileSize, hex, c, rest, size, out, part, left);
        out, rest, size, c := out + Shown(hex, part), rest[1..], left, Next(Cells(v), c);
        cluster := NextCluster(cluster);
      }
      PrintingDone(v, all, fileSize, hex, rest, size, out);
    }

    /** One turn of the loop: what is printed, and the bytes left afterwards. */
    method ReadPart(cluster: uint32, size: nat) returns (part: seq<byte>, left: nat)
      requires OnDisk(State(), cluster)
      modifies dev`pos
      ensures Part(State(), cluster, size, part, left)
    {
      left := size;
      if size < geo.clusterSize {
        dev.SeekSet(dataOffset + Offsets.Position(geo.clusterSize, cluster));
        part := dev.Read(size);
        assert part == Cluster(State(), cluster)[..size];
      } else {
        part := ReadCluster(cluster);
        left := size - geo.clusterSize;
      }
    }

    /** `dump` and `hdump`: what is printed for the file a path names, if there is one. */
    method DumpFile(dir: Option<seq<byte>>, hex: bool) returns (out: Option<seq<byte>>)
      requires Valid() && (dir.Some? ==> 0 !in dir.value) && Roomy(currentPath, dir)
      requires var ndir := Convert(currentPath, dir); Tokens(ndir) != [] && DumpDefined(State(), Find(State(), ndir))
      modifies dev`pos
      ensures out == Dumped(State(), Find(State(), Convert(currentPath, dir)), hex)
    {
      var ndir := AddressConvertor(currentPath, dir);
      ghost var v := State();
      var file := FindPath(ndir);
      assert State() == v;
      if file.None? {
        return None;
      }
      var bytes := DumpChain(FirstCluster(geo.kind, file.value), FileSize(file.value), hex);
      out := Some(bytes);
    }

    // ----- cd and umount -----

    /** `cd`: only a directory that is found, or the root, becomes the current path. */
    method Cd(path: Option<seq<byte>>)
      requires Valid() && (path.Some? ==> 0 !in path.value) && Roomy(currentPath, path)
      requires Named(Convert(currentPath, path))
      requires Convert(currentPath, path) != [SLASH] ==> Find(State(), Convert(currentPath, path)) != Undefined
      modifies this`currentPath, dev`pos
      ensures Valid() && State() == old(State())
      ensures currentPath == NextPath(State(), old(currentPath), path)
    {
      ConvertHasNoNul(currentPath, path);
      ConvertIsCwd(currentPath, path);
      var npath := AddressConvertor(currentPath, path);
      if npath == [SLASH] {
        currentPath := npath;
        return;
      }
      var dir := FindPath(npath);
      if dir.Some? && IsDirectory(dir.value) {
        currentPath := npath;
      }
    }

    /** `memcpy(fat_table_bak, fat_table, ..)` */
    method CopyTable()
      requires fat != fatBak && fat.Length == fatBak.Length
      modifies fatBak
      ensures fatBak[..] == fat[..] == old(fat[..])
    {
      forall i | 0 <= i < fatBak.Length {
        fatBak[i] := fat[i];
      }
    }

    /** `write_fat`, as `umount` calls it. */
    method WriteFat()
      requires Valid() && Shaped(State())
      requires RootPlaced(geo)
      modifies this`rootCount, fatBak, dev
      ensures State() == Sync(old(State()))
    {
      ghost var v := State();
      CopyTable();
      WriteDisk(v);
      SyncIs(v, dev.bytes, rootCount);
    }

    /** The second of its writes, on the disk as the first has left it. */
    method WriteRootDir(ghost v: Vol, ghost table: seq<byte>)
      requires Shaped(v) && v.geo == geo && v.root == rootDir[..] && RootIsOneCluster(geo, fat[..]) && RootPlaced(geo)
      requires After(geo, geo.tableCount) <= |v.disk| && RootAt(geo, geo.tableCount) + |v.root| <= |v.disk|
      requires table == EncodeTable(geo.kind, v.fat) && |table| == geo.tableBytes
      requires dev.bytes == WriteCopies(geo, v.disk, table, geo.tableCount) && dev.pos == After(geo, geo.tableCount)
      modifies this`rootCount, dev
      ensures dev.bytes == SyncDisk(v) && rootCount == SyncCount(geo, old(rootCount))
    {
      ghost var mid := dev.bytes;
      rootCount := WriteRoot(dev, geo, fat[..], rootDir[..], rootCount);
      SyncDiskIs(v, table, mid, rootDir[..], dev.bytes);
    }

    /** Its writes: every copy of the table, then the root directory. */
    method WriteDisk(ghost v: Vol)
      requires Shaped(v) && v.geo == geo && v.disk == dev.bytes
      requires v.fat == fat[..] && v.root == rootDir[..] && v.rootCount == rootCount
      requires RootPlaced(geo)
      modifies this`rootCount, dev
      ensures dev.bytes == SyncDisk(v) && rootCount == SyncCount(geo, v.rootCount)
    {
      SyncFits(v);
      var table := EncodeTable(geo.kind, fat[..]);
      WriteTables(dev, geo, table);
      WriteRootDir(v, table);
    }
  }
}
