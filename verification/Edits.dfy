/**
 * What delete and undelete have in common: cells of the target's own clusters change, and the
 * records of one place that are byte-equal to the target get another first byte. Such an edit
 * keeps the invariant and leaves every other file alone.
 */
module Edits {
  import opened Bytes
  import opened FatCells
  import opened Chains
  import opened Records
  import opened Volumes
  import opened Directories
  import opened Layout
  import opened Ownership

  /** `buf` becomes the contents of place `q`. */
  function Rewrite(v: Vol, q: Place, buf: seq<byte>): Vol {
    match q
    case Root => v.(root := buf)
    case Sub(d) => if OnDisk(v, d) && |buf| == Size(v) then Put(v, d, buf) else v
  }

  /** `v1` is `v` with other tables of the same size. */
  predicate Retabled(v: Vol, v1: Vol) {
    && v1 == v.(fat := v1.fat, bak := v1.bak)
    && |v1.fat| == |v.fat| && |v1.bak| == |v.bak|
    && (forall i :: 0 <= i < |v1.fat| ==> Fits(v1.geo.kind, v1.fat[i]))
  }

  /** Only cells of clusters that `e` claims differ, and they link nowhere. */
  ghost predicate TableEdit(v: Vol, v1: Vol, e: Record) {
    Retabled(v, v1) && (forall x: nat :: 0 < x < |v.fat| ==> CellKept(v, v1, e, x))
  }

  ghost predicate CellKept(v: Vol, v1: Vol, e: Record, x: nat)
    requires x < |v.fat| == |v1.fat|
  {
    Cells(v1)[x] == Cells(v)[x] || (Owns(v, e, x) && Next(Cells(v1), x) == 0)
  }

  /** The target's first cluster afterwards: free under a deleted name, else the end of a chain. */
  ghost predicate FirstCellOk(v1: Vol, e: Record, c: byte) {
    var f := First(v1, e);
    0 < f < |v1.fat| ==> Cells(v1)[f] == if c == DELETED then Free else End
  }

  /** The target has no cluster, or it is the entry of a file or directory that lies in `q`. */
  ghost predicate IsTarget(v: Vol, dirs: Dirs, q: Place, e: Record) {
    First(v, e) == 0 || (Real(e) && exists t :: IsSlot(v, dirs, t) && t.place == q && RecAt(v, t) == e)
  }

  /** Some "." or ".." leads to the directory at `d`. */
  predicate DotNamed(v: Vol, dirs: Dirs, s: Slot, d: nat) {
    IsSlot(v, dirs, s) && IsDot(RecAt(v, s)) && First(v, RecAt(v, s)) == d
  }

  /** With `c` in front, the entry of a directory stays one, unless nothing needs it. */
  ghost predicate EntryKept(v: Vol, dirs: Dirs, e: Record, c: byte) {
    IsDirectory(e) && First(v, e) != 0 ==>
      c != DOT && (c == 0 ==> forall s :: !DotNamed(v, dirs, s, First(v, e)))
  }

  /** An edit of the records equal to `e` in place `q`. */
  ghost predicate Editable(v: Vol, dirs: Dirs, v1: Vol, q: Place, e: Record, c: byte) {
    && Inv(v, dirs) && InDirs(dirs, q) && IsTarget(v, dirs, q, e)
    && TableEdit(v, v1, e) && FirstCellOk(v1, e, c) && EntryKept(v, dirs, e, c)
  }

  ghost function Edited(v: Vol, v1: Vol, q: Place, e: Record, c: byte): Vol {
    Rewrite(v1, q, Mark(Buffer(v, q), e, c))
  }

  // ----- buffers and records after marking -----

  lemma EditedShape(v: Vol, dirs: Dirs, v1: Vol, q: Place, e: Record, c: byte)
    requires Inv(v, dirs) && Retabled(v, v1) && InDirs(dirs, q)
    ensures var w := Edited(v, v1, q, e, c);
            && w == v1.(root := w.root, disk := w.disk)
            && |w.disk| == |v.disk| && |w.root| == |v.root| && Laid(w)
  {
  }

  lemma OnDiskAnyTable(v: Vol, v1: Vol, c: nat)
    requires v1 == v.(fat := v1.fat, bak := v1.bak)
    ensures OnDisk(v1, c) <==> OnDisk(v, c)
    ensures OnDisk(v, c) ==> Cluster(v1, c) == Cluster(v, c)
  {
  }

  lemma PutElsewhere(v: Vol, v1: Vol, c: nat, data: seq<byte>, d: nat)
    requires Laid(v) && Retabled(v, v1)
    requires IsDataCluster(v, c) && IsDataCluster(v, d) && c != d && |data| == Size(v)
    ensures OnDisk(v1, c) && OnDisk(v, d) && OnDisk(Put(v1, c, data), d)
    ensures Cluster(Put(v1, c, data), d) == Cluster(v, d)
  {
    PutOther(v1, c, data, d);
  }

  lemma DirOnDisk(v: Vol, dirs: Dirs, p: Place)
    requires Inv(v, dirs) && InDirs(dirs, p) && p.Sub?
    ensures IsDataCluster(v, p.cluster) && OnDisk(v, p.cluster)
  {
    assert DirCluster(v, dirs, p.cluster);
    LaidOnDisk(v, p.cluster);
  }

  /** Only the marked place holds other bytes. */
  lemma EditedBuffer(v: Vol, dirs: Dirs, v1: Vol, q: Place, e: Record, c: byte, p: Place)
    requires Inv(v, dirs) && Retabled(v, v1) && InDirs(dirs, q) && InDirs(dirs, p)
    ensures Buffer(Edited(v, v1, q, e, c), p) == if p == q then Mark(Buffer(v, p), e, c) else Buffer(v, p)
  {
    EditedShape(v, dirs, v1, q, e, c);
    if q.Sub? {
      DirOnDisk(v, dirs, q);
      OnDiskAnyTable(v, v1, q.cluster);
    }
    if p.Sub? {
      DirOnDisk(v, dirs, p);
      OnDiskAnyTable(v, v1, p.cluster);
      if q.Sub? && p != q {
        PutElsewhere(v, v1, q.cluster, Mark(Buffer(v, q), e, c), p.cluster);
      }
    }
  }

  /** The slots are the same; the records equal to the target in its place are renamed. */
  lemma EditedRecord(v: Vol, dirs: Dirs, v1: Vol, q: Place, e: Record, c: byte, s: Slot)
    requires Inv(v, dirs) && Retabled(v, v1) && InDirs(dirs, q)
    ensures var w := Edited(v, v1, q, e, c);
            && (IsSlot(w, dirs, s) <==> IsSlot(v, dirs, s))
            && (IsSlot(v, dirs, s) ==>
                  RecAt(w, s) == if s.place == q && RecAt(v, s) == e then Renamed(e, c) else RecAt(v, s))
  {
    if InDirs(dirs, s.place) {
      EditedBuffer(v, dirs, v1, q, e, c, s.place);
      if s.place == q && s.index < Count(Buffer(v, s.place)) {
        MarkRec(Buffer(v, s.place), e, c, s.index);
      }
    }
  }

  // ----- chains after an edit -----

  lemma EditedCells(v: Vol, dirs: Dirs, v1: Vol, q: Place, e: Record, c: byte)
    requires Inv(v, dirs) && Retabled(v, v1) && InDirs(dirs, q)
    ensures Cells(Edited(v, v1, q, e, c)) == Cells(v1)
    ensures forall r :: First(Edited(v, v1, q, e, c), r) == First(v, r)
  {
    EditedShape(v, dirs, v1, q, e, c);
  }

  /** A chain with no cluster of the target's is the same chain. */
  lemma ChainKept(v: Vol, v1: Vol, e: Record, c: nat)
    requires TableEdit(v, v1, e) && Walkable(Cells(v), c)
    requires forall x :: x in Walk(Cells(v), c) ==> !Owns(v, e, x)
    ensures Walkable(Cells(v1), c) && Walk(Cells(v1), c) == Walk(Cells(v), c)
    ensures forall x :: x in Walk(Cells(v), c) ==> x < |v.fat| && Cells(v1)[x] == Cells(v)[x]
  {
    var s := Walk(Cells(v), c);
    WalkDistinct(Cells(v), c, s);
    forall x | x in s
      ensures Cells(v1)[x] == Cells(v)[x]
    {
      assert CellKept(v, v1, e, x);
    }
    WalkFrame(Cells(v), Cells(v1), c, s);
    WalkIs(Cells(v1), c, s);
  }

  /** A directory chain may be cut, and still consists of directory clusters. */
  lemma DirKept(v: Vol, dirs: Dirs, v1: Vol, e: Record, d: nat)
    requires Inv(v, dirs) && TableEdit(v, v1, e) && d in dirs
    ensures Walkable(Cells(v1), d) && (Next(Cells(v1), d) == 0 || Next(Cells(v1), d) in dirs)
  {
    var s := Walk(Cells(v), d);
    assert DirCluster(v, dirs, d) && CellKept(v, v1, e, d);
    WalkDistinct(Cells(v), d, s);
    forall x | x in s && x < |v.fat|
      ensures Next(Cells(v1), x) == Next(Cells(v), x) || Next(Cells(v1), x) == 0
    {
      assert CellKept(v, v1, e, x);
    }
    WalkCut(Cells(v), Cells(v1), d, s);
  }

  /** A record elsewhere, or different from the target, shares no cluster with it. */
  lemma OthersApart(v: Vol, dirs: Dirs, q: Place, e: Record, s: Slot, x: nat)
    requires Inv(v, dirs) && IsTarget(v, dirs, q, e) && IsSlot(v, dirs, s) && Real(RecAt(v, s))
    requires !(s.place == q && RecAt(v, s) == e) && Owns(v, RecAt(v, s), x)
    ensures !Owns(v, e, x)
  {
    if First(v, e) == 0 {
      OwnsNothing(v, e, x);
    } else {
      var t :| IsSlot(v, dirs, t) && t.place == q && RecAt(v, t) == e;
      assert Disjoint(v, dirs);
    }
  }

  /** The chain of `r` is the same in `w`, cell by cell. */
  ghost predicate ChainStays(v: Vol, w: Vol, r: Record) {
    var f := First(v, r);
    && w == v.(fat := w.fat, bak := w.bak, root := w.root, disk := w.disk)
    && |w.fat| == |v.fat| && |w.disk| == |v.disk|
    && (f != 0 && IsDeleted(r) && f < |v.fat| ==> Cells(w)[f] == Cells(v)[f])
    && (!IsDeleted(r) && Walkable(Cells(v), f) ==>
          Walkable(Cells(w), f) && Walk(Cells(w), f) == Walk(Cells(v), f)
          && forall x :: x in Walk(Cells(v), f) ==> x < |v.fat| && Cells(w)[x] == Cells(v)[x])
  }

  /** Then it claims the same clusters and is in order. */
  lemma StaysOk(v: Vol, w: Vol, dirs: Dirs, r: Record)
    requires RecordOk(v, dirs, r) && ChainStays(v, w, r) && First(v, r) != 0
    ensures RecordOk(w, dirs, r)
    ensures forall x :: Owns(w, r, x) <==> Owns(v, r, x)
  {
    assert First(w, r) == First(v, r);
    assert forall x :: IsDataCluster(w, x) <==> IsDataCluster(v, x);
    forall x | Owns(w, r, x)
      ensures !IsRootCluster(w, x) && (!IsDirectory(r) ==> x !in dirs)
    {
      assert Owns(v, r, x);
    }
  }

  lemma UntouchedChain(v: Vol, dirs: Dirs, v1: Vol, q: Place, e: Record, c: byte, s: Slot)
    requires Editable(v, dirs, v1, q, e, c)
    requires IsSlot(v, dirs, s) && Real(RecAt(v, s)) && !(s.place == q && RecAt(v, s) == e)
    ensures RecordOk(v, dirs, RecAt(v, s))
    ensures First(v, RecAt(v, s)) != 0 ==> ChainStays(v, Edited(v, v1, q, e, c), RecAt(v, s))
  {
    var r := RecAt(v, s);
    var f := First(v, r);
    EditedCells(v, dirs, v1, q, e, c);
    EditedShape(v, dirs, v1, q, e, c);
    assert SlotOk(v, dirs, s);
    if f != 0 && IsDeleted(r) {
      OthersApart(v, dirs, q, e, s, f);
      assert CellKept(v, v1, e, f);
    } else if f != 0 {
      forall x | x in Walk(Cells(v), f)
        ensures !Owns(v, e, x)
      {
        WalkDistinct(Cells(v), f, Walk(Cells(v), f));
        OthersApart(v, dirs, q, e, s, x);
      }
      ChainKept(v, v1, e, f);
    }
  }

  /** A real record that was not renamed: same record, same claims, still in order. */
  lemma UntouchedRecord(v: Vol, dirs: Dirs, v1: Vol, q: Place, e: Record, c: byte, s: Slot)
    requires Editable(v, dirs, v1, q, e, c)
    requires IsSlot(v, dirs, s) && Real(RecAt(v, s)) && !(s.place == q && RecAt(v, s) == e)
    ensures var w, r := Edited(v, v1, q, e, c), RecAt(v, s);
            && RecordOk(w, dirs, r)
            && (forall x :: Owns(w, r, x) <==> Owns(v, r, x))
            && (!IsDeleted(r) && First(v, r) != 0 ==> Walk(Cells(w), First(w, r)) == Walk(Cells(v), First(v, r)))
  {
    var w, r := Edited(v, v1, q, e, c), RecAt(v, s);
    EditedCells(v, dirs, v1, q, e, c);
    UntouchedChain(v, dirs, v1, q, e, c, s);
    if First(v, r) == 0 {
      forall x
        ensures !Owns(v, r, x) && !Owns(w, r, x)
      {
        OwnsNothing(v, r, x);
        OwnsNothing(w, r, x);
      }
    } else {
      StaysOk(v, w, dirs, r);
    }
  }

  lemma TargetOk(v: Vol, dirs: Dirs, q: Place, e: Record)
    requires Inv(v, dirs) && IsTarget(v, dirs, q, e)
    ensures RecordOk(v, dirs, e)
  {
    if First(v, e) != 0 {
      var t :| IsSlot(v, dirs, t) && t.place == q && RecAt(v, t) == e;
      assert SlotOk(v, dirs, t);
    }
  }

  /** A renamed record claims its first cluster only, and is in order. */
  lemma RenamedRecord(v: Vol, dirs: Dirs, v1: Vol, q: Place, e: Record, c: byte)
    requires Editable(v, dirs, v1, q, e, c)
    ensures var w, r := Edited(v, v1, q, e, c), Renamed(e, c);
            && RecordOk(w, dirs, r)
            && (forall x :: Owns(w, r, x) ==> Owns(v, e, x) && x == First(v, e))
  {
    var w, r := Edited(v, v1, q, e, c), Renamed(e, c);
    RenamedKeeps(e, c);
    EditedCells(v, dirs, v1, q, e, c);
    EditedShape(v, dirs, v1, q, e, c);
    var f := First(v, e);
    TargetOk(v, dirs, q, e);
    if f == 0 {
      NoWalk(w);
    } else {
      OwnsFirst(v, dirs, e);
      if c != DELETED {
        assert [f as nat][1..] == [];
        WalkIs(Cells(w), f, [f]);
      }
    }
  }

  // ----- the invariant -----

  /** What a slot claims afterwards it claimed before. */
  ghost predicate ClaimsLess(v: Vol, w: Vol, dirs: Dirs, s: Slot) {
    IsSlot(v, dirs, s) && IsSlot(w, dirs, s) && Real(RecAt(w, s)) ==>
      forall x :: Owns(w, RecAt(w, s), x) ==> Real(RecAt(v, s)) && Owns(v, RecAt(v, s), x)
  }

  lemma RenamedSlot(v: Vol, dirs: Dirs, v1: Vol, q: Place, e: Record, c: byte, s: Slot)
    requires Editable(v, dirs, v1, q, e, c) && IsSlot(v, dirs, s) && s.place == q && RecAt(v, s) == e
    ensures var w := Edited(v, v1, q, e, c);
            IsSlot(w, dirs, s) && SlotOk(w, dirs, s) && ClaimsLess(v, w, dirs, s)
  {
    EditedRecord(v, dirs, v1, q, e, c, s);
    EditedCells(v, dirs, v1, q, e, c);
    RenamedKeeps(e, c);
    RenamedRecord(v, dirs, v1, q, e, c);
    assert SlotOk(v, dirs, s);
    if First(v, e) == 0 {
      forall x
        ensures !Owns(v, e, x)
      {
        OwnsNothing(v, e, x);
      }
    }
  }

  /** An entry that a "." or ".." needs is still there. */
  lemma EntryStays(v: Vol, dirs: Dirs, v1: Vol, q: Place, e: Record, c: byte, s: Slot, d: nat)
    requires Editable(v, dirs, v1, q, e, c) && DotNamed(v, dirs, s, d) && HasEntry(v, dirs, d) && d != 0
    ensures HasEntry(Edited(v, v1, q, e, c), dirs, d)
  {
    var a :| IsEntry(v, dirs, a, d);
    EditedRecord(v, dirs, v1, q, e, c, a);
    EditedCells(v, dirs, v1, q, e, c);
    RenamedKeeps(e, c);
    assert IsEntry(Edited(v, v1, q, e, c), dirs, a, d);
  }

  lemma UntouchedSlot(v: Vol, dirs: Dirs, v1: Vol, q: Place, e: Record, c: byte, s: Slot)
    requires Editable(v, dirs, v1, q, e, c) && IsSlot(v, dirs, s) && !(s.place == q && RecAt(v, s) == e)
    ensures var w := Edited(v, v1, q, e, c);
            IsSlot(w, dirs, s) && SlotOk(w, dirs, s) && ClaimsLess(v, w, dirs, s)
  {
    var r := RecAt(v, s);
    EditedRecord(v, dirs, v1, q, e, c, s);
    EditedCells(v, dirs, v1, q, e, c);
    assert SlotOk(v, dirs, s);
    if Real(r) {
      UntouchedRecord(v, dirs, v1, q, e, c, s);
    }
    if IsDot(r) && First(v, r) != 0 {
      EntryStays(v, dirs, v1, q, e, c, s, First(v, r));
    }
  }

  lemma SlotAfter(v: Vol, dirs: Dirs, v1: Vol, q: Place, e: Record, c: byte, s: Slot)
    requires Editable(v, dirs, v1, q, e, c) && IsSlot(v, dirs, s)
    ensures var w := Edited(v, v1, q, e, c);
            IsSlot(w, dirs, s) && SlotOk(w, dirs, s) && ClaimsLess(v, w, dirs, s)
  {
    if s.place == q && RecAt(v, s) == e {
      RenamedSlot(v, dirs, v1, q, e, c, s);
    } else {
      UntouchedSlot(v, dirs, v1, q, e, c, s);
    }
  }

  lemma RootClusterKept(v: Vol, dirs: Dirs, v1: Vol, q: Place, e: Record)
    requires Inv(v, dirs) && IsTarget(v, dirs, q, e) && TableEdit(v, v1, e)
    ensures RootIsOneCluster(v1.geo, v1.fat)
  {
    if v.geo.kind == Fat32 {
      assert CellKept(v, v1, e, v.geo.rootCluster);
      LinkIsNext(Fat32, v.fat, v.geo.rootCluster);
      LinkIsNext(Fat32, v1.fat, v.geo.rootCluster);
    }
  }

  lemma DirsAfter(v: Vol, dirs: Dirs, v1: Vol, q: Place, e: Record, c: byte)
    requires Editable(v, dirs, v1, q, e, c)
    ensures DirsOk(Edited(v, v1, q, e, c), dirs)
    ensures Shaped(Edited(v, v1, q, e, c))
  {
    var w := Edited(v, v1, q, e, c);
    EditedCells(v, dirs, v1, q, e, c);
    EditedShape(v, dirs, v1, q, e, c);
    RootClusterKept(v, dirs, v1, q, e);
    forall d | d in dirs
      ensures DirCluster(w, dirs, d)
    {
      assert DirCluster(v, dirs, d);
      DirKept(v, dirs, v1, e, d);
    }
  }

  /** An edit keeps the invariant. */
  lemma EditKeepsInv(v: Vol, dirs: Dirs, v1: Vol, q: Place, e: Record, c: byte)
    requires Editable(v, dirs, v1, q, e, c)
    ensures Inv(Edited(v, v1, q, e, c), dirs)
  {
    var w := Edited(v, v1, q, e, c);
    EditedShape(v, dirs, v1, q, e, c);
    DirsAfter(v, dirs, v1, q, e, c);
    forall s | IsSlot(w, dirs, s)
      ensures SlotOk(w, dirs, s)
    {
      EditedRecord(v, dirs, v1, q, e, c, s);
      SlotAfter(v, dirs, v1, q, e, c, s);
    }
    EditKeepsDisjoint(v, dirs, v1, q, e, c);
  }

  lemma EditKeepsDisjoint(v: Vol, dirs: Dirs, v1: Vol, q: Place, e: Record, c: byte)
    requires Editable(v, dirs, v1, q, e, c)
    ensures Disjoint(Edited(v, v1, q, e, c), dirs)
  {
    var w := Edited(v, v1, q, e, c);
    forall a, b, x | IsSlot(w, dirs, a) && IsSlot(w, dirs, b) && a != b
                     && Real(RecAt(w, a)) && Real(RecAt(w, b))
      ensures !(Owns(w, RecAt(w, a), x) && Owns(w, RecAt(w, b), x))
    {
      EditedRecord(v, dirs, v1, q, e, c, a);
      EditedRecord(v, dirs, v1, q, e, c, b);
      SlotAfter(v, dirs, v1, q, e, c, a);
      SlotAfter(v, dirs, v1, q, e, c, b);
      assert ClaimsLess(v, w, dirs, a) && ClaimsLess(v, w, dirs, b);
    }
  }

  // ----- bystanders -----

  /** The bytes of a file, from its record. */
  ghost function FileData(v: Vol, r: Record): seq<byte>
    requires Readable(v, First(v, r))
  {
    Content(v, First(v, r))
  }

  /** A live file in slot `s`. */
  predicate IsFile(v: Vol, dirs: Dirs, s: Slot) {
    IsSlot(v, dirs, s) && Real(RecAt(v, s)) && !IsDeleted(RecAt(v, s)) && !IsDirectory(RecAt(v, s))
  }

  /** Same record, same chain, same bytes. */
  ghost predicate SameFile(v: Vol, w: Vol, dirs: Dirs, s: Slot)
    requires IsSlot(v, dirs, s)
  {
    var r := RecAt(v, s);
    && IsSlot(w, dirs, s) && RecAt(w, s) == r
    && Readable(v, First(v, r)) && Readable(w, First(w, r))
    && Walk(Cells(w), First(w, r)) == Walk(Cells(v), First(v, r))
    && FileData(w, r) == FileData(v, r)
  }

  lemma FileReadable(v: Vol, dirs: Dirs, s: Slot)
    requires Inv(v, dirs) && IsFile(v, dirs, s)
    ensures SameFile(v, v, dirs, s)
  {
    var f := First(v, RecAt(v, s));
    assert SlotOk(v, dirs, s);
    if f == 0 {
      NoWalk(v);
    } else {
      AllLaid(v, Walk(Cells(v), f));
    }
  }

  /** A file that is not the target keeps its record, its chain and every byte of its data. */
  lemma EditSparesFile(v: Vol, dirs: Dirs, v1: Vol, q: Place, e: Record, c: byte, s: Slot)
    requires Editable(v, dirs, v1, q, e, c)
    requires IsFile(v, dirs, s) && !(s.place == q && RecAt(v, s) == e)
    ensures SameFile(v, Edited(v, v1, q, e, c), dirs, s)
  {
    var w, r := Edited(v, v1, q, e, c), RecAt(v, s);
    EditedRecord(v, dirs, v1, q, e, c, s);
    EditedCells(v, dirs, v1, q, e, c);
    EditedShape(v, dirs, v1, q, e, c);
    UntouchedRecord(v, dirs, v1, q, e, c, s);
    assert SlotOk(v, dirs, s);
    if First(v, r) == 0 {
      NoWalk(v);
      NoWalk(w);
    } else {
      var walk := Walk(Cells(v), First(v, r));
      AllLaid(v, walk);
      AllLaid(w, walk);
      forall x | x in walk
        ensures OnDisk(v, x) && OnDisk(w, x) && Cluster(w, x) == Cluster(v, x)
      {
        assert Owns(v, r, x);
        FileCluster(v, dirs, v1, q, e, c, x);
      }
      SameClusters(v, w, walk);
    }
  }

  /** A data cluster that is no directory cluster holds the same bytes. */
  lemma FileCluster(v: Vol, dirs: Dirs, v1: Vol, q: Place, e: Record, c: byte, x: nat)
    requires Inv(v, dirs) && Retabled(v, v1) && InDirs(dirs, q) && IsDataCluster(v, x) && x !in dirs
    ensures OnDisk(v, x) && OnDisk(Edited(v, v1, q, e, c), x)
    ensures Cluster(Edited(v, v1, q, e, c), x) == Cluster(v, x)
  {
    LaidOnDisk(v, x);
    OnDiskAnyTable(v, v1, x);
    if q.Sub? {
      DirOnDisk(v, dirs, q);
      OnDiskAnyTable(v, v1, q.cluster);
      PutElsewhere(v, v1, q.cluster, Mark(Buffer(v, q), e, c), x);
    }
  }

  lemma {:induction false} SameClusters(v: Vol, w: Vol, s: seq<nat>)
    requires AllOnDisk(v, s) && AllOnDisk(w, s)
    requires forall x :: x in s ==> OnDisk(v, x) && OnDisk(w, x) && Cluster(w, x) == Cluster(v, x)
    ensures Data(w, s) == Data(v, s)
  {
    if s != [] {
      assert s[0] in s;
      SameClusters(v, w, s[1..]);
    }
  }
}
