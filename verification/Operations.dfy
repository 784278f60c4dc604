/**
 * Delete and undelete of any path, on a volume in good order: when they are defined, what they
 * do to the volume, and exactly when they leave it in good order.
 */
module Operations {
  import opened Bytes
  import opened FatCells
  import opened Chains
  import opened Records
  import opened Paths
  import opened Volumes
  import opened Directories
  import opened Lookups
  import opened Ownership
  import opened Edits

  // ----- records and their chains -----

  /** A record that a lookup can return. */
  ghost predicate IsFound(v: Vol, dirs: Dirs, r: Record) {
    IsRecord(v, dirs, r) && r[0] != 0 && (IsDirectory(r) || !IsSpecial(r))
  }

  lemma FindIsFound(v: Vol, dirs: Dirs, path: seq<byte>)
    requires Inv(v, dirs) && Tokens(path) != []
    ensures Find(v, path) != Undefined
    ensures Find(v, path).Found? ==> IsFound(v, dirs, Find(v, path).rec)
    ensures Find(v, path).Found? ==> Matches(Find(v, path).rec, Tokens(path)[|Tokens(path)| - 1])
  {
    ResolveSlot(v, dirs, Root, Tokens(path), Find(v, path));
    if Find(v, path).Found? {
      MatchIsNamed(Find(v, path).rec, Tokens(path)[|Tokens(path)| - 1]);
    }
  }

  /** A directory that is found has an entry, in order and with its first cluster among the directory clusters. */
  lemma DirFound(v: Vol, dirs: Dirs, r: Record)
    requires Inv(v, dirs) && IsFound(v, dirs, r) && IsDirectory(r) && First(v, r) != 0
    ensures First(v, r) in dirs && HasEntry(v, dirs, First(v, r))
  {
    var s :| IsSlot(v, dirs, s) && RecAt(v, s) == r;
    assert SlotOk(v, dirs, s);
    if !IsDot(r) {
      assert IsEntry(v, dirs, s, First(v, r));
    }
  }

  /** The first cluster of a real record starts a walk that ends; everything on it is claimed. */
  lemma TargetWalk(v: Vol, dirs: Dirs, e: Record)
    requires Inv(v, dirs) && RecordOk(v, dirs, e)
    ensures InRange(Cells(v), First(v, e))
    ensures forall x: nat :: Reached(Cells(v), First(v, e), x) ==> Owns(v, e, x)
  {
    var t, f := Cells(v), First(v, e);
    var s: seq<nat>;
    if f == 0 {
      NoWalk(v);
      s := [];
    } else if IsDeleted(e) {
      FreeWalk(t, f);
      s := [f];
    } else {
      s := Walk(t, f);
    }
    WalkInRange(t, f, s);
    forall x: nat | Reached(t, f, x)
      ensures Owns(v, e, x)
    {
      ReachedIsWalk(t, f, s, x);
    }
  }

  /** A cluster without a link is a chain by itself. */
  lemma FreeWalk(t: seq<Cell>, f: nat)
    requires 0 < f < |t| && Next(t, f) == 0
    ensures IsWalk(t, f, [f]) && Walkable(t, f) && Walk(t, f) == [f]
    ensures forall x :: Reached(t, f, x) <==> x == f
  {
    assert [f][1..] == [];
    WalkIs(t, f, [f]);
    forall x
      ensures Reached(t, f, x) <==> x == f
    {
      ReachedIsWalk(t, f, [f], x);
    }
  }

  /** Delete's loop ends for every record that is found. */
  lemma FoundInRange(v: Vol, dirs: Dirs, e: Record)
    requires Inv(v, dirs) && IsFound(v, dirs, e)
    ensures InRange(Cells(v), First(v, e)) && First(v, e) < |v.fat|
  {
    if First(v, e) == 0 {
      NoWalk(v);
      WalkInRange(Cells(v), 0, []);
    } else if IsDot(e) {
      DirFound(v, dirs, e);
      DirWalk(v, dirs, First(v, e));
      WalkInRange(Cells(v), First(v, e), Walk(Cells(v), First(v, e)));
    } else {
      var s :| IsSlot(v, dirs, s) && RecAt(v, s) == e;
      assert SlotOk(v, dirs, s);
      TargetWalk(v, dirs, e);
    }
    assert At(Cells(v), First(v, e), 0) == First(v, e);
  }

  // ----- the parent -----

  /** The directory the marking loop scans, if it scans any. */
  function DirOf(v: Vol, p: Parent): Option<Place> {
    match p
    case RootDir => Some(Root)
    case SubDir(r) => if IsDirectory(r) && First(v, r) != 0 then Some(Sub(First(v, r))) else None
    case NoParent => None
  }

  /** A parent as `find` returns it. */
  ghost predicate IsParent(v: Vol, dirs: Dirs, p: Parent) {
    !p.NoParent? && (p.SubDir? ==> IsFound(v, dirs, p.dir))
  }

  ghost predicate Marks(v: Vol, p: Parent, e: Record)
    requires p.SubDir? && IsDirectory(p.dir) ==> Readable(v, First(v, p.dir))
  {
    Lists(Folder(v, p), e)
  }

  lemma ParentIsParent(v: Vol, dirs: Dirs, pn: seq<byte>)
    requires Inv(v, dirs) && Named(pn)
    ensures ParentKnown(v, pn)
    ensures FindParent(v, pn).NoParent? <==> pn != [SLASH] && !Find(v, pn).Found?
    ensures !FindParent(v, pn).NoParent? ==> IsParent(v, dirs, FindParent(v, pn))
  {
    if pn != [SLASH] {
      FindIsFound(v, dirs, pn);
    }
  }

  lemma ParentFolder(v: Vol, dirs: Dirs, p: Parent)
    requires Inv(v, dirs) && IsParent(v, dirs, p)
    ensures p.SubDir? && IsDirectory(p.dir) ==> Readable(v, First(v, p.dir))
    ensures DirOf(v, p).None? ==> Folder(v, p) == []
    ensures DirOf(v, p).Some? ==> InDirs(dirs, DirOf(v, p).value) && Folder(v, p) == FolderOf(v, DirOf(v, p).value)
  {
    NoWalk(v);
    if p.SubDir? && IsDirectory(p.dir) && First(v, p.dir) != 0 {
      DirFound(v, dirs, p.dir);
      DirWalk(v, dirs, First(v, p.dir));
    }
  }

  /** The marking loop writes at most one cluster. */
  predicate EndsThere(v: Vol, v1: Vol, p: Parent) {
    DirOf(v, p).Some? ==> OneCluster(v1, DirOf(v, p).value)
  }

  /** The marking loop is memory-safe exactly when the directory it writes has one cluster by then. */
  lemma MarkDefinedIff(v: Vol, dirs: Dirs, v1: Vol, p: Parent, e: Record)
    requires Inv(v, dirs) && IsParent(v, dirs, p) && Retabled(v, v1)
    ensures p.SubDir? && IsDirectory(p.dir) ==> Readable(v, First(v, p.dir))
    ensures MarkDefined(v, v1, p, e) <==> (Marks(v, p, e) ==> EndsThere(v, v1, p))
  {
    ParentFolder(v, dirs, p);
    if p.SubDir? && Marks(v, p, e) {
      var d := First(v, p.dir);
      DirWalk(v, dirs, d);
      OnDiskAnyTable(v, v1, d);
      if Next(Cells(v1), d) == 0 {
        FreeWalk(Cells(v1), d);
      } else if Readable(v1, d) {
        WalkStep(Cells(v1), d);
        WalkStep(Cells(v1), Next(Cells(v1), d));
      }
    }
  }

  /** And then it rewrites the place where that directory starts. */
  lemma MarkIsEdit(v: Vol, dirs: Dirs, v1: Vol, p: Parent, e: Record, c: byte)
    requires Inv(v, dirs) && IsParent(v, dirs, p) && Retabled(v, v1) && MarkDefined(v, v1, p, e)
    ensures p.SubDir? && IsDirectory(p.dir) ==> Readable(v, First(v, p.dir))
    ensures Marks(v, p, e) ==> DirOf(v, p).Some? && InDirs(dirs, DirOf(v, p).value)
                               && MarkParent(v, v1, p, e, c) == Edited(v, v1, DirOf(v, p).value, e, c)
    ensures !Marks(v, p, e) ==> MarkParent(v, v1, p, e, c) == v1
  {
    ParentFolder(v, dirs, p);
    MarkDefinedIff(v, dirs, v1, p, e);
    if !Marks(v, p, e) {
      MarkNothing(Folder(v, p), e, c);
    } else if p.SubDir? {
      MarkIsWrite(v, dirs, v1, p, e, c);
    }
  }

  lemma MarkIsWrite(v: Vol, dirs: Dirs, v1: Vol, p: Parent, e: Record, c: byte)
    requires Inv(v, dirs) && IsParent(v, dirs, p) && Retabled(v, v1) && MarkDefined(v, v1, p, e)
    requires p.SubDir? && Marks(v, p, e) && DirOf(v, p).Some? && OneCluster(v1, DirOf(v, p).value)
    ensures MarkParent(v, v1, p, e, c) == Edited(v, v1, DirOf(v, p).value, e, c)
  {
    var d, folder := First(v, p.dir), Folder(v, p);
    ParentFolder(v, dirs, p);
    FolderStart(v, dirs, d);
    DirWalk(v, dirs, d);
    OnDiskAnyTable(v, v1, d);
    FreeWalk(Cells(v1), d);
    FolderCovers(v, v1, p);
    WriteOne(v1, [d], Mark(folder, e, c));
    MarkPrefix(folder, Size(v), e, c);
  }

  /** A directory's contents start with its first cluster. */
  lemma FolderStart(v: Vol, dirs: Dirs, d: nat)
    requires Laid(v) && DirsOk(v, dirs) && d in dirs
    ensures OnDisk(v, d) && |FolderOf(v, Sub(d))| >= Size(v)
    ensures FolderOf(v, Sub(d))[..Size(v)] == Cluster(v, d) == Buffer(v, Sub(d))
  {
    DirWalk(v, dirs, d);
    var s := Walk(Cells(v), d);
    assert s[0] in s;
    assert Data(v, s) == Cluster(v, s[0]) + Data(v, s[1..]);
  }

  // ----- the record that is found, in its directory -----

  /** A listed record of a directory of one cluster lies in that cluster. */
  lemma ListedSlot(v: Vol, dirs: Dirs, q: Place, e: Record) returns (s: Slot)
    requires Inv(v, dirs) && InDirs(dirs, q) && Lists(FolderOf(v, q), e)
    ensures IsSlot(v, dirs, s) && RecAt(v, s) == e
    ensures OneCluster(v, q) ==> s.place == q
    ensures q.Sub? ==> s.place.Sub? && s.place.cluster in Walk(Cells(v), q.cluster)
  {
    var i: nat :| i < Count(FolderOf(v, q)) && Rec(FolderOf(v, q), i) == e;
    SlotAtOk(v, dirs, q, i);
    s := SlotAt(v, q, i);
    if OneCluster(v, q) {
      OneClusterFolder(v, dirs, q);
    }
    if q.Sub? {
      DirWalk(v, dirs, q.cluster);
    }
  }

  /** The chain of an entry does not run through the directory that lists it. */
  lemma EntryElsewhere(v: Vol, dirs: Dirs, q: nat, e: Record)
    requires Inv(v, dirs) && q in dirs && HasEntry(v, dirs, q) && Lists(FolderOf(v, Sub(q)), e)
    requires Real(e) && First(v, e) != 0
    ensures !Owns(v, e, q)
  {
    var s := ListedSlot(v, dirs, Sub(q), e);
    assert SlotOk(v, dirs, s);
    if Owns(v, e, q) {
      var a :| IsEntry(v, dirs, a, q);
      assert SlotOk(v, dirs, a);
      DirWalk(v, dirs, q);
      OwnsFirst(v, dirs, RecAt(v, a));
      OwnerUnique(v, dirs, a, s, q);
      if IsDeleted(e) {
        FreeWalk(Cells(v), q);
      }
    }
  }

  /** So an entry's own clusters do not cut the directory, and it is the target in the place that is written. */
  lemma EntryIsTarget(v: Vol, dirs: Dirs, v1: Vol, p: Parent, e: Record)
    requires Inv(v, dirs) && IsParent(v, dirs, p) && TableEdit(v, v1, e)
    requires p.SubDir? && IsDirectory(p.dir) ==> Readable(v, First(v, p.dir))
    requires Marks(v, p, e) && EndsThere(v, v1, p) && (Real(e) || First(v, e) == 0)
    ensures DirOf(v, p).Some? && InDirs(dirs, DirOf(v, p).value) && IsTarget(v, dirs, DirOf(v, p).value, e)
    ensures Real(e) && First(v, e) != 0 ==> OneCluster(v, DirOf(v, p).value)
  {
    ParentFolder(v, dirs, p);
    var q := DirOf(v, p).value;
    if First(v, e) != 0 {
      if q.Sub? {
        DirFound(v, dirs, p.dir);
        EntryElsewhere(v, dirs, q.cluster, e);
        DirOnDisk(v, dirs, q);
        assert CellKept(v, v1, e, q.cluster);
      }
      var s := ListedSlot(v, dirs, q, e);
    }
  }

  // ----- delete -----

  lemma ReleaseCells(v: Vol, dirs: Dirs, f: nat)
    requires Inv(v, dirs)
    ensures Retabled(v, Release(v, f))
    ensures forall x: nat :: x < |v.fat| ==>
              Cells(Release(v, f))[x] == if Reached(Cells(v), f, x) then Free else Cells(v)[x]
  {
    var v1 := Release(v, f);
    forall x: nat | x < |v.fat|
      ensures Cells(v1)[x] == if Reached(Cells(v), f, x) then Free else Cells(v)[x]
    {
      if Reached(Cells(v), f, x) {
        assert v1.fat[x] == 0;
      } else {
        assert v1.fat[x] == v.fat[x];
      }
    }
  }

  lemma ReleaseIsEdit(v: Vol, dirs: Dirs, e: Record)
    requires Inv(v, dirs) && RecordOk(v, dirs, e)
    ensures TableEdit(v, Release(v, First(v, e)), e) && FirstCellOk(Release(v, First(v, e)), e, DELETED)
  {
    var v1, f := Release(v, First(v, e)), First(v, e);
    ReleaseCells(v, dirs, f);
    TargetWalk(v, dirs, e);
    forall x: nat | 0 < x < |v.fat|
      ensures CellKept(v, v1, e, x)
    {
    }
    if 0 < f < |v.fat| {
      assert At(Cells(v), f, 0) == f && Reached(Cells(v), f, f);
    }
  }

  /** Freeing what is free, or nothing. */
  lemma ReleaseNothing(v: Vol, dirs: Dirs, f: nat)
    requires Inv(v, dirs) && f < |v.fat| && (f == 0 || Cells(v)[f] == Free)
    ensures Cells(Release(v, f)) == Cells(v) && Inv(Release(v, f), dirs)
    ensures f == 0 || (v.fat[f] == 0 && v.bak[f] == 0) ==> Release(v, f) == v
  {
    var v1 := Release(v, f);
    ReleaseCells(v, dirs, f);
    forall x: nat | Reached(Cells(v), f, x)
      ensures x == f != 0
    {
      if f == 0 {
        NoWalk(v);
        ReachedIsWalk(Cells(v), 0, [], x);
      } else {
        FreeWalk(Cells(v), f);
      }
    }
    assert Cells(v1) == Cells(v);
    if v.geo.kind == Fat32 {
      LinkIsNext(Fat32, v.fat, v.geo.rootCluster);
      LinkIsNext(Fat32, v1.fat, v.geo.rootCluster);
    }
    forall s
      ensures SameSlot(v, v1, dirs, s)
    {
      if s.place.Sub? {
        OnDiskAnyTable(v, v1, s.place.cluster);
      }
    }
    SameRecords(v, v1, dirs);
    if f == 0 || (v.fat[f] == 0 && v.bak[f] == 0) {
      assert v1.fat == v.fat && v1.bak == v.bak;
    }
  }

  /**
   * No write of delete leaves the buffer: the directory that is written has one cluster, or delete
   * has just cut it there.
   */
  ghost predicate DeleteFits(v: Vol, p: Parent, e: Record)
    requires p.SubDir? && IsDirectory(p.dir) ==> Readable(v, First(v, p.dir))
  {
    Marks(v, p, e) && p.SubDir? ==>
      OneCluster(v, Sub(First(v, p.dir))) || Reached(Cells(v), First(v, e), First(v, p.dir))
  }

  lemma DeleteFitsIff(v: Vol, dirs: Dirs, p: Parent, e: Record)
    requires Inv(v, dirs) && IsParent(v, dirs, p)
    ensures p.SubDir? && IsDirectory(p.dir) ==> Readable(v, First(v, p.dir))
    ensures MarkDefined(v, Release(v, First(v, e)), p, e) <==> DeleteFits(v, p, e)
  {
    var v1 := Release(v, First(v, e));
    ReleaseCells(v, dirs, First(v, e));
    MarkDefinedIff(v, dirs, v1, p, e);
    ParentFolder(v, dirs, p);
    if p.SubDir? && Marks(v, p, e) {
      DirOnDisk(v, dirs, DirOf(v, p).value);
    }
  }

  /**
   * What a caller can check before `delete`: the path has a name, so has its parent unless that is
   * "/", the parent is found even if the file is not, and one cluster is written.
   */
  ghost predicate DeleteSafe(v: Vol, path: seq<byte>) {
    && path != [] && Tokens(path) != [] && Named(ParentPath(path))
    && (ParentPath(path) == [SLASH] || Find(v, ParentPath(path)).Found?)
    && (Find(v, path).Found? ==>
          var p := FindParent(v, ParentPath(path));
          (p.SubDir? && IsDirectory(p.dir) ==> Readable(v, First(v, p.dir))) && DeleteFits(v, p, Find(v, path).rec))
  }

  lemma DeleteDefinedIff(v: Vol, dirs: Dirs, path: seq<byte>)
    requires Inv(v, dirs)
    ensures DeleteDefined(v, path) <==> DeleteSafe(v, path)
  {
    if path != [] && Tokens(path) != [] && Named(ParentPath(path)) {
      FindIsFound(v, dirs, path);
      ParentIsParent(v, dirs, ParentPath(path));
      var p := FindParent(v, ParentPath(path));
      if !p.NoParent? {
        ParentFolder(v, dirs, p);
        if Find(v, path).Found? {
          FoundInRange(v, dirs, Find(v, path).rec);
          DeleteFitsIff(v, dirs, p, Find(v, path).rec);
        }
      }
    }
  }

  /** The parent and the target of a delete that is defined. */
  lemma DeleteParts(v: Vol, dirs: Dirs, path: seq<byte>) returns (p: Parent, e: Record)
    requires Inv(v, dirs) && DeleteDefined(v, path) && Find(v, path).Found?
    ensures p == FindParent(v, ParentPath(path)) && e == Find(v, path).rec
    ensures IsParent(v, dirs, p) && IsFound(v, dirs, e) && First(v, e) < |v.fat|
    ensures p.SubDir? && IsDirectory(p.dir) ==> Readable(v, First(v, p.dir))
    ensures Retabled(v, Release(v, First(v, e))) && MarkDefined(v, Release(v, First(v, e)), p, e)
    ensures Marks(v, p, e) ==> EndsThere(v, Release(v, First(v, e)), p)
    ensures Marks(v, p, e) ==> DirOf(v, p).Some? && InDirs(dirs, DirOf(v, p).value)
                               && Delete(v, path) == Edited(v, Release(v, First(v, e)), DirOf(v, p).value, e, DELETED)
    ensures !Marks(v, p, e) ==> Delete(v, path) == Release(v, First(v, e))
  {
    p, e := FindParent(v, ParentPath(path)), Find(v, path).rec;
    FindIsFound(v, dirs, path);
    ParentIsParent(v, dirs, ParentPath(path));
    FoundInRange(v, dirs, e);
    ReleaseCells(v, dirs, First(v, e));
    MarkDefinedIff(v, dirs, Release(v, First(v, e)), p, e);
    MarkIsEdit(v, dirs, Release(v, First(v, e)), p, e, DELETED);
  }

  /**
   * The target has no cluster; or it is a file's or directory's entry, not "." or "..", and the
   * loop marks it; or its first cluster is free already and nothing is marked.
   */
  ghost predicate DeleteKeeps(v: Vol, p: Parent, e: Record)
    requires p.SubDir? && IsDirectory(p.dir) ==> Readable(v, First(v, p.dir))
    requires First(v, e) < |v.fat|
  {
    First(v, e) == 0 || (if Marks(v, p, e) then !IsDot(e) else Cells(v)[First(v, e)] == Free)
  }

  /** A delete that marks an entry, or a record without cluster, is an edit. */
  lemma DeleteIsEdit(v: Vol, dirs: Dirs, path: seq<byte>) returns (p: Parent, e: Record)
    requires Inv(v, dirs) && DeleteDefined(v, path) && Find(v, path).Found?
    ensures p == FindParent(v, ParentPath(path)) && e == Find(v, path).rec
    ensures p.SubDir? && IsDirectory(p.dir) ==> Readable(v, First(v, p.dir))
    ensures Marks(v, p, e) && (First(v, e) == 0 || !IsDot(e)) ==>
              DirOf(v, p).Some?
              && Editable(v, dirs, Release(v, First(v, e)), DirOf(v, p).value, e, DELETED)
              && Delete(v, path) == Edited(v, Release(v, First(v, e)), DirOf(v, p).value, e, DELETED)
  {
    p, e := DeleteParts(v, dirs, path);
    if Marks(v, p, e) && (First(v, e) == 0 || !IsDot(e)) {
      if First(v, e) != 0 {
        var s :| IsSlot(v, dirs, s) && RecAt(v, s) == e;
        assert SlotOk(v, dirs, s);
      }
      ReleaseIsEdit(v, dirs, e);
      EntryIsTarget(v, dirs, Release(v, First(v, e)), p, e);
    }
  }

  /** Delete leaves the volume in good order exactly then. */
  lemma DeleteKeepsIff(v: Vol, dirs: Dirs, path: seq<byte>)
    requires Inv(v, dirs) && DeleteDefined(v, path) && Find(v, path).Found?
    ensures var p, e := FindParent(v, ParentPath(path)), Find(v, path).rec;
            && (p.SubDir? && IsDirectory(p.dir) ==> Readable(v, First(v, p.dir)))
            && First(v, e) < |v.fat|
            && (Inv(Delete(v, path), dirs) <==> DeleteKeeps(v, p, e))
  {
    var p, e := DeleteParts(v, dirs, path);
    if DeleteKeeps(v, p, e) {
      if Marks(v, p, e) {
        p, e := DeleteIsEdit(v, dirs, path);
        EditKeepsInv(v, dirs, Release(v, First(v, e)), DirOf(v, p).value, e, DELETED);
      } else {
        ReleaseNothing(v, dirs, First(v, e));
      }
    } else {
      DeleteBreaks(v, dirs, p, e, Delete(v, path));
    }
  }

  /** What is left of an entry whose first cluster has been freed under its name. */
  lemma FreedUnderName(w: Vol, dirs: Dirs, s: Slot)
    requires IsSlot(w, dirs, s) && Real(RecAt(w, s)) && !IsDeleted(RecAt(w, s))
    requires 0 < First(w, RecAt(w, s)) < |w.fat| && Cells(w)[First(w, RecAt(w, s))] == Free
    ensures !Inv(w, dirs)
  {
    var f := First(w, RecAt(w, s));
    if Inv(w, dirs) {
      assert SlotOk(w, dirs, s);
      WalkStep(Cells(w), f);
    }
  }

  lemma DeleteBreaks(v: Vol, dirs: Dirs, p: Parent, e: Record, w: Vol)
    requires Inv(v, dirs) && IsParent(v, dirs, p) && IsFound(v, dirs, e) && First(v, e) < |v.fat|
    requires p.SubDir? && IsDirectory(p.dir) ==> Readable(v, First(v, p.dir))
    requires Retabled(v, Release(v, First(v, e))) && (Marks(v, p, e) ==> EndsThere(v, Release(v, First(v, e)), p))
    requires Marks(v, p, e) ==> DirOf(v, p).Some? && InDirs(dirs, DirOf(v, p).value)
                                && w == Edited(v, Release(v, First(v, e)), DirOf(v, p).value, e, DELETED)
    requires !Marks(v, p, e) ==> w == Release(v, First(v, e))
    requires !DeleteKeeps(v, p, e)
    ensures !Inv(w, dirs)
  {
    var f := First(v, e);
    var s := LiveOrDot(v, dirs, e);
    ReleaseCells(v, dirs, f);
    assert At(Cells(v), f, 0) == f && Reached(Cells(v), f, f);
    if Marks(v, p, e) {
      EditedRecord(v, dirs, Release(v, f), DirOf(v, p).value, e, DELETED, s);
      EditedCells(v, dirs, Release(v, f), DirOf(v, p).value, e, DELETED);
      if IsDeleted(RecAt(v, s)) {
        DotDeletedTwice(v, dirs, p, e, s);
      } else {
        FreedUnderName(w, dirs, s);
      }
    } else {
      StillThere(v, dirs, e, s, w);
    }
  }

  /** The entry of the directory that a "." or ".." leads to; of any other record, its own slot. */
  lemma LiveOrDot(v: Vol, dirs: Dirs, e: Record) returns (s: Slot)
    requires Inv(v, dirs) && IsFound(v, dirs, e) && First(v, e) != 0
    ensures IsSlot(v, dirs, s) && Real(RecAt(v, s)) && First(v, RecAt(v, s)) == First(v, e)
    ensures IsDeleted(RecAt(v, s)) && First(v, e) < |v.fat| ==> Cells(v)[First(v, e)] == Free
    ensures IsDot(e) ==> IsDirectory(RecAt(v, s)) && RecAt(v, s) != e
  {
    if IsDot(e) {
      DirFound(v, dirs, e);
      s :| IsEntry(v, dirs, s, First(v, e));
    } else {
      s :| IsSlot(v, dirs, s) && RecAt(v, s) == e;
    }
    assert SlotOk(v, dirs, s);
  }

  lemma StillThere(v: Vol, dirs: Dirs, e: Record, s: Slot, w: Vol)
    requires Inv(v, dirs) && IsSlot(v, dirs, s) && Real(RecAt(v, s)) && First(v, RecAt(v, s)) == First(v, e)
    requires 0 < First(v, e) < |v.fat| && Cells(v)[First(v, e)] != Free
    requires IsDeleted(RecAt(v, s)) ==> Cells(v)[First(v, e)] == Free
    requires w == Release(v, First(v, e)) && Reached(Cells(v), First(v, e), First(v, e))
    ensures !Inv(w, dirs)
  {
    ReleaseCells(v, dirs, First(v, e));
    if s.place.Sub? {
      OnDiskAnyTable(v, w, s.place.cluster);
    }
    FreedUnderName(w, dirs, s);
  }

  /** Marking the "." of a deleted directory makes a second deleted record for its cluster. */
  lemma DotDeletedTwice(v: Vol, dirs: Dirs, p: Parent, e: Record, a: Slot)
    requires Inv(v, dirs) && IsParent(v, dirs, p) && IsDot(e) && 0 < First(v, e) < |v.fat|
    requires p.SubDir? && IsDirectory(p.dir) ==> Readable(v, First(v, p.dir))
    requires Marks(v, p, e) && EndsThere(v, Release(v, First(v, e)), p)
    requires IsSlot(v, dirs, a) && Real(RecAt(v, a)) && IsDeleted(RecAt(v, a)) && First(v, RecAt(v, a)) == First(v, e)
    requires Cells(v)[First(v, e)] == Free
    ensures DirOf(v, p).Some? && !Inv(Edited(v, Release(v, First(v, e)), DirOf(v, p).value, e, DELETED), dirs)
  {
    var f := First(v, e);
    ParentFolder(v, dirs, p);
    var q, v1 := DirOf(v, p).value, Release(v, f);
    var w := Edited(v, v1, q, e, DELETED);
    ReleaseNothing(v, dirs, f);
    ReleaseCells(v, dirs, f);
    var s := ListedSlot(v, dirs, q, e);
    EditedRecord(v, dirs, v1, q, e, DELETED, s);
    EditedRecord(v, dirs, v1, q, e, DELETED, a);
    EditedCells(v, dirs, v1, q, e, DELETED);
    RenamedKeeps(e, DELETED);
    if Inv(w, dirs) {
      assert Owns(w, RecAt(w, s), f) && Owns(w, RecAt(w, a), f);
      OwnerUnique(w, dirs, s, a, f);
    }
  }

  /**
   * A live file named with two slashes at the end is taken for its own parent: its chain is freed,
   * its record stays.
   */
  lemma DoubledPathBreaks(v: Vol, dirs: Dirs, path: seq<byte>, e: Record)
    requires Inv(v, dirs) && EndsWithTwoSlashes(path) && Tokens(path) != [] && Find(v, path) == Found(e)
    requires !IsDirectory(e) && !IsDeleted(e) && First(v, e) != 0
    ensures DeleteDefined(v, path) && !Inv(Delete(v, path), dirs)
  {
    ParentOfDoubledPath(v, path);
    DeleteDefinedIff(v, dirs, path);
    DeleteKeepsIff(v, dirs, path);
    FindIsFound(v, dirs, path);
    var s := LiveOrDot(v, dirs, e);
    assert SlotOk(v, dirs, s);
    LiveNotFree(v, dirs, e);
  }

  lemma LiveNotFree(v: Vol, dirs: Dirs, e: Record)
    requires RecordOk(v, dirs, e) && !IsDeleted(e) && First(v, e) != 0
    ensures First(v, e) < |v.fat| && Cells(v)[First(v, e)] != Free
  {
    WalkStep(Cells(v), First(v, e));
  }

  // ----- undelete -----

  lemma ClaimCells(v: Vol, dirs: Dirs, f: uint32)
    requires Inv(v, dirs) && f < |v.fat| && Fits(v.geo.kind, f)
    ensures Index(v.geo.kind, f) == f && Retabled(v, Claim(v, f))
    ensures Cells(Claim(v, f)) == Cells(v)[f as int := End]
  {
    StoreCell(v.geo.kind, v.fat, f, EOC);
  }

  lemma ClaimIsEdit(v: Vol, dirs: Dirs, e: Record, c: byte)
    requires Inv(v, dirs) && RecordOk(v, dirs, e)
    ensures Index(v.geo.kind, First(v, e)) == First(v, e) < |v.fat|
    ensures TableEdit(v, Claim(v, First(v, e)), e)
    ensures First(v, e) == 0 || c != DELETED ==> FirstCellOk(Claim(v, First(v, e)), e, c)
  {
    var f := First(v, e);
    if f != 0 {
      OwnsFirst(v, dirs, e);
    }
    ClaimCells(v, dirs, f);
    var v1 := Claim(v, f);
    forall x: nat | 0 < x < |v.fat|
      ensures CellKept(v, v1, e, x)
    {
    }
  }

  /** What a caller can check before `undelete` of a file's or directory's entry. */
  ghost predicate UndeleteSafe(v: Vol, path: seq<byte>) {
    && path != [] && Tokens(path) != []
    && (Find(v, path).Found? ==>
          && ParentKnown(v, ParentPath(path))
          && var p := FindParent(v, ParentPath(path));
          p.SubDir? && IsDirectory(p.dir) ==> OneCluster(v, Sub(First(v, p.dir))))
  }

  /** The parent and the target of an undelete, for a path whose directory its parent path names. */
  lemma UndeleteParts(v: Vol, dirs: Dirs, path: seq<byte>, init: seq<Token>, x: Token) returns (p: Parent, e: Record)
    requires Inv(v, dirs) && Names(path, init, x) && Find(v, path).Found? && !IsDot(Find(v, path).rec)
    ensures ParentKnown(v, ParentPath(path))
    ensures p == FindParent(v, ParentPath(path)) && e == Find(v, path).rec
    ensures IsParent(v, dirs, p) && Real(e) && IsRecord(v, dirs, e) && RecordOk(v, dirs, e)
    ensures p.SubDir? ==> IsDirectory(p.dir) && Readable(v, First(v, p.dir))
    ensures Marks(v, p, e) && DirOf(v, p).Some? && InDirs(dirs, DirOf(v, p).value)
    ensures Index(v.geo.kind, First(v, e)) == First(v, e) < |v.fat|
    ensures UndeleteDefined(v, path) <==> OneCluster(v, DirOf(v, p).value)
  {
    FindIsFound(v, dirs, path);
    TokensOfSlash();
    ParentIsParent(v, dirs, ParentPath(path));
    p, e := FindParent(v, ParentPath(path)), Find(v, path).rec;
    ParentOfNamed(v, path, init, x);
    var s :| IsSlot(v, dirs, s) && RecAt(v, s) == e;
    assert SlotOk(v, dirs, s);
    ClaimIsEdit(v, dirs, e, 0);
    ParentFolder(v, dirs, p);
    MarkDefinedIff(v, dirs, Claim(v, First(v, e)), p, e);
    UncutByClaim(v, dirs, p, e);
  }

  /** Undelete's end mark does not change the length of the directory that lists the entry. */
  lemma UncutByClaim(v: Vol, dirs: Dirs, p: Parent, e: Record)
    requires Inv(v, dirs) && IsParent(v, dirs, p) && Real(e) && RecordOk(v, dirs, e)
    requires Index(v.geo.kind, First(v, e)) == First(v, e) < |v.fat|
    requires p.SubDir? && IsDirectory(p.dir) ==> Readable(v, First(v, p.dir))
    requires Marks(v, p, e) && DirOf(v, p).Some? && InDirs(dirs, DirOf(v, p).value)
    ensures EndsThere(v, Claim(v, First(v, e)), p) <==> OneCluster(v, DirOf(v, p).value)
  {
    var q := DirOf(v, p).value;
    ClaimCells(v, dirs, First(v, e));
    ParentFolder(v, dirs, p);
    if q.Sub? {
      DirOnDisk(v, dirs, q);
      if First(v, e) != 0 {
        DirFound(v, dirs, p.dir);
        EntryElsewhere(v, dirs, q.cluster, e);
        OwnsFirst(v, dirs, e);
      }
    }
  }

  lemma UndeleteIsEdit(v: Vol, dirs: Dirs, path: seq<byte>, init: seq<Token>, x: Token, c: byte)
    returns (p: Parent, e: Record)
    requires Inv(v, dirs) && Names(path, init, x) && Find(v, path).Found? && !IsDot(Find(v, path).rec)
    requires UndeleteDefined(v, path)
    ensures p == FindParent(v, ParentPath(path)) && e == Find(v, path).rec
    ensures IsParent(v, dirs, p) && Real(e) && RecordOk(v, dirs, e)
    ensures DirOf(v, p).Some? && OneCluster(v, DirOf(v, p).value) && IsTarget(v, dirs, DirOf(v, p).value, e)
    ensures Index(v.geo.kind, First(v, e)) == First(v, e) < |v.fat|
    ensures InDirs(dirs, DirOf(v, p).value) && Lists(FolderOf(v, DirOf(v, p).value), e)
    ensures TableEdit(v, Claim(v, First(v, e)), e)
    ensures Undelete(v, path, c) == Edited(v, Claim(v, First(v, e)), DirOf(v, p).value, e, c)
    ensures (First(v, e) == 0 || c != DELETED) && EntryKept(v, dirs, e, c) ==>
              Editable(v, dirs, Claim(v, First(v, e)), DirOf(v, p).value, e, c)
  {
    p, e := UndeleteParts(v, dirs, path, init, x);
    ClaimIsEdit(v, dirs, e, c);
    UncutByClaim(v, dirs, p, e);
    ParentFolder(v, dirs, p);
    MarkDefinedIff(v, dirs, Claim(v, First(v, e)), p, e);
    MarkIsEdit(v, dirs, Claim(v, First(v, e)), p, e, c);
    EntryIsTarget(v, dirs, Claim(v, First(v, e)), p, e);
  }

  /**
   * The entry has no cluster; or the character put back is not 0xE5, and a directory's entry
   * stays one: no leading dot, and no NUL while a "." or ".." leads to the directory.
   */
  ghost predicate UndeleteKeeps(v: Vol, dirs: Dirs, e: Record, c: byte) {
    First(v, e) == 0 || (c != DELETED && EntryKept(v, dirs, e, c))
  }

  /** Undelete leaves the volume in good order exactly then. */
  lemma UndeleteKeepsIff(v: Vol, dirs: Dirs, path: seq<byte>, init: seq<Token>, x: Token, c: byte)
    requires Inv(v, dirs) && Names(path, init, x) && Find(v, path).Found? && !IsDot(Find(v, path).rec)
    requires UndeleteDefined(v, path)
    ensures Inv(Undelete(v, path, c), dirs) <==> UndeleteKeeps(v, dirs, Find(v, path).rec, c)
  {
    var p, e := UndeleteIsEdit(v, dirs, path, init, x, c);
    var q, v1 := DirOf(v, p).value, Claim(v, First(v, e));
    if UndeleteKeeps(v, dirs, e, c) {
      EditKeepsInv(v, dirs, v1, q, e, c);
    } else {
      var s := ListedSlot(v, dirs, q, e);
      EditedRecord(v, dirs, v1, q, e, c, s);
      EditedCells(v, dirs, v1, q, e, c);
      RenamedKeeps(e, c);
      ClaimCells(v, dirs, First(v, e));
      if c == DELETED {
        EndUnderDeleted(Edited(v, v1, q, e, c), dirs, s);
      } else {
        EntryGone(v, dirs, v1, q, e, c, s);
      }
    }
  }

  lemma EndUnderDeleted(w: Vol, dirs: Dirs, s: Slot)
    requires IsSlot(w, dirs, s) && Real(RecAt(w, s)) && IsDeleted(RecAt(w, s))
    requires 0 < First(w, RecAt(w, s)) < |w.fat| && Cells(w)[First(w, RecAt(w, s))] == End
    ensures !Inv(w, dirs)
  {
    assert !SlotOk(w, dirs, s);
  }

  /** A directory whose entry was turned into a "." or erased has no entry left. */
  lemma EntryGone(v: Vol, dirs: Dirs, v1: Vol, q: Place, e: Record, c: byte, s: Slot)
    requires Inv(v, dirs) && Retabled(v, v1) && InDirs(dirs, q)
    requires IsSlot(v, dirs, s) && s.place == q && RecAt(v, s) == e && Real(e) && First(v, e) != 0
    requires !EntryKept(v, dirs, e, c)
    ensures !Inv(Edited(v, v1, q, e, c), dirs)
  {
    var w, f := Edited(v, v1, q, e, c), First(v, e);
    EditedRecord(v, dirs, v1, q, e, c, s);
    EditedCells(v, dirs, v1, q, e, c);
    RenamedKeeps(e, c);
    var z := s;
    if c == 0 {
      z :| DotNamed(v, dirs, z, f);
      EditedRecord(v, dirs, v1, q, e, c, z);
    }
    if HasEntry(w, dirs, f) {
      var b :| IsEntry(w, dirs, b, f);
      EditedRecord(v, dirs, v1, q, e, c, b);
      OneEntry(v, dirs, s, b, f);
    }
    assert !SlotOk(w, dirs, z);
  }

  lemma OneEntry(v: Vol, dirs: Dirs, a: Slot, b: Slot, f: nat)
    requires Inv(v, dirs) && IsEntry(v, dirs, a, f) && IsEntry(v, dirs, b, f) && f != 0
    ensures a == b
  {
    assert SlotOk(v, dirs, a) && SlotOk(v, dirs, b);
    OwnsFirst(v, dirs, RecAt(v, a));
    OwnsFirst(v, dirs, RecAt(v, b));
    OwnerUnique(v, dirs, a, b, f);
  }

  /** For an entry, undelete is defined exactly when it is safe. */
  lemma UndeleteDefinedIff(v: Vol, dirs: Dirs, path: seq<byte>)
    requires Inv(v, dirs) && EndsWithSlash(path) && !EndsWithTwoSlashes(path)
    requires Tokens(path) != [] && Find(v, path).Found? ==> !IsDot(Find(v, path).rec)
    ensures UndeleteDefined(v, path) <==> UndeleteSafe(v, path)
  {
    if Tokens(path) != [] {
      FindIsFound(v, dirs, path);
      if Find(v, path).Found? && ParentKnown(v, ParentPath(path)) {
        UndeleteFoundIff(v, dirs, path);
      }
    }
  }

  lemma UndeleteFoundIff(v: Vol, dirs: Dirs, path: seq<byte>)
    requires Inv(v, dirs) && EndsWithSlash(path) && !EndsWithTwoSlashes(path)
    requires Tokens(path) != [] && Find(v, path).Found? && !IsDot(Find(v, path).rec) && ParentKnown(v, ParentPath(path))
    ensures var p := FindParent(v, ParentPath(path));
            p.SubDir? ==> IsDirectory(p.dir)
    ensures var p := FindParent(v, ParentPath(path));
            UndeleteDefined(v, path) <==> (p.SubDir? ==> OneCluster(v, Sub(First(v, p.dir))))
  {
    var ts := Tokens(path);
    NamedSafe(path);
    NamesIff(path);
    var p, e := UndeleteParts(v, dirs, path, ts[..|ts| - 1], ts[|ts| - 1]);
    OneClusterOf(v, p);
  }

  lemma OneClusterOf(v: Vol, p: Parent)
    requires DirOf(v, p).Some?
    ensures OneCluster(v, DirOf(v, p).value) <==> (p.SubDir? ==> OneCluster(v, Sub(First(v, p.dir))))
  {
  }

  lemma NamedSafe(path: seq<byte>)
    requires EndsWithSlash(path) && !EndsWithTwoSlashes(path) && Tokens(path) != []
    ensures ParentSafe(path) <==> Named(ParentPath(path))
  {
    ParentTokens(path);
    TokensOfSlash();
  }
}
