/**
 * Whole runs: any sequence of commands, as typed, on a mounted volume in good order. Which
 * commands are safe, which keep the volume in good order, and what they leave alone.
 */
module Runs {
  import opened Bytes
  import opened FatCells
  import opened Chains
  import opened Records
  import opened Paths
  import opened Volumes
  import opened Directories
  import opened Layout
  import opened Lookups
  import opened Ownership
  import opened Edits
  import opened Operations

  /** The mounted volume and the current path. */
  datatype Session = Session(vol: Vol, cwd: seq<byte>)

  /** Commands with what the user typed; unmounting and mounting again counts as one. */
  datatype Command =
    | DeleteCmd(dir: Option<seq<byte>>)
    | UndeleteCmd(path: seq<byte>)
    | CdCmd(dir: Option<seq<byte>>)
    | RemountCmd

  /** The path `undelete` looks up. */
  function Masked(s: Session, d: seq<byte>): seq<byte> {
    Convert(s.cwd, Some(FixedPath(d)))
  }

  /** The tool gets through the command without leaving a buffer, a table or the disk, and ends. */
  ghost predicate Defined(s: Session, cmd: Command) {
    match cmd
    case DeleteCmd(d) => Roomy(s.cwd, d) && DeleteDefined(s.vol, Convert(s.cwd, d))
    case UndeleteCmd(d) => d != [] && Roomy(s.cwd, Some(FixedPath(d))) && UndeleteDefined(s.vol, Masked(s, d))
    case CdCmd(d) =>
      && Roomy(s.cwd, d) && Named(Convert(s.cwd, d))
      && (Convert(s.cwd, d) == [SLASH] || Find(s.vol, Convert(s.cwd, d)) != Undefined)
    case RemountCmd => Mounted(s.vol) && Mountable(SyncDisk(s.vol))
  }

  ghost function Step(s: Session, cmd: Command): Session
    requires Defined(s, cmd)
  {
    match cmd
    case DeleteCmd(d) => s.(vol := Delete(s.vol, Convert(s.cwd, d)))
    case UndeleteCmd(d) => s.(vol := Undelete(s.vol, Masked(s, d), FixedChar(d)))
    case CdCmd(d) => s.(cwd := NextPath(s.vol, s.cwd, d))
    case RemountCmd => Session(Mount(SyncDisk(s.vol)), [SLASH])
  }

  /** The result of a run; none when a command on the way was not defined. */
  ghost function Run(s: Session, cmds: seq<Command>): Option<Session>
    decreases |cmds|
  {
    if cmds == [] then Some(s)
    else if !Defined(s, cmds[0]) then None
    else Run(Step(s, cmds[0]), cmds[1..])
  }

  /** A mounted volume in good order, and a current path that `cd` can have set. */
  ghost predicate InOrder(s: Session, dirs: Dirs) {
    Inv(s.vol, dirs) && Mounted(s.vol) && IsCwd(s.cwd) && Named(s.cwd)
  }

  // ----- what a caller can check -----

  /** The command is defined. */
  ghost predicate Safe(s: Session, cmd: Command) {
    match cmd
    case DeleteCmd(d) => (d.Some? ==> !Hidden(d.value)) && DeleteSafe(s.vol, Convert(s.cwd, d))
    case UndeleteCmd(d) => d != [] && !HiddenDir(d) && UndeleteSafe(s.vol, Masked(s, d))
    case CdCmd(d) => (d.Some? ==> !Hidden(d.value)) && Named(Convert(s.cwd, d))
    case RemountCmd => true
  }

  ghost predicate DeleteHarmless(v: Vol, path: seq<byte>) {
    Tokens(path) != [] && Find(v, path).Found? ==>
      && ParentKnown(v, ParentPath(path))
      && var p, e := FindParent(v, ParentPath(path)), Find(v, path).rec;
      && (p.SubDir? && IsDirectory(p.dir) ==> Readable(v, First(v, p.dir)))
      && First(v, e) < |v.fat| && DeleteKeeps(v, p, e)
  }

  ghost predicate UndeleteHarmless(v: Vol, dirs: Dirs, path: seq<byte>, c: byte) {
    Tokens(path) != [] && Find(v, path).Found? ==> UndeleteKeeps(v, dirs, Find(v, path).rec, c)
  }

  /** The command keeps the volume in good order. */
  ghost predicate Harmless(s: Session, dirs: Dirs, cmd: Command) {
    match cmd
    case DeleteCmd(d) => DeleteHarmless(s.vol, Convert(s.cwd, d))
    case UndeleteCmd(d) => UndeleteHarmless(s.vol, dirs, Masked(s, d), FixedChar(d))
    case _ => true
  }

  // ----- the boot sector -----

  lemma EditKeepsMounted(v: Vol, dirs: Dirs, v1: Vol, q: Place, e: Record, c: byte)
    requires Editable(v, dirs, v1, q, e, c) && Mounted(v)
    ensures Mounted(Edited(v, v1, q, e, c))
  {
    var w := Edited(v, v1, q, e, c);
    EditedShape(v, dirs, v1, q, e, c);
    EditKeepsInv(v, dirs, v1, q, e, c);
    if q.Sub? {
      DirOnDisk(v, dirs, q);
      OnDiskAnyTable(v, v1, q.cluster);
      SpliceApart(v1.disk, Offset(v1, q.cluster), Mark(Buffer(v, q), e, c), 0, BOOT);
      assert w.disk[0..BOOT] == v.disk[0..BOOT];
    }
    BootOnly(w.disk, v.disk);
  }

  // ----- one command -----

  lemma DeleteStep(v: Vol, dirs: Dirs, path: seq<byte>)
    requires Inv(v, dirs) && Mounted(v) && DeleteDefined(v, path)
    ensures Inv(Delete(v, path), dirs) && Mounted(Delete(v, path)) <==> DeleteHarmless(v, path)
    ensures Delete(v, path).geo == v.geo
  {
    if Find(v, path).Found? {
      DeleteKeepsIff(v, dirs, path);
      var p, e := DeleteParts(v, dirs, path);
      if Marks(v, p, e) {
        EditedShape(v, dirs, Release(v, First(v, e)), DirOf(v, p).value, e, DELETED);
      }
      if DeleteKeeps(v, p, e) && Marks(v, p, e) {
        p, e := DeleteIsEdit(v, dirs, path);
        EditKeepsMounted(v, dirs, Release(v, First(v, e)), DirOf(v, p).value, e, DELETED);
      }
    }
  }

  /** A name that is shown with '?' first is no "." or "..". */
  lemma QuestionIsNoDot(e: Record, x: seq<byte>)
    requires Matches(e, x) && x != [] && x[0] == QUESTION
    ensures !IsDot(e)
  {
    MatchHead(e, x);
  }

  lemma UndeleteTarget(v: Vol, dirs: Dirs, cwd: seq<byte>, d: seq<byte>)
    requires Inv(v, dirs) && IsCwd(cwd)
    ensures var path := Convert(cwd, Some(FixedPath(d)));
            && EndsWithSlash(path) && !EndsWithTwoSlashes(path) && Tokens(path) != []
            && Find(v, path) != Undefined
            && (Find(v, path).Found? ==> !IsDot(Find(v, path).rec))
  {
    MaskedTarget(cwd, d);
    FoundIsNoDot(v, dirs, Convert(cwd, Some(FixedPath(d))));
  }

  /** The last name of the path begins with '?'. */
  predicate LastIsMasked(path: seq<byte>) {
    Tokens(path) != [] && var z := Tokens(path)[|Tokens(path)| - 1]; z != [] && z[0] == QUESTION
  }

  lemma MaskedTarget(cwd: seq<byte>, d: seq<byte>)
    requires IsCwd(cwd)
    ensures var path := Convert(cwd, Some(FixedPath(d)));
            LastIsMasked(path) && EndsWithSlash(path) && !EndsWithTwoSlashes(path)
  {
    var z := MaskedPath(cwd, d);
  }

  lemma FoundIsNoDot(v: Vol, dirs: Dirs, path: seq<byte>)
    requires Inv(v, dirs) && LastIsMasked(path)
    ensures Find(v, path) != Undefined && (Find(v, path).Found? ==> !IsDot(Find(v, path).rec))
  {
    FindIsFound(v, dirs, path);
    if Find(v, path).Found? {
      QuestionIsNoDot(Find(v, path).rec, Tokens(path)[|Tokens(path)| - 1]);
    }
  }

  lemma UndeleteStep(v: Vol, dirs: Dirs, path: seq<byte>, c: byte)
    requires Inv(v, dirs) && Mounted(v) && UndeleteDefined(v, path)
    requires EndsWithSlash(path) && !EndsWithTwoSlashes(path)
    requires Find(v, path).Found? ==> !IsDot(Find(v, path).rec)
    ensures Inv(Undelete(v, path, c), dirs) && Mounted(Undelete(v, path, c)) <==>
            UndeleteHarmless(v, dirs, path, c)
    ensures Undelete(v, path, c).geo == v.geo
  {
    if Find(v, path).Found? {
      var ts := Tokens(path);
      NamedSafe(path);
      NamesIff(path);
      var init, x := ts[..|ts| - 1], ts[|ts| - 1];
      UndeleteKeepsIff(v, dirs, path, init, x, c);
      var p, e := UndeleteIsEdit(v, dirs, path, init, x, c);
      EditedShape(v, dirs, Claim(v, First(v, e)), DirOf(v, p).value, e, c);
      if UndeleteKeeps(v, dirs, e, c) {
        EditKeepsMounted(v, dirs, Claim(v, First(v, e)), DirOf(v, p).value, e, c);
      }
    }
  }

  /** What undelete's path needs is known for everything that can be typed. */
  lemma UndeleteSafeIff(s: Session, dirs: Dirs, d: seq<byte>)
    requires InOrder(s, dirs)
    ensures UndeleteDefined(s.vol, Masked(s, d)) <==> UndeleteSafe(s.vol, Masked(s, d))
  {
    UndeleteTarget(s.vol, dirs, s.cwd, d);
    UndeleteDefinedIff(s.vol, dirs, Masked(s, d));
  }

  /** A command is defined exactly when it is safe. */
  lemma DefinedIffSafe(s: Session, dirs: Dirs, cmd: Command)
    requires InOrder(s, dirs) && (cmd.RemountCmd? ==> s.vol.geo.tableCount >= 2)
    ensures Defined(s, cmd) <==> Safe(s, cmd)
  {
    match cmd
    case DeleteCmd(d) =>
      RoomyIff(s.cwd, d);
      DeleteDefinedIff(s.vol, dirs, Convert(s.cwd, d));
    case UndeleteCmd(d) =>
      RoomyIff(s.cwd, Some(FixedPath(d)));
      FixedHiddenIff(d);
      UndeleteSafeIff(s, dirs, d);
    case CdCmd(d) =>
      RoomyIff(s.cwd, d);
      if Tokens(Convert(s.cwd, d)) != [] {
        FindIsFound(s.vol, dirs, Convert(s.cwd, d));
      }
    case RemountCmd => RemountKeepsInv(s.vol, dirs);
  }

  lemma OnlyVolume(s: Session, dirs: Dirs, v: Vol)
    requires InOrder(s, dirs)
    ensures InOrder(Session(v, s.cwd), dirs) <==> Inv(v, dirs) && Mounted(v)
  {
  }

  /** A command that is defined keeps the session in good order exactly when it is harmless. */
  lemma StepInOrderIff(s: Session, dirs: Dirs, cmd: Command)
    requires InOrder(s, dirs) && Defined(s, cmd) && (cmd.RemountCmd? ==> s.vol.geo.tableCount >= 2)
    ensures InOrder(Step(s, cmd), dirs) <==> Harmless(s, dirs, cmd)
    ensures Step(s, cmd).vol.geo == s.vol.geo
  {
    match cmd
    case DeleteCmd(d) =>
      DeleteStep(s.vol, dirs, Convert(s.cwd, d));
      OnlyVolume(s, dirs, Delete(s.vol, Convert(s.cwd, d)));
    case UndeleteCmd(d) =>
      UndeleteTarget(s.vol, dirs, s.cwd, d);
      UndeleteStep(s.vol, dirs, Masked(s, d), FixedChar(d));
      OnlyVolume(s, dirs, Undelete(s.vol, Masked(s, d), FixedChar(d)));
    case CdCmd(d) => ConvertIsCwd(s.cwd, d);
    case RemountCmd => RemountKeepsInv(s.vol, dirs);
  }

  // ----- remounting -----

  /** `write_fat` writes no data cluster but the root's own. */
  lemma SyncKeepsCluster(v: Vol, c: nat)
    requires Mounted(v) && Laid(v) && v.geo.tableCount >= 2
    requires IsDataCluster(v, c) && !IsRootCluster(v, c)
    ensures OnDisk(v, c) && OnDisk(v.(disk := SyncDisk(v)), c)
    ensures Cluster(v.(disk := SyncDisk(v)), c) == Cluster(v, c)
  {
    SyncRegions(v);
    LaidOnDisk(v, c);
    OnDiskAnyDisk(v, SyncDisk(v), c);
    RootRegion(v);
    if v.geo.kind == Fat32 {
      LaidApart(v, c, v.geo.rootCluster);
    }
    forall i: nat | Offset(v, c) <= i < Offset(v, c) + Size(v)
      ensures SyncDisk(v)[i] == v.disk[i]
    {
      assert !InTables(v.geo, i) && !InRoot(v.geo, i);
    }
    assert Cluster(v.(disk := SyncDisk(v)), c) == Cluster(v, c);
  }

  /** The root directory ends before the data on FAT16, and is the root cluster on FAT32. */
  lemma RootRegion(v: Vol)
    requires Mounted(v) && v.geo.tableCount >= 2
    ensures After(v.geo, v.geo.tableCount) <= v.dataOffset
    ensures v.geo.kind == Fat16 ==> RootAt(v.geo, v.geo.tableCount) + v.geo.rootBytes == v.dataOffset
    ensures v.geo.kind == Fat32 ==> RootAt(v.geo, v.geo.tableCount) == Offset(v, v.geo.rootCluster)
                                    && v.geo.rootBytes == Size(v)
  {
  }

  ghost function Synced(v: Vol): Vol
    requires Shaped(v)
  {
    v.(bak := v.fat, disk := SyncDisk(v))
  }

  lemma SyncedCluster(v: Vol, c: nat)
    requires Mounted(v) && Laid(v) && v.geo.tableCount >= 2
    requires IsDataCluster(v, c) && !IsRootCluster(v, c)
    ensures OnDisk(v, c) && OnDisk(Synced(v), c) && Cluster(Synced(v), c) == Cluster(v, c)
  {
    SyncKeepsCluster(v, c);
  }

  /** With two table copies, unmounting and mounting changes the mirror and the disk, and keeps the invariant. */
  lemma RemountKeepsInv(v: Vol, dirs: Dirs)
    requires Inv(v, dirs) && Mounted(v) && v.geo.tableCount >= 2
    ensures Mountable(SyncDisk(v)) && Mount(SyncDisk(v)) == Synced(v)
    ensures Inv(Synced(v), dirs) && Mounted(Synced(v))
  {
    Remount(v);
    forall s
      ensures SameSlot(v, Synced(v), dirs, s)
    {
      if InDirs(dirs, s.place) && s.place.Sub? {
        assert DirCluster(v, dirs, s.place.cluster);
        SyncedCluster(v, s.place.cluster);
      }
    }
    SameRecords(v, Synced(v), dirs);
  }

  // ----- cd -----

  /** `x` is the first record of directory `p` that answers to it, and that record is a directory. */
  ghost predicate HasDirectory(v: Vol, p: Place, x: Token) {
    exists i :: FirstMatch(FolderOf(v, p), x, i) && IsDirectory(Rec(FolderOf(v, p), i))
  }

  /**
   * `cd` of any path moves to the absolute path if that is "/", or if the directory before its last
   * name can be reached and has a directory of that name; otherwise the current path stays.
   */
  lemma CdIff(s: Session, dirs: Dirs, d: Option<seq<byte>>, path: seq<byte>, init: seq<Token>, x: Token)
    requires InOrder(s, dirs) && Defined(s, CdCmd(d)) && path == Convert(s.cwd, d) && Tokens(path) == init + [x]
    ensures Step(s, CdCmd(d)).vol == s.vol
    ensures Step(s, CdCmd(d)).cwd ==
            if PlaceOf(s.vol, init).Some? && HasDirectory(s.vol, PlaceOf(s.vol, init).value, x) then path else s.cwd
  {
    FindByPlace(s.vol, dirs, init, x);
    TokensOfSlash();
    if PlaceOf(s.vol, init).Some? {
      DirectoryIff(s.vol, PlaceOf(s.vol, init).value, x);
    }
  }

  lemma DirectoryIff(v: Vol, p: Place, x: Token)
    ensures HasDirectory(v, p, x) <==> SearchIn(v, Some(p), x).Found? && IsDirectory(SearchIn(v, Some(p), x).rec)
  {
    if i :| FirstMatch(FolderOf(v, p), x, i) {
      SearchFinds(FolderOf(v, p), x, i);
    }
  }

  /** `cd x` in directory `p` enters `x` exactly if that is a directory there. */
  lemma CdMovesIff(s: Session, dirs: Dirs, p: Place, x: Token)
    requires InOrder(s, dirs) && PlaceOf(s.vol, Tokens(s.cwd)) == Some(p) && IsToken(x) && x[0] != DOT
    ensures Defined(s, CdCmd(Some(x))) && Step(s, CdCmd(Some(x))).vol == s.vol
    ensures Step(s, CdCmd(Some(x))).cwd == if HasDirectory(s.vol, p, x) then s.cwd + x + [SLASH] else s.cwd
  {
    ConvertPlain(s.cwd, x);
    TokensUnder(s.cwd, x);
    RoomyIff(s.cwd, Some(x));
    FindByPlace(s.vol, dirs, Tokens(s.cwd), x);
    CdIff(s, dirs, Some(x), s.cwd + x + [SLASH], Tokens(s.cwd), x);
  }

  /** `cd` to "/", and `cd` with nothing typed. */
  lemma CdToRoot(s: Session)
    requires IsCwd(s.cwd)
    ensures Defined(s, CdCmd(Some([SLASH]))) && Step(s, CdCmd(Some([SLASH]))) == s.(cwd := [SLASH])
    ensures Defined(s, CdCmd(None)) ==> Step(s, CdCmd(None)) == s
  {
  }

  // ----- the mirror -----

  /** The two tables are equal. */
  predicate Mirrored(v: Vol) {
    v.bak == v.fat
  }

  lemma StepKeepsMirror(s: Session, cmd: Command)
    requires Defined(s, cmd) && Mirrored(s.vol) && (cmd.RemountCmd? ==> s.vol.geo.tableCount >= 2)
    ensures Mirrored(Step(s, cmd).vol) && Step(s, cmd).vol.geo == s.vol.geo
  {
    match cmd
    case DeleteCmd(d) => DeleteKeepsMirror(s.vol, Convert(s.cwd, d));
    case UndeleteCmd(d) => UndeleteKeepsMirror(s.vol, Masked(s, d), FixedChar(d));
    case CdCmd(d) =>
    case RemountCmd => Remount(s.vol);
  }

  /** Over every run that is defined, equal tables stay equal, so that `test_fat` has nothing to report. */
  lemma {:induction false} RunKeepsMirror(s: Session, cmds: seq<Command>)
    requires Run(s, cmds).Some? && Mirrored(s.vol) && (RemountCmd in cmds ==> s.vol.geo.tableCount >= 2)
    ensures Mirrored(Run(s, cmds).value.vol)
    decreases |cmds|
  {
    if cmds != [] {
      StepKeepsMirror(s, cmds[0]);
      RunKeepsMirror(Step(s, cmds[0]), cmds[1..]);
    }
  }

  /** After a remount the mirror is the table, whatever it was, and the current path is "/". */
  lemma RemountMirrors(s: Session)
    requires Mounted(s.vol) && s.vol.geo.tableCount >= 2
    ensures Defined(s, RemountCmd) && Mirrored(Step(s, RemountCmd).vol) && Step(s, RemountCmd).cwd == [SLASH]
    ensures var w := Step(s, RemountCmd).vol; w.fat == s.vol.fat && w.root == s.vol.root
  {
    Remount(s.vol);
  }

  // ----- whole runs -----

  /** Every command is defined and leaves the session in good order. */
  ghost predicate StaysInOrder(s: Session, dirs: Dirs, cmds: seq<Command>)
    decreases |cmds|
  {
    cmds != [] ==>
      Defined(s, cmds[0]) && InOrder(Step(s, cmds[0]), dirs) && StaysInOrder(Step(s, cmds[0]), dirs, cmds[1..])
  }

  /** Every command is safe and harmless when it is given. */
  ghost predicate AllHarmless(s: Session, dirs: Dirs, cmds: seq<Command>)
    decreases |cmds|
  {
    cmds != [] ==>
      && Safe(s, cmds[0]) && Harmless(s, dirs, cmds[0])
      && (Defined(s, cmds[0]) ==> AllHarmless(Step(s, cmds[0]), dirs, cmds[1..]))
  }

  /**
   * A run from a session in good order stays in good order exactly when every command on the way
   * is safe and harmless; remounting asks for two table copies.
   */
  lemma {:induction false} RunInOrderIff(s: Session, dirs: Dirs, cmds: seq<Command>)
    requires InOrder(s, dirs) && (RemountCmd in cmds ==> s.vol.geo.tableCount >= 2)
    ensures StaysInOrder(s, dirs, cmds) <==> AllHarmless(s, dirs, cmds)
    ensures StaysInOrder(s, dirs, cmds) ==> Run(s, cmds).Some? && InOrder(Run(s, cmds).value, dirs)
    decreases |cmds|
  {
    if cmds != [] {
      DefinedIffSafe(s, dirs, cmds[0]);
      if Defined(s, cmds[0]) {
        StepInOrderIff(s, dirs, cmds[0]);
        if InOrder(Step(s, cmds[0]), dirs) {
          RunInOrderIff(Step(s, cmds[0]), dirs, cmds[1..]);
        }
      }
    }
  }

  // ----- bystanders -----

  /** Delete or undelete of `path` is about the record in slot `s`: the one found, or one it is marked with. */
  ghost predicate Touches(v: Vol, path: seq<byte>, s: Slot) {
    && Tokens(path) != [] && s.index < Count(Buffer(v, s.place))
    && Find(v, path) == Found(RecAt(v, s))
    && (First(v, RecAt(v, s)) != 0
        || (ParentKnown(v, ParentPath(path)) && DirOf(v, FindParent(v, ParentPath(path))) == Some(s.place)))
  }

  ghost predicate CommandTouches(s: Session, cmd: Command, t: Slot) {
    match cmd
    case DeleteCmd(d) => Touches(s.vol, Convert(s.cwd, d), t)
    case UndeleteCmd(d) => Touches(s.vol, Masked(s, d), t)
    case _ => false
  }

  ghost predicate Spared(s: Session, cmds: seq<Command>, t: Slot)
    decreases |cmds|
  {
    cmds != [] ==>
      !CommandTouches(s, cmds[0], t) && (Defined(s, cmds[0]) ==> Spared(Step(s, cmds[0]), cmds[1..], t))
  }

  lemma RemountSparesFile(v: Vol, dirs: Dirs, s: Slot)
    requires Inv(v, dirs) && Mounted(v) && v.geo.tableCount >= 2 && IsFile(v, dirs, s)
    ensures SameFile(v, Synced(v), dirs, s)
  {
    var w, r := Synced(v), RecAt(v, s);
    if s.place.Sub? {
      assert DirCluster(v, dirs, s.place.cluster);
      SyncedCluster(v, s.place.cluster);
    }
    FileReadable(v, dirs, s);
    assert SlotOk(v, dirs, s);
    var walk := Walk(Cells(v), First(v, r));
    forall x | x in walk
      ensures OnDisk(v, x) && OnDisk(w, x) && Cluster(w, x) == Cluster(v, x)
    {
      WalkDistinct(Cells(v), First(v, r), walk);
      assert Owns(v, r, x);
      SyncedCluster(v, x);
    }
    SameClusters(v, w, walk);
  }

  /** Other tables with the same chains: no file changes. */
  lemma RetableSparesFile(v: Vol, dirs: Dirs, w: Vol, s: Slot)
    requires Inv(v, dirs) && IsFile(v, dirs, s) && Retabled(v, w) && Cells(w) == Cells(v)
    ensures SameFile(v, w, dirs, s)
  {
    FileReadable(v, dirs, s);
    if s.place.Sub? {
      OnDiskAnyTable(v, w, s.place.cluster);
    }
    var walk := Walk(Cells(v), First(v, RecAt(v, s)));
    forall x | x in walk
      ensures OnDisk(v, x) && OnDisk(w, x) && Cluster(w, x) == Cluster(v, x)
    {
      OnDiskAnyTable(v, w, x);
    }
    SameClusters(v, w, walk);
  }

  lemma DeleteSparesFile(v: Vol, dirs: Dirs, path: seq<byte>, s: Slot)
    requires Inv(v, dirs) && DeleteDefined(v, path) && DeleteHarmless(v, path)
    requires IsFile(v, dirs, s) && !Touches(v, path, s)
    ensures SameFile(v, Delete(v, path), dirs, s)
  {
    FileReadable(v, dirs, s);
    if Find(v, path).Found? {
      var p, e := DeleteParts(v, dirs, path);
      if Marks(v, p, e) {
        p, e := DeleteIsEdit(v, dirs, path);
        EditSparesFile(v, dirs, Release(v, First(v, e)), DirOf(v, p).value, e, DELETED, s);
      } else {
        ReleaseNothing(v, dirs, First(v, e));
        RetableSparesFile(v, dirs, Release(v, First(v, e)), s);
      }
    }
  }

  lemma UndeleteSparesFile(v: Vol, dirs: Dirs, path: seq<byte>, c: byte, s: Slot)
    requires Inv(v, dirs) && UndeleteDefined(v, path) && UndeleteHarmless(v, dirs, path, c)
    requires EndsWithSlash(path) && !EndsWithTwoSlashes(path)
    requires Find(v, path).Found? ==> !IsDot(Find(v, path).rec)
    requires IsFile(v, dirs, s) && !Touches(v, path, s)
    ensures SameFile(v, Undelete(v, path, c), dirs, s)
  {
    FileReadable(v, dirs, s);
    if Find(v, path).Found? {
      var ts := Tokens(path);
      NamedSafe(path);
      NamesIff(path);
      var p, e := UndeleteIsEdit(v, dirs, path, ts[..|ts| - 1], ts[|ts| - 1], c);
      EditSparesFile(v, dirs, Claim(v, First(v, e)), DirOf(v, p).value, e, c, s);
    }
  }

  lemma StepSparesFile(s: Session, dirs: Dirs, cmd: Command, t: Slot)
    requires InOrder(s, dirs) && Defined(s, cmd) && InOrder(Step(s, cmd), dirs)
    requires cmd.RemountCmd? ==> s.vol.geo.tableCount >= 2
    requires IsFile(s.vol, dirs, t) && !CommandTouches(s, cmd, t)
    ensures SameFile(s.vol, Step(s, cmd).vol, dirs, t)
  {
    StepInOrderIff(s, dirs, cmd);
    match cmd
    case DeleteCmd(d) => DeleteSparesFile(s.vol, dirs, Convert(s.cwd, d), t);
    case UndeleteCmd(d) =>
      UndeleteTarget(s.vol, dirs, s.cwd, d);
      UndeleteSparesFile(s.vol, dirs, Masked(s, d), FixedChar(d), t);
    case CdCmd(d) => FileReadable(s.vol, dirs, t);
    case RemountCmd =>
      RemountKeepsInv(s.vol, dirs);
      RemountSparesFile(s.vol, dirs, t);
  }

  /** Over a whole run, a file that no command is about keeps its record, chain and bytes. */
  lemma {:induction false} RunSparesFile(s: Session, dirs: Dirs, cmds: seq<Command>, t: Slot)
    requires InOrder(s, dirs) && StaysInOrder(s, dirs, cmds) && Run(s, cmds).Some?
    requires RemountCmd in cmds ==> s.vol.geo.tableCount >= 2
    requires IsFile(s.vol, dirs, t) && Spared(s, cmds, t)
    ensures SameFile(s.vol, Run(s, cmds).value.vol, dirs, t)
    decreases |cmds|
  {
    if cmds == [] {
      FileReadable(s.vol, dirs, t);
    } else {
      StepInOrderIff(s, dirs, cmds[0]);
      StepSparesFile(s, dirs, cmds[0], t);
      RunSparesFile(Step(s, cmds[0]), dirs, cmds[1..], t);
    }
  }

  // ----- deleting what is deleted -----

  /** Deleting a deleted file changes no abstract cell and no byte; nothing at all if its entries are zero. */
  lemma DeleteTwice(v: Vol, dirs: Dirs, path: seq<byte>)
    requires Inv(v, dirs) && DeleteDefined(v, path) && Find(v, path).Found? && IsDeleted(Find(v, path).rec)
    ensures var w, f := Delete(v, path), First(v, Find(v, path).rec);
            && Cells(w) == Cells(v) && w == v.(fat := w.fat, bak := w.bak)
            && (f == 0 || (f < |v.fat| && v.fat[f] == 0 && v.bak[f] == 0) ==> w == v)
  {
    var p, e := DeleteParts(v, dirs, path);
    var s :| IsSlot(v, dirs, s) && RecAt(v, s) == e;
    assert SlotOk(v, dirs, s);
    ReleaseNothing(v, dirs, First(v, e));
    if Marks(v, p, e) {
      RemarkDeleted(v, dirs, Release(v, First(v, e)), DirOf(v, p).value, e);
    }
  }

  /** Marking a record that has the mark changes no byte. */
  lemma RemarkDeleted(v: Vol, dirs: Dirs, v1: Vol, q: Place, e: Record)
    requires Inv(v, dirs) && Retabled(v, v1) && InDirs(dirs, q) && IsDeleted(e)
    ensures Edited(v, v1, q, e, DELETED) == v1
  {
    MarkSame(Buffer(v, q), e);
    if q.Sub? {
      DirOnDisk(v, dirs, q);
      OnDiskAnyTable(v, v1, q.cluster);
      PutSame(v1, q.cluster);
    }
  }

  lemma MarkSame(buf: seq<byte>, e: Record)
    ensures Mark(buf, e, e[0]) == buf
  {
    forall k | 0 <= k < |buf| && k % 32 == 0 && k / 32 < Count(buf) && Rec(buf, k / 32) == e
      ensures buf[k] == e[0]
    {
      assert buf[k] == Rec(buf, k / 32)[0];
    }
  }
}
