/**
 * Who owns which cluster. Records lie in places: the root directory, or one cluster of a
 * directory's chain. The invariant says that live records own disjoint chains, deleted ones a
 * free first cluster, and that directory records lead to the chains of known directories.
 */
module Ownership {
  import opened Bytes
  import opened FatCells
  import opened Chains
  import opened Records
  import opened Paths
  import opened Volumes
  import opened Directories
  import opened Layout

  datatype Place = Root | Sub(cluster: nat)

  datatype Slot = Slot(place: Place, index: nat)

  /** The clusters of the volume's directories; a deleted directory's stay in the set. */
  type Dirs = set<nat>

  predicate InDirs(dirs: Dirs, p: Place) {
    p.Root? || p.cluster in dirs
  }

  /** The bytes of a place. */
  function Buffer(v: Vol, p: Place): seq<byte> {
    match p
    case Root => v.root
    case Sub(d) => if OnDisk(v, d) then Cluster(v, d) else []
  }

  /** On FAT32 the root directory occupies a data cluster. */
  predicate IsRootCluster(v: Vol, c: nat) {
    v.geo.kind == Fat32 && c == v.geo.rootCluster
  }

  /** A directory's chain ends, and consists of directory clusters. */
  ghost predicate DirCluster(v: Vol, dirs: Dirs, d: nat) {
    && IsDataCluster(v, d) && !IsRootCluster(v, d) && Walkable(Cells(v), d)
    && (Next(Cells(v), d) == 0 || Next(Cells(v), d) in dirs)
  }

  ghost predicate DirsOk(v: Vol, dirs: Dirs) {
    forall d :: d in dirs ==> DirCluster(v, dirs, d)
  }

  predicate IsSlot(v: Vol, dirs: Dirs, s: Slot) {
    InDirs(dirs, s.place) && s.index < Count(Buffer(v, s.place))
  }

  function RecAt(v: Vol, s: Slot): Record
    requires s.index < Count(Buffer(v, s.place))
  {
    Rec(Buffer(v, s.place), s.index)
  }

  /** The "." and ".." of a directory. */
  predicate IsDot(r: Record) {
    IsDirectory(r) && r[0] == DOT
  }

  /** Records that name a file or a directory: not unused, not a label or long-name part, not "." or "..". */
  predicate Real(r: Record) {
    r[0] != 0 && (IsDirectory(r) || !IsSpecial(r)) && !IsDot(r)
  }

  /** Cluster `x` is claimed by `r`: on its chain, or its first cluster if it is deleted. */
  ghost predicate Owns(v: Vol, r: Record, x: nat) {
    && x != 0
    && if IsDeleted(r) then x == First(v, r)
       else Walkable(Cells(v), First(v, r)) && x in Walk(Cells(v), First(v, r))
  }

  /** What a real record's first cluster must be like. */
  ghost predicate RecordOk(v: Vol, dirs: Dirs, r: Record) {
    var c := First(v, r);
    c != 0 ==>
      && IsDataCluster(v, c)
      && (IsDirectory(r) ==> c in dirs)
      && (if IsDeleted(r) then Cells(v)[c] == Free else LiveChain(v, c))
      && (forall x :: Owns(v, r, x) ==> !IsRootCluster(v, x) && (!IsDirectory(r) ==> x !in dirs))
  }

  /** A chain that ends, over allocated data clusters. */
  ghost predicate LiveChain(v: Vol, c: nat) {
    && Walkable(Cells(v), c)
    && forall x :: x in Walk(Cells(v), c) ==> IsDataCluster(v, x) && Cells(v)[x] != Free
  }

  /** No cluster is claimed by two records. */
  ghost predicate Disjoint(v: Vol, dirs: Dirs) {
    forall a, b, x :: IsSlot(v, dirs, a) && IsSlot(v, dirs, b) && a != b
                      && Real(RecAt(v, a)) && Real(RecAt(v, b))
                      ==> !(Owns(v, RecAt(v, a), x) && Owns(v, RecAt(v, b), x))
  }

  /** Every directory record, "." and ".." included, leads to a known directory or nowhere. */
  predicate Links(v: Vol, dirs: Dirs, r: Record) {
    r[0] != 0 && IsDirectory(r) ==> First(v, r) == 0 || First(v, r) in dirs
  }

  /** Slot `a` holds the entry, live or deleted, of the directory that starts at `d`. */
  predicate IsEntry(v: Vol, dirs: Dirs, a: Slot, d: nat) {
    IsSlot(v, dirs, a) && Real(RecAt(v, a)) && IsDirectory(RecAt(v, a)) && First(v, RecAt(v, a)) == d
  }

  ghost predicate HasEntry(v: Vol, dirs: Dirs, d: nat) {
    exists a :: IsEntry(v, dirs, a, d)
  }

  /**
   * A record in order; an entry is not inside the directory it names, and "." and ".." lead to a
   * directory with an entry.
   */
  ghost predicate SlotOk(v: Vol, dirs: Dirs, s: Slot)
    requires s.index < Count(Buffer(v, s.place))
  {
    var r := RecAt(v, s);
    && Links(v, dirs, r)
    && (Real(r) ==> RecordOk(v, dirs, r))
    && (Real(r) && s.place.Sub? ==> !Owns(v, r, s.place.cluster))
    && (IsDot(r) && First(v, r) != 0 ==> HasEntry(v, dirs, First(v, r)))
  }

  ghost predicate Inv(v: Vol, dirs: Dirs) {
    && Laid(v) && Shaped(v) && DirsOk(v, dirs)
    && (forall s :: IsSlot(v, dirs, s) ==> SlotOk(v, dirs, s))
    && Disjoint(v, dirs)
  }

  lemma OwnerUnique(v: Vol, dirs: Dirs, a: Slot, b: Slot, x: nat)
    requires Inv(v, dirs) && IsSlot(v, dirs, a) && IsSlot(v, dirs, b)
    requires Real(RecAt(v, a)) && Real(RecAt(v, b)) && Owns(v, RecAt(v, a), x) && Owns(v, RecAt(v, b), x)
    ensures a == b
  {
    assert Disjoint(v, dirs);
  }

  lemma OwnsFirst(v: Vol, dirs: Dirs, r: Record)
    requires RecordOk(v, dirs, r) && First(v, r) != 0
    ensures Owns(v, r, First(v, r))
  {
    if !IsDeleted(r) {
      WalkStep(Cells(v), First(v, r));
    }
  }

  /** A record without a first cluster claims nothing. */
  lemma OwnsNothing(v: Vol, r: Record, x: nat)
    requires First(v, r) == 0
    ensures !Owns(v, r, x)
  {
    NoWalk(v);
  }

  lemma NoWalk(v: Vol)
    ensures Readable(v, 0) && Walk(Cells(v), 0) == []
  {
    WalkIs(Cells(v), 0, []);
  }

  /** Slot `s` holds the same record, or is none in either volume. */
  predicate SameSlot(v: Vol, w: Vol, dirs: Dirs, s: Slot) {
    (IsSlot(w, dirs, s) <==> IsSlot(v, dirs, s)) && (IsSlot(v, dirs, s) ==> RecAt(w, s) == RecAt(v, s))
  }

  lemma SameEntries(v: Vol, w: Vol, dirs: Dirs, d: nat)
    requires HasEntry(v, dirs, d) && w.geo == v.geo
    requires forall s :: SameSlot(v, w, dirs, s)
    ensures HasEntry(w, dirs, d)
  {
    var a :| IsEntry(v, dirs, a, d);
    assert SameSlot(v, w, dirs, a);
    assert IsEntry(w, dirs, a, d);
  }

  /** A volume with the same chains and the same records in the same slots. */
  lemma SameRecords(v: Vol, w: Vol, dirs: Dirs)
    requires Inv(v, dirs) && w == v.(fat := w.fat, bak := w.bak, disk := w.disk) && Shaped(w)
    requires Cells(w) == Cells(v) && |w.disk| == |v.disk|
    requires forall s :: SameSlot(v, w, dirs, s)
    ensures Inv(w, dirs)
  {
    assert forall r, x :: Owns(w, r, x) <==> Owns(v, r, x);
    forall s | IsSlot(w, dirs, s)
      ensures SlotOk(w, dirs, s)
    {
      assert SameSlot(v, w, dirs, s) && SlotOk(v, dirs, s);
      if IsDot(RecAt(v, s)) && First(v, RecAt(v, s)) != 0 {
        SameEntries(v, w, dirs, First(v, RecAt(v, s)));
      }
    }
    forall a, b, x | IsSlot(w, dirs, a) && IsSlot(w, dirs, b) && a != b && Real(RecAt(w, a)) && Real(RecAt(w, b))
      ensures !(Owns(w, RecAt(w, a), x) && Owns(w, RecAt(w, b), x))
    {
      assert SameSlot(v, w, dirs, a) && SameSlot(v, w, dirs, b);
    }
    assert forall d :: d in dirs ==> DirCluster(v, dirs, d);
  }

  // ----- directories as chains -----

  lemma {:induction false} WalkInDirs(v: Vol, dirs: Dirs, d: nat, s: seq<nat>)
    requires DirsOk(v, dirs) && (d == 0 || d in dirs) && IsWalk(Cells(v), d, s)
    ensures forall x :: x in s ==> x in dirs
    decreases |s|
  {
    if d != 0 {
      assert DirCluster(v, dirs, d);
      WalkInDirs(v, dirs, Next(Cells(v), d), s[1..]);
      assert s == [d] + s[1..];
    }
  }

  lemma DirWalk(v: Vol, dirs: Dirs, d: nat)
    requires Laid(v) && DirsOk(v, dirs) && d in dirs
    ensures Readable(v, d) && d != 0 && Walk(Cells(v), d) != [] && Walk(Cells(v), d)[0] == d
    ensures forall x :: x in Walk(Cells(v), d) ==> x in dirs && IsDataCluster(v, x)
  {
    assert DirCluster(v, dirs, d);
    var s := Walk(Cells(v), d);
    WalkInDirs(v, dirs, d, s);
    forall x | x in s
      ensures IsDataCluster(v, x)
    {
      assert DirCluster(v, dirs, x);
    }
    AllLaid(v, s);
  }

  /** The records of the directory that starts at place `p`, as the tool reads them. */
  ghost function FolderOf(v: Vol, p: Place): seq<byte> {
    match p
    case Root => v.root
    case Sub(d) => if Readable(v, d) then Content(v, d) else []
  }

  function PerCluster(v: Vol): nat {
    Size(v) / 32
  }

  /** Where record `i` of the chain `s` lies. */
  function Located(v: Vol, s: seq<nat>, i: nat): Slot
    requires s != []
  {
    if |s| == 1 || i < PerCluster(v) then Slot(Sub(s[0]), i) else Located(v, s[1..], i - PerCluster(v))
  }

  lemma RecOfSuffix(a: seq<byte>, b: seq<byte>, n: nat, i: nat)
    requires |a| == 32 * n && i < Count(a + b)
    ensures i < n ==> i < Count(a) && Rec(a + b, i) == Rec(a, i)
    ensures i >= n ==> i - n < Count(b) && Rec(a + b, i) == Rec(b, i - n)
  {
  }

  lemma {:induction false} LocatedRec(v: Vol, s: seq<nat>, i: nat)
    requires AllOnDisk(v, s) && Size(v) % 32 == 0 && i < Count(Data(v, s))
    ensures s != []
    ensures var t := Located(v, s, i);
            && t.place.Sub? && t.place.cluster in s && OnDisk(v, t.place.cluster)
            && t.index < Count(Cluster(v, t.place.cluster))
            && Rec(Cluster(v, t.place.cluster), t.index) == Rec(Data(v, s), i)
    decreases |s|
  {
    if s != [] {
      assert s[0] in s;
      RecOfSuffix(Cluster(v, s[0]), Data(v, s[1..]), PerCluster(v), i);
      if i >= PerCluster(v) {
        LocatedRec(v, s[1..], i - PerCluster(v));
      }
    }
  }

  /** Where record `i` of a directory lies. */
  ghost function SlotAt(v: Vol, p: Place, i: nat): Slot
    requires i < Count(FolderOf(v, p))
  {
    match p
    case Root => Slot(Root, i)
    case Sub(d) => Located(v, Walk(Cells(v), d), i)
  }

  lemma SlotAtOk(v: Vol, dirs: Dirs, p: Place, i: nat)
    requires Inv(v, dirs) && InDirs(dirs, p) && i < Count(FolderOf(v, p))
    ensures IsSlot(v, dirs, SlotAt(v, p, i)) && RecAt(v, SlotAt(v, p, i)) == Rec(FolderOf(v, p), i)
    ensures p.Sub? ==> SlotAt(v, p, i).place.Sub? && SlotAt(v, p, i).place.cluster in Walk(Cells(v), p.cluster)
    ensures p.Root? ==> SlotAt(v, p, i) == Slot(Root, i)
  {
    if p.Sub? {
      DirWalk(v, dirs, p.cluster);
      LocatedRec(v, Walk(Cells(v), p.cluster), i);
    }
  }

  /** The directory at `p` has at most one cluster. */
  predicate OneCluster(v: Vol, p: Place) {
    p.Sub? && p.cluster < |v.fat| ==> Next(Cells(v), p.cluster) == 0
  }

  lemma OneClusterFolder(v: Vol, dirs: Dirs, p: Place)
    requires Laid(v) && DirsOk(v, dirs) && InDirs(dirs, p) && OneCluster(v, p)
    ensures FolderOf(v, p) == Buffer(v, p)
    ensures forall i :: 0 <= i < Count(FolderOf(v, p)) ==> SlotAt(v, p, i) == Slot(p, i)
    ensures p.Sub? ==> Readable(v, p.cluster) && Walk(Cells(v), p.cluster) == [p.cluster]
  {
    if p.Sub? {
      var d := p.cluster;
      DirWalk(v, dirs, d);
      WalkStep(Cells(v), d);
      NoWalk(v);
      assert Walk(Cells(v), d) == [d];
      assert Data(v, [d]) == Cluster(v, d) + Data(v, []);
    }
  }

  // ----- lookup -----

  /** `r` is the record of some slot. */
  ghost predicate IsRecord(v: Vol, dirs: Dirs, r: Record) {
    exists s :: IsSlot(v, dirs, s) && RecAt(v, s) == r
  }


  /** A record that answers to a name is no unused record, label or long-name part. */
  lemma MatchIsNamed(r: Record, x: Token)
    requires Matches(r, x)
    ensures r[0] != 0 && (IsDirectory(r) || !IsSpecial(r))
  {
  }

  /** A record found in directory `p`. */
  lemma SearchSlot(v: Vol, dirs: Dirs, p: Place, x: Token)
    requires Inv(v, dirs) && InDirs(dirs, p) && Search(FolderOf(v, p), x).Some?
    ensures var r := Rec(FolderOf(v, p), Search(FolderOf(v, p), x).value);
            && IsRecord(v, dirs, r) && Matches(r, x)
            && (IsDirectory(r) ==> First(v, r) == 0 || First(v, r) in dirs)
  {
    var i := Search(FolderOf(v, p), x).value;
    SlotAtOk(v, dirs, p, i);
    assert SlotOk(v, dirs, SlotAt(v, p, i));
    MatchIsNamed(Rec(FolderOf(v, p), i), x);
  }

  /** A lookup that has not gone astray, and has found a record that answers to the last name. */
  ghost predicate FoundOk(v: Vol, dirs: Dirs, found: Lookup, x: Token) {
    found != Undefined && (found.Found? ==> IsRecord(v, dirs, found.rec) && Matches(found.rec, x))
  }

  /** On a volume in good order lookup never runs astray, and finds a record of some slot. */
  lemma {:induction false} ResolveSlot(v: Vol, dirs: Dirs, p: Place, ts: seq<Token>, found: Lookup)
    requires Inv(v, dirs) && InDirs(dirs, p) && ts != [] && found == Resolve(v, FolderOf(v, p), ts)
    ensures FoundOk(v, dirs, found, ts[|ts| - 1])
    decreases |ts|
  {
    if |ts| == 1 {
      StopUnfold(v, FolderOf(v, p), ts);
      StopsOk(v, dirs, p, ts[0], found);
    } else {
      var next := ResolveGoesOn(v, dirs, p, ts);
      if next.Some? {
        ResolveSlot(v, dirs, Sub(next.value), ts[1..], found);
        assert ts[1..][|ts[1..]| - 1] == ts[|ts| - 1];
      }
    }
  }

  lemma StopsOk(v: Vol, dirs: Dirs, p: Place, x: Token, found: Lookup)
    requires Inv(v, dirs) && InDirs(dirs, p)
    requires found == match Search(FolderOf(v, p), x) case None => Missing case Some(i) => Found(Rec(FolderOf(v, p), i))
    ensures FoundOk(v, dirs, found, x)
  {
    if Search(FolderOf(v, p), x).Some? {
      SearchSlot(v, dirs, p, x);
    }
  }

  /** The directory lookup goes on in, if any. */
  lemma ResolveGoesOn(v: Vol, dirs: Dirs, p: Place, ts: seq<Token>) returns (next: Option<nat>)
    requires Inv(v, dirs) && InDirs(dirs, p) && |ts| > 1
    ensures next.None? ==> Resolve(v, FolderOf(v, p), ts) == Missing
    ensures next.Some? ==> next.value in dirs
                           && Resolve(v, FolderOf(v, p), ts) == Resolve(v, FolderOf(v, Sub(next.value)), ts[1..])
  {
    next := None;
    if Search(FolderOf(v, p), ts[0]).None? {
      StopUnfold(v, FolderOf(v, p), ts);
    } else {
      SearchSlot(v, dirs, p, ts[0]);
      var r := Rec(FolderOf(v, p), Search(FolderOf(v, p), ts[0]).value);
      EnterUnfold(v, FolderOf(v, p), ts, r);
      NoWalk(v);
      if IsDirectory(r) && First(v, r) != 0 {
        DirWalk(v, dirs, First(v, r));
        next := Some(First(v, r));
      }
    }
  }

  // ----- lookup by places -----

  /** The directory that `token` names in directory `p`. */
  ghost function Descend(v: Vol, p: Place, token: Token): Option<Place> {
    match Search(FolderOf(v, p), token)
    case None => None
    case Some(i) =>
      var r := Rec(FolderOf(v, p), i);
      if IsDirectory(r) && First(v, r) != 0 then Some(Sub(First(v, r))) else None
  }

  ghost function Descends(v: Vol): (Place, Token) -> Option<Place> {
    (p, y) => Descend(v, p, y)
  }

  /** Where steps lead from the root. */
  ghost function Follow(step: (Place, Token) -> Option<Place>, ts: seq<Token>): Option<Place> {
    if ts == [] then Some(Root)
    else match Follow(step, ts[..|ts| - 1])
      case None => None
      case Some(p) => step(p, ts[|ts| - 1])
  }

  /** Where a list of directory names leads from the root. */
  ghost function PlaceOf(v: Vol, ts: seq<Token>): Option<Place> {
    Follow(Descends(v), ts)
  }

  lemma FollowSnoc(step: (Place, Token) -> Option<Place>, ts: seq<Token>, x: Token)
    ensures Follow(step, ts + [x]) == match Follow(step, ts) case None => None case Some(p) => step(p, x)
  {
    assert (ts + [x])[..|ts|] == ts;
  }

  lemma PlaceSnoc(v: Vol, ts: seq<Token>, x: Token)
    ensures PlaceOf(v, ts + [x]) == match PlaceOf(v, ts) case None => None case Some(p) => Descend(v, p, x)
  {
    FollowSnoc(Descends(v), ts, x);
  }

  lemma DescendInDirs(v: Vol, dirs: Dirs, p: Place, token: Token)
    requires Inv(v, dirs) && InDirs(dirs, p) && Descend(v, p, token).Some?
    ensures InDirs(dirs, Descend(v, p, token).value)
  {
    SearchSlot(v, dirs, p, token);
  }

  lemma {:induction false} PlaceInDirs(v: Vol, dirs: Dirs, ts: seq<Token>)
    requires Inv(v, dirs) && PlaceOf(v, ts).Some?
    ensures InDirs(dirs, PlaceOf(v, ts).value)
  {
    if ts != [] {
      var init, y := ts[..|ts| - 1], ts[|ts| - 1];
      assert init + [y] == ts;
      PlaceSnoc(v, init, y);
      PlaceInDirs(v, dirs, init);
      DescendInDirs(v, dirs, PlaceOf(v, init).value, y);
    }
  }

  /** What `find` returns for the last token in directory `p`. */
  ghost function SearchIn(v: Vol, p: Option<Place>, x: Token): Lookup {
    match p
    case None => Missing
    case Some(q) =>
      match Search(FolderOf(v, q), x)
      case None => Missing
      case Some(i) => Found(Rec(FolderOf(v, q), i))
  }

  /** On a volume in good order `find` amounts to following directories, one name at a time. */
  lemma {:induction false} FindByPlace(v: Vol, dirs: Dirs, ts: seq<Token>, x: Token)
    requires Inv(v, dirs)
    ensures Resolve(v, v.root, ts + [x]) == SearchIn(v, PlaceOf(v, ts), x)
    decreases |ts|
  {
    if ts == [] {
      assert ts + [x] == [x];
    } else {
      var init, y := ts[..|ts| - 1], ts[|ts| - 1];
      assert ts == init + [y];
      PlaceSnoc(v, init, y);
      FindByPlace(v, dirs, init, y);
      ResolveSplit(v, v.root, ts, x);
      if SearchIn(v, PlaceOf(v, init), y).Found? {
        PlaceInDirs(v, dirs, init);
        EnterPlace(v, dirs, PlaceOf(v, init).value, y, x);
      }
    }
  }

  /** Entering the record that `y` finds in directory `p`. */
  lemma EnterPlace(v: Vol, dirs: Dirs, p: Place, y: Token, x: Token)
    requires Inv(v, dirs) && InDirs(dirs, p) && SearchIn(v, Some(p), y).Found?
    ensures Enter(v, SearchIn(v, Some(p), y).rec, [x]) == SearchIn(v, Descend(v, p, y), x)
  {
    var r := SearchIn(v, Some(p), y).rec;
    if IsDirectory(r) {
      if First(v, r) == 0 {
        NoWalk(v);
      } else {
        DescendInDirs(v, dirs, p, y);
        DirWalk(v, dirs, First(v, r));
      }
    }
  }
}
