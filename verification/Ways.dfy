/**
 * The ways from the root to a directory: one never comes back to a directory it has passed, unless
 * it uses "." or "..", and an edit does not change the way to the directory it happens in.
 */
module Ways {
  import opened Bytes
  import opened Chains
  import opened Records
  import opened Paths
  import opened Volumes
  import opened Ownership
  import opened Edits
  import opened Operations

  // ----- the directories on a path are all different -----

  /** No name on the way is "." or "..". */
  predicate NoDots(ts: seq<Token>) {
    forall y :: y in ts ==> y != [] && y[0] != DOT
  }

  /** A name that does not start with a dot is not matched by "." or "..". */
  lemma MatchIsReal(r: Record, x: Token)
    requires Matches(r, x) && x != [] && x[0] != DOT
    ensures Real(r)
  {
    MatchIsNamed(r, x);
    MatchHead(r, x);
  }

  /** The places `ps` one passes from the root, one step for each of `ts`. */
  ghost predicate IsWay<T(!new)>(step: (Place, T, Place) -> bool, ts: seq<T>, ps: seq<Place>) {
    && |ps| == |ts| + 1 && ps[0] == Root
    && forall j :: 0 <= j < |ts| ==> step(ps[j], ts[j], ps[j + 1])
  }

  lemma WaySnoc<T(!new)>(step: (Place, T, Place) -> bool, ts: seq<T>, ps: seq<Place>, x: T, q: Place)
    requires IsWay(step, ts, ps) && step(ps[|ts|], x, q)
    ensures IsWay(step, ts + [x], ps + [q])
  {
  }

  lemma WayInit<T(!new)>(step: (Place, T, Place) -> bool, ts: seq<T>, ps: seq<Place>)
    requires IsWay(step, ts, ps) && ts != []
    ensures IsWay(step, ts[..|ts| - 1], ps[..|ts|]) && step(ps[|ts| - 1], ts[|ts| - 1], ps[|ts|])
  {
    assert step(ps[|ts| - 1], ts[|ts| - 1], ps[|ts| - 1 + 1]);
  }

  lemma WayAt<T(!new)>(step: (Place, T, Place) -> bool, ts: seq<T>, ps: seq<Place>, j: nat)
    requires IsWay(step, ts, ps) && j < |ts|
    ensures step(ps[j], ts[j], ps[j + 1])
  {
  }

  ghost function Steps(step: (Place, Token) -> Option<Place>): (Place, Token, Place) -> bool {
    (p, y, q) => step(p, y) == Some(q)
  }

  lemma {:induction false} WayOf(step: (Place, Token) -> Option<Place>, ts: seq<Token>) returns (ps: seq<Place>)
    requires Follow(step, ts).Some?
    ensures IsWay(Steps(step), ts, ps) && Follow(step, ts) == Some(ps[|ts|])
  {
    if ts == [] {
      ps := [Root];
    } else {
      var init, y := ts[..|ts| - 1], ts[|ts| - 1];
      assert init + [y] == ts;
      FollowSnoc(step, init, y);
      ps := WayOf(step, init);
      WaySnoc(Steps(step), init, ps, y, Follow(step, ts).value);
      ps := ps + [Follow(step, ts).value];
    }
  }

  lemma {:induction false} WayPlace(step: (Place, Token) -> Option<Place>, ts: seq<Token>, ps: seq<Place>)
    requires IsWay(Steps(step), ts, ps)
    ensures Follow(step, ts) == Some(ps[|ts|])
    decreases |ts|
  {
    if ts != [] {
      var k := |ts| - 1;
      WayInit(Steps(step), ts, ps);
      WayPlace(step, ts[..k], ps[..k + 1]);
    }
  }

  /** Slots can be collected along the way. */
  lemma {:induction false} Collect(link: (Place, Slot, Place) -> bool, ps: seq<Place>) returns (ss: seq<Slot>)
    requires ps != [] && ps[0] == Root
    requires forall j :: 0 <= j < |ps| - 1 ==> HasLink(link, ps[j], ps[j + 1])
    ensures IsWay(link, ss, ps)
  {
    ss := [];
    if |ps| > 1 {
      var k := |ps| - 1;
      assert HasLink(link, ps[k - 1], ps[k - 1 + 1]);
      forall j | 0 <= j < k - 1
        ensures HasLink(link, ps[..k][j], ps[..k][j + 1])
      {
        assert HasLink(link, ps[j], ps[j + 1]);
      }
      ss := Collect(link, ps[..k]);
      var s :| link(ps[k - 1], s, ps[k]);
      WaySnoc(link, ss, ps[..k], s, ps[k]);
      assert ps[..k] + [ps[k]] == ps;
      ss := ss + [s];
    }
  }

  ghost predicate HasLink(link: (Place, Slot, Place) -> bool, p: Place, q: Place) {
    exists s :: link(p, s, q)
  }

  /** Slot `s` lies in the directory that starts at `p`. */
  ghost predicate InPlace(v: Vol, dirs: Dirs, s: Slot, p: Place) {
    match p
    case Root => s.place == Root
    case Sub(d) => s.place.Sub? && Walkable(Cells(v), d) && s.place.cluster in Walk(Cells(v), d)
  }

  /** The root, or a directory with an entry. */
  ghost predicate Entered(v: Vol, dirs: Dirs, p: Place) {
    InDirs(dirs, p) && (p.Sub? ==> HasEntry(v, dirs, p.cluster))
  }

  /** Slot `s`, in directory `p`, holds the entry of directory `q`. */
  ghost predicate LeadsOn(v: Vol, dirs: Dirs, p: Place, s: Slot, q: Place) {
    InPlace(v, dirs, s, p) && q.Sub? && q.cluster in dirs && IsEntry(v, dirs, s, q.cluster)
  }

  lemma StepIndex(v: Vol, p: Place, y: Token, q: Place) returns (i: nat)
    requires Descend(v, p, y) == Some(q)
    ensures i < Count(FolderOf(v, p)) && Matches(Rec(FolderOf(v, p), i), y) && IsDirectory(Rec(FolderOf(v, p), i))
    ensures First(v, Rec(FolderOf(v, p), i)) != 0 && q == Sub(First(v, Rec(FolderOf(v, p), i)))
  {
    i := Search(FolderOf(v, p), y).value;
  }

  lemma StepSlot(v: Vol, dirs: Dirs, p: Place, y: Token, q: Place) returns (s: Slot)
    requires Inv(v, dirs) && InDirs(dirs, p) && Descend(v, p, y) == Some(q) && y != [] && y[0] != DOT
    ensures LeadsOn(v, dirs, p, s, q)
  {
    var i := StepIndex(v, p, y, q);
    s := EntrySlot(v, dirs, p, i, Rec(FolderOf(v, p), i), y);
  }

  lemma EntrySlot(v: Vol, dirs: Dirs, p: Place, i: nat, r: Record, y: Token) returns (s: Slot)
    requires Inv(v, dirs) && InDirs(dirs, p) && i < Count(FolderOf(v, p)) && r == Rec(FolderOf(v, p), i)
    requires Matches(r, y) && y != [] && y[0] != DOT && IsDirectory(r) && First(v, r) != 0
    ensures LeadsOn(v, dirs, p, s, Sub(First(v, r)))
  {
    SlotAtOk(v, dirs, p, i);
    s := SlotAt(v, p, i);
    MatchIsReal(r, y);
    assert SlotOk(v, dirs, s);
    if p.Sub? {
      DirWalk(v, dirs, p.cluster);
    }
  }

  ghost function Entries(v: Vol, dirs: Dirs): (Place, Slot, Place) -> bool {
    (p, s, q) => LeadsOn(v, dirs, p, s, q)
  }

  /** Every directory on a way is the root or has an entry, "." and ".." or not. */
  lemma {:induction false} WayEntered(v: Vol, dirs: Dirs, ts: seq<Token>, ps: seq<Place>, j: nat)
    requires Inv(v, dirs) && IsWay(Steps(Descends(v)), ts, ps) && j <= |ts|
    ensures Entered(v, dirs, ps[j])
  {
    if j != 0 {
      var i := j - 1;
      WayEntered(v, dirs, ts, ps, i);
      StepEntered(v, dirs, ts, ps, i);
    }
  }

  lemma StepEntered(v: Vol, dirs: Dirs, ts: seq<Token>, ps: seq<Place>, i: nat)
    requires Inv(v, dirs) && IsWay(Steps(Descends(v)), ts, ps) && i < |ts| && InDirs(dirs, ps[i])
    ensures Entered(v, dirs, ps[i + 1])
  {
    WayAt(Steps(Descends(v)), ts, ps, i);
    DescendEntered(v, dirs, ps[i], ts[i], ps[i + 1]);
  }

  lemma DescendEntered(v: Vol, dirs: Dirs, p: Place, y: Token, q: Place)
    requires Inv(v, dirs) && InDirs(dirs, p) && Descend(v, p, y) == Some(q)
    ensures Entered(v, dirs, q)
  {
    SearchSlot(v, dirs, p, y);
    RecordEntered(v, dirs, Rec(FolderOf(v, p), Search(FolderOf(v, p), y).value), y, q);
  }

  lemma RecordEntered(v: Vol, dirs: Dirs, r: Record, y: Token, q: Place)
    requires Inv(v, dirs) && IsRecord(v, dirs, r) && Matches(r, y)
    requires IsDirectory(r) && First(v, r) != 0 && q == Sub(First(v, r))
    ensures Entered(v, dirs, q)
  {
    MatchIsNamed(r, y);
    DirFound(v, dirs, r);
  }

  /** The same way as a chain of entries: slot `ss[j]` leads from `ps[j]` to `ps[j + 1]`. */
  lemma ChainOf(v: Vol, dirs: Dirs, ts: seq<Token>, ps: seq<Place>) returns (ss: seq<Slot>)
    requires Inv(v, dirs) && NoDots(ts) && IsWay(Steps(Descends(v)), ts, ps)
    ensures |ss| == |ts| && IsWay(Entries(v, dirs), ss, ps)
  {
    forall j | 0 <= j < |ps| - 1
      ensures HasLink(Entries(v, dirs), ps[j], ps[j + 1])
    {
      WayEntered(v, dirs, ts, ps, j);
      WayAt(Steps(Descends(v)), ts, ps, j);
      assert ts[j] in ts;
      var s := StepSlot(v, dirs, ps[j], ts[j], ps[j + 1]);
      assert Entries(v, dirs)(ps[j], s, ps[j + 1]);
    }
    ss := Collect(Entries(v, dirs), ps);
  }

  lemma ChainEntered(v: Vol, dirs: Dirs, ss: seq<Slot>, ps: seq<Place>, j: nat)
    requires IsWay(Entries(v, dirs), ss, ps) && j <= |ss|
    ensures Entered(v, dirs, ps[j])
  {
    if j != 0 {
      WayAt(Entries(v, dirs), ss, ps, j - 1);
      EntryEnters(v, dirs, ps[j - 1], ss[j - 1], ps[j]);
    }
  }

  lemma EntryEnters(v: Vol, dirs: Dirs, p: Place, s: Slot, q: Place)
    requires LeadsOn(v, dirs, p, s, q)
    ensures Entered(v, dirs, q)
  {
  }

  /** The entry of a directory claims the directory's whole chain. */
  lemma EntryOwnsChain(v: Vol, dirs: Dirs, s: Slot, d: nat, x: nat)
    requires Inv(v, dirs) && IsEntry(v, dirs, s, d) && d in dirs && Walkable(Cells(v), d) && x in Walk(Cells(v), d)
    ensures Owns(v, RecAt(v, s), x)
  {
    assert SlotOk(v, dirs, s);
    WalkDistinct(Cells(v), d, Walk(Cells(v), d));
    if IsDeleted(RecAt(v, s)) {
      FreeWalk(Cells(v), d);
    }
  }

  /** Directories with a common cluster are one. */
  lemma DirByCluster(v: Vol, dirs: Dirs, c: nat, d: nat, x: nat)
    requires Inv(v, dirs) && Entered(v, dirs, Sub(c)) && Entered(v, dirs, Sub(d))
    requires Walkable(Cells(v), c) && x in Walk(Cells(v), c)
    requires Walkable(Cells(v), d) && x in Walk(Cells(v), d)
    ensures c == d
  {
    var a :| IsEntry(v, dirs, a, c);
    var b :| IsEntry(v, dirs, b, d);
    EntryOwnsChain(v, dirs, a, c, x);
    EntryOwnsChain(v, dirs, b, d, x);
    OwnerUnique(v, dirs, a, b, x);
  }

  /** A slot lies in one directory only. */
  lemma OnePlace(v: Vol, dirs: Dirs, p: Place, q: Place, s: Slot)
    requires Inv(v, dirs) && Entered(v, dirs, p) && Entered(v, dirs, q)
    requires InPlace(v, dirs, s, p) && InPlace(v, dirs, s, q)
    ensures p == q
  {
    if s.place.Sub? {
      DirByCluster(v, dirs, p.cluster, q.cluster, s.place.cluster);
    }
  }

  /** Two steps to one directory come from one directory. */
  lemma SameOrigin(v: Vol, dirs: Dirs, p: Place, s: Slot, p': Place, s': Slot, q: Place)
    requires Inv(v, dirs) && Entered(v, dirs, p) && Entered(v, dirs, p')
    requires LeadsOn(v, dirs, p, s, q) && LeadsOn(v, dirs, p', s', q)
    ensures p == p'
  {
    assert DirCluster(v, dirs, q.cluster);
    OneEntry(v, dirs, s, s', q.cluster);
    OnePlace(v, dirs, p, p', s);
  }

  /** Equal places come from equal places. */
  predicate SameBefore(ps: seq<Place>, i: nat, j: nat) {
    0 < i < |ps| && 0 < j < |ps| && ps[i] == ps[j] ==> ps[i - 1] == ps[j - 1]
  }

  lemma {:induction false} AllDistinct(ps: seq<Place>, i: nat, j: nat)
    requires forall a: nat, b: nat :: SameBefore(ps, a, b)
    requires forall b: nat :: 0 < b < |ps| ==> ps[b].Sub?
    requires i < j < |ps| && ps[0] == Root
    ensures ps[i] != ps[j]
  {
    if i != 0 {
      AllDistinct(ps, i - 1, j - 1);
      assert SameBefore(ps, i, j);
    }
  }

  lemma ChainLink(v: Vol, dirs: Dirs, ss: seq<Slot>, ps: seq<Place>, i: nat)
    requires IsWay(Entries(v, dirs), ss, ps) && i < |ss|
    ensures Entered(v, dirs, ps[i]) && LeadsOn(v, dirs, ps[i], ss[i], ps[i + 1])
  {
    WayAt(Entries(v, dirs), ss, ps, i);
    ChainEntered(v, dirs, ss, ps, i);
  }

  lemma ChainBefore(v: Vol, dirs: Dirs, ss: seq<Slot>, ps: seq<Place>, i: nat, j: nat)
    requires Inv(v, dirs) && IsWay(Entries(v, dirs), ss, ps)
    ensures SameBefore(ps, i, j)
  {
    if 0 < i < |ps| && 0 < j < |ps| && ps[i] == ps[j] {
      SameBeforeAt(v, dirs, ss, ps, i - 1, j - 1, ps[i]);
    }
  }

  lemma SameBeforeAt(v: Vol, dirs: Dirs, ss: seq<Slot>, ps: seq<Place>, i: nat, j: nat, q: Place)
    requires Inv(v, dirs) && IsWay(Entries(v, dirs), ss, ps) && i < |ss| && j < |ss| && ps[i + 1] == q == ps[j + 1]
    ensures ps[i] == ps[j]
  {
    ChainLink(v, dirs, ss, ps, i);
    ChainLink(v, dirs, ss, ps, j);
    SameOrigin(v, dirs, ps[i], ss[i], ps[j], ss[j], q);
  }

  /** Following entries never comes back to a directory it has passed. */
  lemma PlacesDistinct(v: Vol, dirs: Dirs, ss: seq<Slot>, ps: seq<Place>, i: nat, j: nat)
    requires Inv(v, dirs) && IsWay(Entries(v, dirs), ss, ps) && i < j <= |ss|
    ensures ps[i] != ps[j]
  {
    forall a: nat, b: nat
      ensures SameBefore(ps, a, b)
    {
      ChainBefore(v, dirs, ss, ps, a, b);
    }
    forall b: nat | 0 < b < |ps|
      ensures ps[b].Sub?
    {
      WayAt(Entries(v, dirs), ss, ps, b - 1);
    }
    AllDistinct(ps, i, j);
  }

  // ----- an edit does not change the way to it -----

  /** An edit whose target's clusters and whose place are not a directory's leaves that directory alone. */
  lemma FolderKept(v: Vol, dirs: Dirs, v1: Vol, q: Place, e: Record, c: byte, p: Place)
    requires Editable(v, dirs, v1, q, e, c) && InDirs(dirs, p) && p != q
    requires p.Sub? ==> Readable(v, p.cluster)
    requires p.Sub? ==> forall x :: x in Walk(Cells(v), p.cluster) ==> !Owns(v, e, x) && q != Sub(x)
    ensures FolderOf(Edited(v, v1, q, e, c), p) == FolderOf(v, p)
  {
    var w := Edited(v, v1, q, e, c);
    EditedCells(v, dirs, v1, q, e, c);
    EditedShape(v, dirs, v1, q, e, c);
    if p.Root? {
      EditedBuffer(v, dirs, v1, q, e, c, p);
    } else {
      var s := Walk(Cells(v), p.cluster);
      ChainKept(v, v1, e, p.cluster);
      DirWalk(v, dirs, p.cluster);
      forall x | x in s
        ensures OnDisk(v, x) && OnDisk(w, x) && Cluster(w, x) == Cluster(v, x)
      {
        EditedBuffer(v, dirs, v1, q, e, c, Sub(x));
        DirOnDisk(v, dirs, Sub(x));
        OnDiskAnyTable(v, v1, x);
      }
      SameClusters(v, w, s);
    }
  }

  /**
   * A step the edit cannot change: not in the directory that the target names, and in the
   * target's own directory not by a name that it answers to, before or after.
   */
  ghost predicate AvoidsStep(v: Vol, q: Place, e: Record, c: byte, p: Place, y: Token) {
    p != Sub(First(v, e)) && (p == q ==> !Matches(e, y) && !Matches(Renamed(e, c), y))
  }

  /** The way along `ts` consists of such steps. */
  ghost predicate Avoids(v: Vol, ts: seq<Token>, q: Place, e: Record, c: byte) {
    forall j, p :: 0 <= j < |ts| && PlaceOf(v, ts[..j]) == Some(p) ==> AvoidsStep(v, q, e, c, p, ts[j])
  }

  /** No cluster of a directory is claimed by a target other than its own entry. */
  lemma NotClaimed(v: Vol, dirs: Dirs, q: Place, e: Record, p: Place, x: nat)
    requires Inv(v, dirs) && Entered(v, dirs, p) && p.Sub? && IsTarget(v, dirs, q, e) && p != Sub(First(v, e))
    requires Readable(v, p.cluster) && x in Walk(Cells(v), p.cluster)
    ensures !Owns(v, e, x)
  {
    if First(v, e) == 0 {
      OwnsNothing(v, e, x);
    } else if Owns(v, e, x) {
      var a :| IsEntry(v, dirs, a, p.cluster);
      var t :| IsSlot(v, dirs, t) && t.place == q && RecAt(v, t) == e;
      EntryOwnsChain(v, dirs, a, p.cluster, x);
      OwnerUnique(v, dirs, a, t, x);
    }
  }

  /** A directory does not start inside another one. */
  lemma NotInside(v: Vol, dirs: Dirs, p: Place, q: Place, x: nat)
    requires Inv(v, dirs) && Entered(v, dirs, p) && Entered(v, dirs, q) && p != q && p.Sub?
    requires Readable(v, p.cluster) && x in Walk(Cells(v), p.cluster)
    ensures q != Sub(x)
  {
    if q == Sub(x) {
      DirWalk(v, dirs, x);
      DirByCluster(v, dirs, p.cluster, x, x);
    }
  }

  /** A directory that is not the target's leads on as before. */
  lemma StepElsewhere(v: Vol, dirs: Dirs, v1: Vol, q: Place, e: Record, c: byte, p: Place, y: Token)
    requires Editable(v, dirs, v1, q, e, c) && Entered(v, dirs, p) && Entered(v, dirs, q)
    requires p != q && p != Sub(First(v, e))
    ensures Descend(Edited(v, v1, q, e, c), p, y) == Descend(v, p, y)
  {
    if p.Sub? {
      DirWalk(v, dirs, p.cluster);
      forall x | x in Walk(Cells(v), p.cluster)
        ensures !Owns(v, e, x) && q != Sub(x)
      {
        NotClaimed(v, dirs, q, e, p, x);
        NotInside(v, dirs, p, q, x);
      }
    }
    FolderKept(v, dirs, v1, q, e, c, p);
    EditedShape(v, dirs, v1, q, e, c);
    DescendKept(v, Edited(v, v1, q, e, c), p, y);
  }

  /** Marking does not change what is found by a name that the marked records do not answer to. */
  lemma SearchMarked(buf: seq<byte>, e: Record, c: byte, y: Token)
    requires !Matches(e, y) && !Matches(Renamed(e, c), y)
    ensures Search(Mark(buf, e, c), y) == Search(buf, y)
    ensures Search(buf, y).Some? ==> Rec(Mark(buf, e, c), Search(buf, y).value) == Rec(buf, Search(buf, y).value)
  {
    forall j | 0 <= j < Count(buf)
      ensures Matches(Rec(Mark(buf, e, c), j), y) <==> Matches(Rec(buf, j), y)
    {
      MarkRec(buf, e, c, j);
    }
    if Search(buf, y).Some? {
      MarkRec(buf, e, c, Search(buf, y).value);
      SearchFinds(Mark(buf, e, c), y, Search(buf, y).value);
    }
  }

  /** The directory that is edited still has one cluster, and holds the marked records. */
  lemma EditedFolder(v: Vol, dirs: Dirs, v1: Vol, q: Place, e: Record, c: byte)
    requires Editable(v, dirs, v1, q, e, c) && OneCluster(v, q)
    ensures OneCluster(Edited(v, v1, q, e, c), q)
    ensures FolderOf(Edited(v, v1, q, e, c), q) == Mark(FolderOf(v, q), e, c)
    ensures Buffer(Edited(v, v1, q, e, c), q) == Mark(Buffer(v, q), e, c)
  {
    var w := Edited(v, v1, q, e, c);
    EditedBuffer(v, dirs, v1, q, e, c, q);
    EditedCells(v, dirs, v1, q, e, c);
    EditedShape(v, dirs, v1, q, e, c);
    EditKeepsInv(v, dirs, v1, q, e, c);
    OneClusterFolder(v, dirs, q);
    if q.Sub? {
      DirOnDisk(v, dirs, q);
      assert CellKept(v, v1, e, q.cluster);
    }
    OneClusterFolder(w, dirs, q);
  }

  /** The target's own directory leads on as before, by another name. */
  lemma StepInPlace(v: Vol, dirs: Dirs, v1: Vol, q: Place, e: Record, c: byte, y: Token)
    requires Editable(v, dirs, v1, q, e, c) && OneCluster(v, q) && !Matches(e, y) && !Matches(Renamed(e, c), y)
    ensures Descend(Edited(v, v1, q, e, c), q, y) == Descend(v, q, y)
  {
    EditedFolder(v, dirs, v1, q, e, c);
    EditedShape(v, dirs, v1, q, e, c);
    SearchMarked(FolderOf(v, q), e, c, y);
  }

  lemma WayPrefix(step: (Place, Token) -> Option<Place>, ts: seq<Token>, ps: seq<Place>, j: nat)
    requires IsWay(Steps(step), ts, ps) && j <= |ts|
    ensures Follow(step, ts[..j]) == Some(ps[j])
  {
    forall i | 0 <= i < j
      ensures Steps(step)(ps[..j + 1][i], ts[..j][i], ps[..j + 1][i + 1])
    {
      WayAt(Steps(step), ts, ps, i);
    }
    WayPlace(step, ts[..j], ps[..j + 1]);
  }

  /** An edit in the last directory does not change the way to it, if that avoids the target. */
  lemma PlaceKept(v: Vol, dirs: Dirs, v1: Vol, q: Place, e: Record, c: byte, ts: seq<Token>)
    requires Editable(v, dirs, v1, q, e, c) && OneCluster(v, q) && PlaceOf(v, ts) == Some(q) && Avoids(v, ts, q, e, c)
    ensures PlaceOf(Edited(v, v1, q, e, c), ts) == Some(q)
    ensures forall j: nat :: j <= |ts| ==> PlaceOf(Edited(v, v1, q, e, c), ts[..j]) == PlaceOf(v, ts[..j])
  {
    var w := Edited(v, v1, q, e, c);
    var ps := WayOf(Descends(v), ts);
    WayEntered(v, dirs, ts, ps, |ts|);
    forall j | 0 <= j < |ts|
      ensures Steps(Descends(w))(ps[j], ts[j], ps[j + 1])
    {
      WayAt(Steps(Descends(v)), ts, ps, j);
      WayPrefix(Descends(v), ts, ps, j);
      WayEntered(v, dirs, ts, ps, j);
      StepKept(v, dirs, v1, q, e, c, ps[j], ts[j]);
    }
    WayPlace(Descends(w), ts, ps);
    forall j: nat | j <= |ts|
      ensures PlaceOf(w, ts[..j]) == PlaceOf(v, ts[..j])
    {
      WayPrefix(Descends(v), ts, ps, j);
      WayPrefix(Descends(w), ts, ps, j);
    }
  }

  lemma StepKept(v: Vol, dirs: Dirs, v1: Vol, q: Place, e: Record, c: byte, p: Place, y: Token)
    requires Editable(v, dirs, v1, q, e, c) && OneCluster(v, q) && Entered(v, dirs, p) && Entered(v, dirs, q)
    requires AvoidsStep(v, q, e, c, p, y)
    ensures Descend(Edited(v, v1, q, e, c), p, y) == Descend(v, p, y)
  {
    if p == q {
      StepInPlace(v, dirs, v1, q, e, c, y);
    } else {
      StepElsewhere(v, dirs, v1, q, e, c, p, y);
    }
  }

  lemma DescendKept(v: Vol, w: Vol, p: Place, y: Token)
    requires FolderOf(w, p) == FolderOf(v, p) && w.geo == v.geo
    ensures Descend(w, p, y) == Descend(v, p, y)
  {
  }

  // ----- ways without dots avoid the target -----

  /** The place of a slot's directory. */
  lemma InItself(v: Vol, dirs: Dirs, t: Slot, q: Place)
    requires Inv(v, dirs) && InDirs(dirs, q) && t.place == q
    ensures InPlace(v, dirs, t, q)
  {
    if q.Sub? {
      DirWalk(v, dirs, q.cluster);
    }
  }

  /** A step to the directory that the target names is made in the target's own directory. */
  lemma StepToTarget(v: Vol, dirs: Dirs, p: Place, s: Slot, q: Place, e: Record)
    requires Inv(v, dirs) && Entered(v, dirs, p) && Entered(v, dirs, q) && IsTarget(v, dirs, q, e)
    requires LeadsOn(v, dirs, p, s, Sub(First(v, e)))
    ensures p == q
  {
    var f := First(v, e);
    DirWalk(v, dirs, f);
    var t :| IsSlot(v, dirs, t) && t.place == q && RecAt(v, t) == e;
    assert SlotOk(v, dirs, s) && SlotOk(v, dirs, t);
    OwnsFirst(v, dirs, RecAt(v, s));
    OwnsFirst(v, dirs, e);
    OwnerUnique(v, dirs, s, t, f);
    InItself(v, dirs, t, q);
    OnePlace(v, dirs, p, q, t);
  }

  /** A way without "." and ".." avoids every target in the directory it leads to. */
  lemma NoDotsAvoids(v: Vol, dirs: Dirs, ts: seq<Token>, q: Place, e: Record, c: byte)
    requires Inv(v, dirs) && NoDots(ts) && PlaceOf(v, ts) == Some(q) && IsTarget(v, dirs, q, e)
    ensures Avoids(v, ts, q, e, c)
  {
    var ps := WayOf(Descends(v), ts);
    var ss := ChainOf(v, dirs, ts, ps);
    forall j, p | 0 <= j < |ts| && PlaceOf(v, ts[..j]) == Some(p)
      ensures AvoidsStep(v, q, e, c, p, ts[j])
    {
      WayPrefix(Descends(v), ts, ps, j);
      ChainAvoids(v, dirs, ss, ps, j, e);
    }
  }

  lemma ChainAvoids(v: Vol, dirs: Dirs, ss: seq<Slot>, ps: seq<Place>, j: nat, e: Record)
    requires Inv(v, dirs) && IsWay(Entries(v, dirs), ss, ps) && j < |ss| && IsTarget(v, dirs, ps[|ss|], e)
    ensures ps[j] != ps[|ss|] && ps[j] != Sub(First(v, e))
  {
    PlacesDistinct(v, dirs, ss, ps, j, |ss|);
    if j != 0 {
      FromElsewhere(v, dirs, ss, ps, j - 1, ps[|ss|], e);
    }
  }

  /** No step before the last leads to the directory that a target in the last one names. */
  lemma FromElsewhere(v: Vol, dirs: Dirs, ss: seq<Slot>, ps: seq<Place>, i: nat, q: Place, e: Record)
    requires Inv(v, dirs) && IsWay(Entries(v, dirs), ss, ps) && i < |ss| && q == ps[|ss|] && IsTarget(v, dirs, q, e)
    ensures ps[i + 1] != Sub(First(v, e))
  {
    var p, s, n := ps[i], ss[i], ps[i + 1];
    PlacesDistinct(v, dirs, ss, ps, i, |ss|);
    ChainLink(v, dirs, ss, ps, i);
    ChainEntered(v, dirs, ss, ps, |ss|);
    if n == Sub(First(v, e)) {
      StepToTarget(v, dirs, p, s, q, e);
    }
  }
}
