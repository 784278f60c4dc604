/** Delete followed by undelete of the same file: what comes back, and when. */
module Restore {
  import opened Bytes
  import opened FatCells
  import opened Chains
  import opened Records
  import opened Paths
  import opened Volumes
  import opened Layout
  import opened Lookups
  import opened Ownership
  import opened Edits
  import opened Operations
  import opened Runs
  import opened Ways

  // ----- display names -----

  lemma ShownRenamed(r: Record, c: byte)
    ensures ShownName(LowerName(Renamed(r, c)), Renamed(r, c)[..8])
         == ShownName(LowerName(r), r[..8])[0 := ShownFirst(LowerName(r), c)]
    ensures Extension(Renamed(r, c)) == Extension(r)
  {
    var r' := Renamed(r, c);
    assert forall i :: 1 <= i < 32 ==> r'[i] == r[i];
    assert seq(3, i requires 0 <= i < 3 => Fold(LowerExtension(r'), r'[8 + i]))
        == seq(3, i requires 0 <= i < 3 => Fold(LowerExtension(r), r[8 + i]));
  }

  lemma CStrHead(s: seq<byte>, c: byte)
    requires s != [] && s[0] != 0 && c != 0
    ensures CStr(s) != [] && CStr(s[0 := c]) == CStr(s)[0 := c]
  {
    assert s[0 := c][1..] == s[1..];
  }

  /** Renaming changes the shown name in its first character only. */
  lemma BaseNameRenamed(r: Record, c: byte)
    requires r[0] != 0 && BaseName(r).value != [] && c != 0 && c != SPACE
    ensures BaseName(Renamed(r, c)) == Some(BaseName(r).value[0 := ShownFirst(LowerName(r), c)])
  {
    var shown, d := ShownName(LowerName(r), r[..8]), ShownFirst(LowerName(r), c);
    assert shown[0] == ShownFirst(LowerName(r), r[0]) != 0;
    ShownRenamed(r, c);
    CStrHead(shown, d);
    TrimHead(CStr(shown), d);
  }

  /** A renamed record answers to the name with the new first character shown, and to no other. */
  lemma MatchRenamed(r: Record, x: Token, c: byte)
    requires Matches(r, x) && x != [] && x[0] != DOT && c != 0 && c != SPACE
    ensures Matches(Renamed(r, c), WithFirst(x, ShownFirst(LowerName(r), c)))
    ensures ShownFirst(LowerName(r), c) != x[0] ==> !Matches(Renamed(r, c), x)
  {
    MatchHead(r, x);
    BaseNameRenamed(r, c);
    ShownRenamed(r, c);
    RenamedKeeps(r, c);
    var base, d := BaseName(r).value, ShownFirst(LowerName(r), c);
    assert base[0 := d] + [DOT] + Extension(r) == (base + [DOT] + Extension(r))[0 := d];
    assert (base[0 := d] + [DOT] + Extension(r))[0] == d;
  }

  // ----- delete, then undelete -----

  /** `x` in directory `init`, of one cluster, is the record in slot `t`. */
  ghost predicate LeadsTo(v: Vol, init: seq<Token>, x: Token, t: Slot) {
    && PlaceOf(v, init) == Some(t.place) && OneCluster(v, t.place)
    && FirstMatch(Buffer(v, t.place), x, t.index)
  }

  /** Then lookup finds it, and its parent is that directory. */
  lemma LeadsFound(v: Vol, dirs: Dirs, path: seq<byte>, init: seq<Token>, x: Token, t: Slot)
    requires Inv(v, dirs) && Names(path, init, x) && LeadsTo(v, init, x, t)
    ensures IsSlot(v, dirs, t) && Find(v, path) == Found(RecAt(v, t)) && Matches(RecAt(v, t), x)
  {
    PlaceInDirs(v, dirs, init);
    OneClusterFolder(v, dirs, t.place);
    SearchFinds(Buffer(v, t.place), x, t.index);
    FindByPlace(v, dirs, init, x);
  }

  lemma ParentPlace(v: Vol, dirs: Dirs, path: seq<byte>, init: seq<Token>, x: Token, q: Place)
    requires Inv(v, dirs) && Names(path, init, x) && PlaceOf(v, init) == Some(q)
    ensures ParentKnown(v, ParentPath(path)) && InDirs(dirs, q)
    ensures IsParent(v, dirs, FindParent(v, ParentPath(path))) && DirOf(v, FindParent(v, ParentPath(path))) == Some(q)
  {
    TokensOfSlash();
    ParentIsParent(v, dirs, ParentPath(path));
    PlaceInDirs(v, dirs, init);
    if init != [] {
      DirectoryFound(v, dirs, init, q);
    }
  }

  lemma DirectoryFound(v: Vol, dirs: Dirs, ts: seq<Token>, q: Place)
    requires Inv(v, dirs) && ts != [] && PlaceOf(v, ts) == Some(q)
    ensures Resolve(v, v.root, ts).Found?
    ensures var r := Resolve(v, v.root, ts).rec; IsDirectory(r) && First(v, r) != 0 && q == Sub(First(v, r))
  {
    var rest, y := ts[..|ts| - 1], ts[|ts| - 1];
    assert ts == rest + [y];
    PlaceSnoc(v, rest, y);
    FindByPlace(v, dirs, rest, y);
    DescendFound(v, PlaceOf(v, rest), y, q, Resolve(v, v.root, ts));
  }

  lemma DescendFound(v: Vol, p: Option<Place>, y: Token, q: Place, found: Lookup)
    requires p.Some? && Descend(v, p.value, y) == Some(q) && found == SearchIn(v, p, y)
    ensures found.Found? && IsDirectory(found.rec) && First(v, found.rec) != 0 && q == Sub(First(v, found.rec))
  {
  }

  /** No earlier record of the directory answers to the masked name: in particular no deleted look-alike. */
  predicate NoLookAlike(buf: seq<byte>, i: nat, y: Token)
    requires i <= Count(buf)
  {
    forall j :: 0 <= j < i ==> !Matches(Rec(buf, j), y)
  }

  /** The situation of the theorems: `x`, not "." or "..", is the file in slot `t`. */
  ghost predicate Recoverable(v: Vol, dirs: Dirs, init: seq<Token>, x: Token, t: Slot) {
    Inv(v, dirs) && x != [] && x[0] != DOT && LeadsTo(v, init, x, t)
  }

  /** And the way to it does not go through the file itself, or by its name. */
  ghost predicate Straight(v: Vol, init: seq<Token>, t: Slot)
    requires t.index < Count(Buffer(v, t.place))
  {
    Avoids(v, init, t.place, RecAt(v, t), DELETED)
  }

  /** The first record up to `i` that answers to `y`. */
  lemma FirstUpTo(buf: seq<byte>, y: Token, i: nat) returns (j: nat)
    requires i < Count(buf) && Matches(Rec(buf, i), y)
    ensures j <= i && FirstMatch(buf, y, j) && (j == i <==> NoLookAlike(buf, i, y))
  {
    j := Search(buf, y).value;
  }

  /** Records before the first match are not byte-equal to it, so an edit leaves them alone. */
  lemma EarlierKept(v: Vol, dirs: Dirs, v1: Vol, t: Slot, e: Record, c: byte, x: Token, j: nat)
    requires Editable(v, dirs, v1, t.place, e, c) && FirstMatch(Buffer(v, t.place), x, t.index)
    requires e == RecAt(v, t) && j < t.index
    ensures var w := Edited(v, v1, t.place, e, c);
            j < Count(Buffer(w, t.place)) && Rec(Buffer(w, t.place), j) == Rec(Buffer(v, t.place), j)
  {
    var s := Slot(t.place, j);
    EditedRecord(v, dirs, v1, t.place, e, c, s);
    assert RecAt(v, s) != e by {
      assert !Matches(Rec(Buffer(v, t.place), j), x);
    }
  }

  /** The first record of the edited directory that answers to another name of the renamed record. */
  lemma FirstEdited(v: Vol, dirs: Dirs, v1: Vol, t: Slot, e: Record, c: byte, x: Token, y: Token, buf: seq<byte>)
    returns (i: nat)
    requires Editable(v, dirs, v1, t.place, e, c) && FirstMatch(Buffer(v, t.place), x, t.index)
    requires e == RecAt(v, t) && Matches(Renamed(e, c), y)
    requires buf == Buffer(Edited(v, v1, t.place, e, c), t.place)
    requires t.index < Count(buf) && Rec(buf, t.index) == Renamed(e, c)
    ensures i <= t.index && FirstMatch(buf, y, i)
    ensures i == t.index <==> NoLookAlike(Buffer(v, t.place), t.index, y)
    ensures i < t.index ==> Rec(buf, i) == Rec(Buffer(v, t.place), i)
  {
    i := FirstUpTo(buf, y, t.index);
    forall j | 0 <= j < t.index
      ensures Rec(buf, j) == Rec(Buffer(v, t.place), j)
    {
      EarlierKept(v, dirs, v1, t, e, c, x, j);
    }
  }

  /**
   * If a name leads to the edited record, another name that the renamed record answers to leads
   * there afterwards, or to an earlier record that answers to it.
   */
  lemma EditLeads(v: Vol, dirs: Dirs, v1: Vol, t: Slot, e: Record, c: byte, init: seq<Token>, x: Token, y: Token)
    returns (u: Slot)
    requires Editable(v, dirs, v1, t.place, e, c) && Avoids(v, init, t.place, e, c)
    requires LeadsTo(v, init, x, t) && e == RecAt(v, t) && Matches(Renamed(e, c), y)
    ensures u.place == t.place && u.index <= t.index
    ensures u == t <==> NoLookAlike(Buffer(v, t.place), t.index, y)
    ensures var w := Edited(v, v1, t.place, e, c);
            && LeadsTo(w, init, y, u) && IsSlot(w, dirs, t) && RecAt(w, t) == Renamed(e, c)
            && (u != t ==> RecAt(w, u) == RecAt(v, u))
  {
    var w := Edited(v, v1, t.place, e, c);
    PlaceKept(v, dirs, v1, t.place, e, c, init);
    EditedFolder(v, dirs, v1, t.place, e, c);
    EditedRecord(v, dirs, v1, t.place, e, c, t);
    var i := FirstEdited(v, dirs, v1, t, e, c, x, y, Buffer(w, t.place));
    u := Slot(t.place, i);
  }

  /** Delete of a recoverable file: defined, and an edit of its directory. */
  lemma DeleteTarget(v: Vol, dirs: Dirs, path: seq<byte>, init: seq<Token>, x: Token, t: Slot)
    requires Recoverable(v, dirs, init, x, t) && Names(path, init, x)
    ensures DeleteDefined(v, path) && IsSlot(v, dirs, t) && First(v, RecAt(v, t)) < |v.fat|
    ensures var e := RecAt(v, t);
            && Editable(v, dirs, Release(v, First(v, e)), t.place, e, DELETED) && Real(e) && RecordOk(v, dirs, e)
            && Delete(v, path) == Edited(v, Release(v, First(v, e)), t.place, e, DELETED)
  {
    LeadsFound(v, dirs, path, init, x, t);
    ParentPlace(v, dirs, path, init, x, t.place);
    ParentOfNamed(v, path, init, x);
    MatchIsReal(RecAt(v, t), x);
    DeleteDefinedIff(v, dirs, path);
    var p, e := DeleteIsEdit(v, dirs, path);
    FoundInRange(v, dirs, e);
    assert SlotOk(v, dirs, t);
  }

  /** After the delete, the masked name leads to the same slot, or to a look-alike before it. */
  lemma DeletedLeads(v: Vol, dirs: Dirs, path: seq<byte>, init: seq<Token>, x: Token, t: Slot) returns (u: Slot)
    requires Recoverable(v, dirs, init, x, t) && Straight(v, init, t) && Names(path, init, x)
    ensures DeleteDefined(v, path) && Inv(Delete(v, path), dirs) && IsSlot(v, dirs, t)
    ensures u.place == t.place && u.index <= t.index
    ensures u == t <==> NoLookAlike(Buffer(v, t.place), t.index, WithFirst(x, QUESTION))
    ensures LeadsTo(Delete(v, path), init, WithFirst(x, QUESTION), u)
    ensures IsSlot(Delete(v, path), dirs, t) && RecAt(Delete(v, path), t) == Renamed(RecAt(v, t), DELETED)
    ensures u != t ==> RecAt(Delete(v, path), u) == RecAt(v, u)
  {
    DeleteTarget(v, dirs, path, init, x, t);
    var e := RecAt(v, t);
    EditKeepsInv(v, dirs, Release(v, First(v, e)), t.place, e, DELETED);
    MatchRenamed(e, x, DELETED);
    u := EditLeads(v, dirs, Release(v, First(v, e)), t, e, DELETED, init, x, WithFirst(x, QUESTION));
  }

  /** Undelete of a name that leads to a record: an edit of its directory. */
  lemma UndeleteLeadsTarget(v: Vol, dirs: Dirs, path: seq<byte>, init: seq<Token>, y: Token, t: Slot, c: byte)
    requires Inv(v, dirs) && Names(path, init, y) && LeadsTo(v, init, y, t) && y != [] && y[0] != DOT
    ensures UndeleteDefined(v, path) && IsSlot(v, dirs, t)
    ensures var e := RecAt(v, t);
            && Index(v.geo.kind, First(v, e)) == First(v, e) < |v.fat|
            && Real(e) && RecordOk(v, dirs, e) && TableEdit(v, Claim(v, First(v, e)), e)
            && InDirs(dirs, t.place)
            && Undelete(v, path, c) == Edited(v, Claim(v, First(v, e)), t.place, e, c)
            && (c != DELETED && c != 0 && c != DOT ==> Editable(v, dirs, Claim(v, First(v, e)), t.place, e, c))
  {
    LeadsFound(v, dirs, path, init, y, t);
    ParentPlace(v, dirs, path, init, y, t.place);
    MatchIsReal(RecAt(v, t), y);
    var p, e := UndeleteParts(v, dirs, path, init, y);
    p, e := UndeleteIsEdit(v, dirs, path, init, y, c);
  }

  /** Putting 0xE5 back leaves the record's cluster, if it has one, in use under a deleted name. */
  lemma MarkBackIff(v: Vol, dirs: Dirs, path: seq<byte>, init: seq<Token>, y: Token, t: Slot)
    requires Inv(v, dirs) && Names(path, init, y) && LeadsTo(v, init, y, t) && y != [] && y[0] != DOT
    ensures UndeleteDefined(v, path) && IsSlot(v, dirs, t)
    ensures Inv(Undelete(v, path, DELETED), dirs) <==> First(v, RecAt(v, t)) == 0
  {
    UndeleteLeadsTarget(v, dirs, path, init, y, t, DELETED);
    LeadsFound(v, dirs, path, init, y, t);
    UndeleteKeepsIff(v, dirs, path, init, y, DELETED);
  }

  /** The first character of a shown name is not NUL. */
  lemma ShownIsNoNul(r: Record, x: Token)
    requires Matches(r, x) && x != [] && x[0] != DOT
    ensures x[0] != 0
  {
    MatchHead(r, x);
  }

  /** With the first character of its name, a record answers to the same names. */
  lemma SameAnswers(e: Record, x: Token, y: Token)
    requires Matches(e, x) && x != [] && x[0] != DOT && x[0] != DELETED
    ensures Matches(Renamed(e, x[0]), y) <==> Matches(e, y)
  {
    RestoredMatches(e, x);
    RenamedKeeps(e, x[0]);
  }

  /** The way that delete has left alone avoids the deleted record as well. */
  lemma AvoidsAgain(v: Vol, w: Vol, init: seq<Token>, q: Place, e: Record, x: Token)
    requires Avoids(v, init, q, e, DELETED) && w.geo == v.geo && Matches(e, x) && x != [] && x[0] !in {DOT, DELETED}
    requires forall j: nat :: j <= |init| ==> PlaceOf(w, init[..j]) == PlaceOf(v, init[..j])
    ensures Avoids(w, init, q, Renamed(e, DELETED), x[0])
  {
    RenamedKeeps(e, DELETED);
    forall j, p | 0 <= j < |init| && PlaceOf(w, init[..j]) == Some(p)
      ensures AvoidsStep(w, q, Renamed(e, DELETED), x[0], p, init[j])
    {
      assert PlaceOf(v, init[..j]) == Some(p);
      assert AvoidsStep(v, q, e, DELETED, p, init[j]);
      SameAnswers(e, x, init[j]);
    }
  }

  /** The way to the deleted file. */
  lemma DeletedWay(v: Vol, dirs: Dirs, path: seq<byte>, init: seq<Token>, x: Token, t: Slot)
    requires Recoverable(v, dirs, init, x, t) && Straight(v, init, t) && Names(path, init, x) && x[0] != DELETED
    ensures DeleteDefined(v, path) && Avoids(Delete(v, path), init, t.place, Renamed(RecAt(v, t), DELETED), x[0])
  {
    var e := RecAt(v, t);
    DeleteTarget(v, dirs, path, init, x, t);
    PlaceKept(v, dirs, Release(v, First(v, e)), t.place, e, DELETED, init);
    EditedShape(v, dirs, Release(v, First(v, e)), t.place, e, DELETED);
    AvoidsAgain(v, Delete(v, path), init, t.place, e, x);
  }

  /** The undelete that follows, if nothing looks alike: the original name leads to the same slot again. */
  lemma UndeletedLeads(v: Vol, dirs: Dirs, path: seq<byte>, masked: seq<byte>, init: seq<Token>, x: Token, t: Slot)
    requires Recoverable(v, dirs, init, x, t) && Straight(v, init, t) && x[0] != DELETED
    requires NoLookAlike(Buffer(v, t.place), t.index, WithFirst(x, QUESTION))
    requires Names(path, init, x) && Names(masked, init, WithFirst(x, QUESTION))
    ensures DeleteDefined(v, path) && UndeleteDefined(Delete(v, path), masked)
    ensures var v2 := Undelete(Delete(v, path), masked, x[0]);
            Inv(v2, dirs) && LeadsTo(v2, init, x, t) && RecAt(v2, t) == Renamed(RecAt(v, t), x[0])
  {
    var y, e := WithFirst(x, QUESTION), RecAt(v, t);
    var u := DeletedLeads(v, dirs, path, init, x, t);
    DeletedWay(v, dirs, path, init, x, t);
    DeleteTarget(v, dirs, path, init, x, t);
    var v1, e1 := Delete(v, path), Renamed(e, DELETED);
    ShownIsNoNul(e, x);
    UndeleteLeadsTarget(v1, dirs, masked, init, y, t, x[0]);
    EditKeepsInv(v1, dirs, Claim(v1, First(v1, e1)), t.place, e1, x[0]);
    RestoredMatches(e, x);
    forall j | 0 <= j < t.index
      ensures !Matches(Rec(Buffer(v1, t.place), j), x)
    {
      EarlierKept(v, dirs, Release(v, First(v, e)), t, e, DELETED, x, j);
    }
    u := EditLeads(v1, dirs, Claim(v1, First(v1, e1)), t, e1, x[0], init, y, x);
  }

  /**
   * In `w` the file of `v` is back: its name leads to its slot, which holds its record with the
   * name's first character.
   */
  ghost predicate Back(v: Vol, w: Vol, init: seq<Token>, x: Token, t: Slot)
    requires t.index < Count(Buffer(v, t.place)) && x != []
  {
    LeadsTo(w, init, x, t) && RecAt(w, t) == Renamed(RecAt(v, t), x[0])
  }

  /** A file whose shown name starts with 0xE5 is not: marked with that character it is shown otherwise. */
  lemma MarkNotBack(v: Vol, w: Vol, init: seq<Token>, x: Token, t: Slot)
    requires t.index < Count(Buffer(v, t.place)) && Matches(RecAt(v, t), x) && x != [] && x[0] == DELETED
    ensures !Back(v, w, init, x, t)
  {
    MatchRenamed(RecAt(v, t), x, DELETED);
  }

  lemma MarkNotFound(w: Vol, e: Record, path: seq<byte>, init: seq<Token>, x: Token)
    requires Names(path, init, x) && Matches(e, x) && x != [] && x[0] == DELETED
    ensures Find(w, path) != Found(Renamed(e, DELETED))
  {
    MatchRenamed(e, x, DELETED);
    if Find(w, path).Found? {
      FoundMatches(w, w.root, init + [x], Find(w, path));
    }
  }

  lemma FoundBelow(v: Vol, buf: seq<byte>, ts: seq<Token>) returns (below: seq<byte>)
    requires |ts| > 1 && Resolve(v, buf, ts).Found?
    ensures Resolve(v, buf, ts) == Resolve(v, below, ts[1..])
  {
    var r := Rec(buf, Search(buf, ts[0]).value);
    EnterUnfold(v, buf, ts, r);
    below := Content(v, First(v, r));
  }

  lemma {:induction false} FoundMatches(v: Vol, buf: seq<byte>, ts: seq<Token>, found: Lookup)
    requires ts != [] && found == Resolve(v, buf, ts) && found.Found?
    ensures Matches(found.rec, ts[|ts| - 1])
    decreases |ts|
  {
    if |ts| == 1 {
      StopUnfold(v, buf, ts);
    } else {
      var below := FoundBelow(v, buf, ts);
      FoundMatches(v, below, ts[1..], found);
      assert ts[1..][|ts[1..]| - 1] == ts[|ts| - 1];
    }
  }

  /** Nor is a file with a look-alike `u` in front of it: `u` is what undelete renames. */
  lemma LookAlikeNotBack(v: Vol, v1: Vol, dirs: Dirs, masked: seq<byte>, init: seq<Token>, x: Token, t: Slot, u: Slot)
    requires t.index < Count(Buffer(v, t.place)) && Matches(RecAt(v, t), x) && x != [] && x[0] !in {DOT, DELETED}
    requires Inv(v1, dirs) && Names(masked, init, WithFirst(x, QUESTION))
    requires LeadsTo(v1, init, WithFirst(x, QUESTION), u)
    requires IsSlot(v1, dirs, t) && RecAt(v1, t) == Renamed(RecAt(v, t), DELETED)
    requires u.place == t.place && u.index < t.index
    ensures UndeleteDefined(v1, masked) && !Back(v, Undelete(v1, masked, x[0]), init, x, t)
    ensures IsSlot(v1, dirs, u) && IsSlot(Undelete(v1, masked, x[0]), dirs, u)
    ensures RecAt(Undelete(v1, masked, x[0]), u) == Renamed(RecAt(v1, u), x[0])
  {
    var e, d := RecAt(v, t), RecAt(v1, u);
    UndeleteLeadsTarget(v1, dirs, masked, init, WithFirst(x, QUESTION), u, x[0]);
    EditedRecord(v1, dirs, Claim(v1, First(v1, d)), u.place, d, x[0], t);
    EditedRecord(v1, dirs, Claim(v1, First(v1, d)), u.place, d, x[0], u);
    RestoredMatches(e, x);
    EarlierTakes(v, Undelete(v1, masked, x[0]), init, x, t, u, d);
  }

  /** Either the record keeps its mark, or an equal one in front of it answers to the name first. */
  lemma EarlierTakes(v: Vol, w: Vol, init: seq<Token>, x: Token, t: Slot, u: Slot, d: Record)
    requires t.index < Count(Buffer(v, t.place)) && x != [] && x[0] != DELETED
    requires u.place == t.place && u.index < t.index < Count(Buffer(w, t.place))
    requires var e := RecAt(v, t);
             && Matches(Renamed(e, x[0]), x) && RecAt(w, u) == Renamed(d, x[0])
             && RecAt(w, t) == (if Renamed(e, DELETED) == d then Renamed(d, x[0]) else Renamed(e, DELETED))
    ensures !Back(v, w, init, x, t)
  {
    var e := RecAt(v, t);
    RenamedKeeps(e, DELETED);
    assert d == Renamed(e, DELETED) ==> Rec(Buffer(w, t.place), u.index) == Renamed(e, x[0]);
  }

  /**
   * Delete and undelete of one name: the file is back, with the character that was typed as its
   * first byte, if and only if that character is not the deletion mark 0xE5 and no earlier record
   * answers to the masked name. In the latter case another record gets the name.
   */
  lemma FoundAgainIff(v: Vol, dirs: Dirs, path: seq<byte>, masked: seq<byte>, init: seq<Token>, x: Token, t: Slot)
    requires Recoverable(v, dirs, init, x, t) && Straight(v, init, t)
    requires Names(path, init, x) && Names(masked, init, WithFirst(x, QUESTION))
    ensures DeleteDefined(v, path) && UndeleteDefined(Delete(v, path), masked)
    ensures var w := Undelete(Delete(v, path), masked, x[0]);
            && (Back(v, w, init, x, t) <==>
                  x[0] != DELETED && NoLookAlike(Buffer(v, t.place), t.index, WithFirst(x, QUESTION)))
            && (Back(v, w, init, x, t) ==> Inv(w, dirs) && Find(w, path) == Found(Renamed(RecAt(v, t), x[0])))
            && (x[0] == DELETED ==> Find(w, path) != Found(Renamed(RecAt(v, t), x[0])))
  {
    var u := DeletedLeads(v, dirs, path, init, x, t);
    LeadsFound(v, dirs, path, init, x, t);
    UndeleteLeadsTarget(Delete(v, path), dirs, masked, init, WithFirst(x, QUESTION), u, x[0]);
    var w := Undelete(Delete(v, path), masked, x[0]);
    if x[0] == DELETED {
      MarkNotBack(v, w, init, x, t);
      MarkNotFound(w, RecAt(v, t), path, init, x);
    } else if u == t {
      UndeletedLeads(v, dirs, path, masked, init, x, t);
      LeadsFound(w, dirs, path, init, x, t);
    } else {
      LookAlikeNotBack(v, Delete(v, path), dirs, masked, init, x, t, u);
    }
  }

  /**
   * Delete, and an undelete that puts 0xE5 back: the invariant holds in between, and afterwards
   * exactly if the record in `u`, which undelete finds, has no cluster.
   */
  lemma RestoredMarkBreaks(v: Vol, dirs: Dirs, path: seq<byte>, masked: seq<byte>, init: seq<Token>, x: Token, t: Slot)
    returns (u: Slot)
    requires Recoverable(v, dirs, init, x, t) && Straight(v, init, t)
    requires Names(path, init, x) && Names(masked, init, WithFirst(x, QUESTION))
    ensures DeleteDefined(v, path) && UndeleteDefined(Delete(v, path), masked) && Inv(Delete(v, path), dirs)
    ensures IsSlot(v, dirs, u) && Find(Delete(v, path), masked) == Found(RecAt(Delete(v, path), u))
    ensures u == t <==> NoLookAlike(Buffer(v, t.place), t.index, WithFirst(x, QUESTION))
    ensures Inv(Undelete(Delete(v, path), masked, DELETED), dirs) <==> First(v, RecAt(v, u)) == 0
  {
    u := DeletedLeads(v, dirs, path, init, x, t);
    CellsAfterDelete(v, dirs, path, init, x, t);
    RenamedKeeps(RecAt(v, t), DELETED);
    LeadsFound(Delete(v, path), dirs, masked, init, WithFirst(x, QUESTION), u);
    MarkBackIff(Delete(v, path), dirs, masked, init, WithFirst(x, QUESTION), u);
  }

  /** The path and the masked path of a typed path name the same directory. */
  lemma MaskedNames(cwd: seq<byte>, d: seq<byte>, init: seq<Token>, x: Token)
    requires IsCwd(cwd) && Maskable(d) && Names(Convert(cwd, Some(d)), init, x)
    ensures x != [] && FixedChar(d) == x[0]
    ensures Names(Convert(cwd, Some(FixedPath(d))), init, WithFirst(x, QUESTION))
  {
    var b, z := ConvertMasked(cwd, d);
    MaskedToken(z);
    TokensUnder(b, z);
    TokensUnder(b, WithFirst(z, QUESTION));
    ParentUnder(b, z);
    ParentUnder(b, WithFirst(z, QUESTION));
    assert (init + [x])[..|init|] == (Tokens(b) + [z])[..|Tokens(b)|];
    assert (init + [x])[|init|] == (Tokens(b) + [z])[|Tokens(b)|];
  }

  /** What undelete takes for the deleted character when the path cannot be masked. */
  lemma UnmaskedChar(d: seq<byte>)
    requires !Maskable(d)
    ensures FixedChar(d) in {0, SLASH, DOT}
  {
    var s := StripSlash(d);
    if s != [] && EndsWithSlash(s) {
      LastSlashIs(s, |s| - 1);
    } else if SLASH !in s {
      assert LastSlash(s, |s|) == 0;
    }
  }

  /** Undelete changes no first byte but to the character it is given. */
  lemma UndeletedByte(s: Session, dirs: Dirs, d: seq<byte>, t: Slot)
    requires InOrder(s, dirs) && Defined(s, UndeleteCmd(d)) && IsSlot(s.vol, dirs, t)
    ensures var w := Step(s, UndeleteCmd(d)).vol;
            IsSlot(w, dirs, t) && RecAt(w, t)[0] in {RecAt(s.vol, t)[0], FixedChar(d)}
  {
    var v, path, c := s.vol, Masked(s, d), FixedChar(d);
    UndeleteTarget(v, dirs, s.cwd, d);
    if Find(v, path).Found? {
      var ts := Tokens(path);
      NamedSafe(path);
      NamesIff(path);
      var p, e := UndeleteIsEdit(v, dirs, path, ts[..|ts| - 1], ts[|ts| - 1], c);
      EditedRecord(v, dirs, Claim(v, First(v, e)), DirOf(v, p).value, e, c, t);
    }
  }

  /** So after a path that cannot be masked, the deleted file is not back. */
  lemma UnmaskedNotBack(s: Session, dirs: Dirs, d: seq<byte>, v: Vol, init: seq<Token>, x: Token, t: Slot)
    requires InOrder(s, dirs) && Defined(s, UndeleteCmd(d)) && IsSlot(s.vol, dirs, t) && !Maskable(d)
    requires RecAt(s.vol, t)[0] == DELETED && t.index < Count(Buffer(v, t.place))
    requires IsToken(x) && x[0] !in {0, DOT, DELETED}
    ensures !Back(v, Step(s, UndeleteCmd(d)).vol, init, x, t)
  {
    UndeletedByte(s, dirs, d, t);
    UnmaskedChar(d);
    assert x[0] in x;
    RenamedKeeps(RecAt(v, t), x[0]);
  }

  lemma DeletedVolume(v: Vol, dirs: Dirs, path: seq<byte>, init: seq<Token>, x: Token, t: Slot)
    requires Recoverable(v, dirs, init, x, t) && Mounted(v) && Names(path, init, x)
    ensures DeleteDefined(v, path) && Inv(Delete(v, path), dirs) && Mounted(Delete(v, path))
    ensures IsSlot(Delete(v, path), dirs, t) && RecAt(Delete(v, path), t) == Renamed(RecAt(v, t), DELETED)
    ensures IsSlot(v, dirs, t) && Matches(RecAt(v, t), x) && IsToken(x)
  {
    var e := RecAt(v, t);
    DeleteTarget(v, dirs, path, init, x, t);
    EditKeepsMounted(v, dirs, Release(v, First(v, e)), t.place, e, DELETED);
    EditKeepsInv(v, dirs, Release(v, First(v, e)), t.place, e, DELETED);
    EditedRecord(v, dirs, Release(v, First(v, e)), t.place, e, DELETED, t);
    TokensAre(path);
    LastIs(Tokens(path), init, x);
  }

  /** The session after a delete whose typed path fits its block. */
  lemma DeletedSession(s: Session, dirs: Dirs, d: seq<byte>, path: seq<byte>, init: seq<Token>, x: Token, t: Slot)
    requires InOrder(s, dirs) && Recoverable(s.vol, dirs, init, x, t) && !Hidden(d)
    requires path == Convert(s.cwd, Some(d)) && Names(path, init, x)
    ensures DeleteDefined(s.vol, path) && Defined(s, DeleteCmd(Some(d)))
    ensures Step(s, DeleteCmd(Some(d))) == s.(vol := Delete(s.vol, path))
    ensures InOrder(s.(vol := Delete(s.vol, path)), dirs)
  {
    RoomyIff(s.cwd, Some(d));
    DeletedVolume(s.vol, dirs, path, init, x, t);
  }

  /** `delete d` and then `undelete d`, as typed, are defined, and bring the file back. */
  ghost predicate CommandsRestore(s: Session, d: seq<byte>, init: seq<Token>, x: Token, t: Slot)
    requires t.index < Count(Buffer(s.vol, t.place)) && x != []
  {
    && Defined(s, DeleteCmd(Some(d)))
    && var s1 := Step(s, DeleteCmd(Some(d)));
    && Defined(s1, UndeleteCmd(d))
    && Back(s.vol, Step(s1, UndeleteCmd(d)).vol, init, x, t)
  }

  /** The two commands for a path that can be masked. */
  lemma MaskedRestoreIff(s: Session, dirs: Dirs, d: seq<byte>, path: seq<byte>, init: seq<Token>, x: Token, t: Slot)
    requires InOrder(s, dirs) && Recoverable(s.vol, dirs, init, x, t) && Straight(s.vol, init, t)
    requires d != [] && path == Convert(s.cwd, Some(d)) && Names(path, init, x) && Maskable(d) && !HiddenDir(d)
    ensures CommandsRestore(s, d, init, x, t) <==>
            x[0] != DELETED && NoLookAlike(Buffer(s.vol, t.place), t.index, WithFirst(x, QUESTION))
  {
    HiddenMaskable(d);
    DeletedSession(s, dirs, d, path, init, x, t);
    var s1, masked := s.(vol := Delete(s.vol, path)), Masked(s, d);
    RestoreIs(s, d, s1, init, x, t);
    MaskedNames(s.cwd, d, init, x);
    FoundAgainIff(s.vol, dirs, path, masked, init, x, t);
    UndeleteIs(s1, d, masked);
  }

  lemma HiddenMaskable(d: seq<byte>)
    requires Maskable(d) && !HiddenDir(d)
    ensures !Hidden(d)
  {
  }

  lemma RestoreIs(s: Session, d: seq<byte>, s1: Session, init: seq<Token>, x: Token, t: Slot)
    requires t.index < Count(Buffer(s.vol, t.place)) && x != []
    requires Defined(s, DeleteCmd(Some(d))) && s1 == Step(s, DeleteCmd(Some(d)))
    ensures CommandsRestore(s, d, init, x, t) <==>
            Defined(s1, UndeleteCmd(d)) && Back(s.vol, Step(s1, UndeleteCmd(d)).vol, init, x, t)
  {
  }

  lemma UndeleteIs(s: Session, d: seq<byte>, masked: seq<byte>)
    requires IsCwd(s.cwd) && d != [] && !HiddenDir(d) && masked == Masked(s, d) && UndeleteDefined(s.vol, masked)
    ensures Defined(s, UndeleteCmd(d))
    ensures Step(s, UndeleteCmd(d)).vol == Undelete(s.vol, masked, FixedChar(d))
  {
    FixedHiddenIff(d);
    RoomyIff(s.cwd, Some(FixedPath(d)));
  }

  /** For any other path they do not. */
  lemma UnmaskedRestore(s: Session, dirs: Dirs, d: seq<byte>, path: seq<byte>, init: seq<Token>, x: Token, t: Slot)
    requires InOrder(s, dirs) && Recoverable(s.vol, dirs, init, x, t)
    requires d != [] && path == Convert(s.cwd, Some(d)) && Names(path, init, x) && (!Maskable(d) || HiddenDir(d))
    ensures !CommandsRestore(s, d, init, x, t)
  {
    RoomyIff(s.cwd, Some(d));
    RoomyIff(s.cwd, Some(FixedPath(d)));
    FixedHiddenIff(d);
    if !Hidden(d) && !HiddenDir(d) {
      DeletedSession(s, dirs, d, path, init, x, t);
      DeletedVolume(s.vol, dirs, path, init, x, t);
      ShownIsNoNul(RecAt(s.vol, t), x);
      var s1 := s.(vol := Delete(s.vol, path));
      if x[0] != DELETED && Defined(s1, UndeleteCmd(d)) {
        UnmaskedNotBack(s1, dirs, d, s.vol, init, x, t);
      } else if Defined(s1, UndeleteCmd(d)) {
        MarkNotBack(s.vol, Step(s1, UndeleteCmd(d)).vol, init, x, t);
      }
    }
  }

  /** Delete in a directory of more than one cluster is not defined. */
  lemma LongNotDefined(v: Vol, dirs: Dirs, path: seq<byte>, init: seq<Token>, x: Token, p: Place, i: nat)
    requires Inv(v, dirs) && Names(path, init, x) && x != [] && x[0] != DOT
    requires PlaceOf(v, init) == Some(p) && FirstMatch(FolderOf(v, p), x, i) && !OneCluster(v, p)
    ensures !DeleteDefined(v, path)
  {
    var e := Rec(FolderOf(v, p), i);
    FolderFound(v, dirs, path, init, x, p, i);
    ParentPlace(v, dirs, path, init, x, p);
    DeleteDefinedIff(v, dirs, path);
    MatchIsReal(e, x);
    PlaceEntered(v, dirs, init, p);
    ParentFolder(v, dirs, FindParent(v, ParentPath(path)));
    if First(v, e) == 0 {
      NoWalk(v);
      if Reached(Cells(v), 0, p.cluster) {
        ReachedIsWalk(Cells(v), 0, [], p.cluster);
      }
    } else {
      EntryElsewhere(v, dirs, p.cluster, e);
      var s := ListedSlot(v, dirs, p, e);
      assert SlotOk(v, dirs, s);
      TargetWalk(v, dirs, e);
    }
  }

  /** A name in a directory of any length is found there. */
  lemma FolderFound(v: Vol, dirs: Dirs, path: seq<byte>, init: seq<Token>, x: Token, p: Place, i: nat)
    requires Inv(v, dirs) && Names(path, init, x) && PlaceOf(v, init) == Some(p) && FirstMatch(FolderOf(v, p), x, i)
    ensures Find(v, path) == Found(Rec(FolderOf(v, p), i)) && InDirs(dirs, p) && IsSlot(v, dirs, SlotAt(v, p, i))
  {
    PlaceInDirs(v, dirs, init);
    SearchFinds(FolderOf(v, p), x, i);
    FindByPlace(v, dirs, init, x);
    SlotAtOk(v, dirs, p, i);
  }

  lemma PlaceEntered(v: Vol, dirs: Dirs, ts: seq<Token>, p: Place)
    requires Inv(v, dirs) && PlaceOf(v, ts) == Some(p)
    ensures Entered(v, dirs, p)
  {
    var ps := WayOf(Descends(v), ts);
    WayEntered(v, dirs, ts, ps, |ts|);
  }

  /**
   * The two commands as typed, for the file that record `i` of directory `p` is: they are defined
   * and the file is back exactly when the directory has one cluster, the last name of `d` can be
   * masked and is not looked for behind a hidden directory name, it does not start with 0xE5, and
   * no record before the file's answers to the masked name.
   */
  lemma CommandsRestoreIff(s: Session, dirs: Dirs, d: seq<byte>, init: seq<Token>, x: Token, p: Place, i: nat)
    requires InOrder(s, dirs) && d != [] && Names(Convert(s.cwd, Some(d)), init, x) && x != [] && x[0] != DOT
    requires PlaceOf(s.vol, init) == Some(p) && FirstMatch(FolderOf(s.vol, p), x, i)
    requires Avoids(s.vol, init, p, Rec(FolderOf(s.vol, p), i), DELETED)
    ensures IsSlot(s.vol, dirs, SlotAt(s.vol, p, i))
    ensures CommandsRestore(s, d, init, x, SlotAt(s.vol, p, i)) <==>
            && OneCluster(s.vol, p) && Maskable(d) && !HiddenDir(d)
            && x[0] != DELETED && NoLookAlike(FolderOf(s.vol, p), i, WithFirst(x, QUESTION))
  {
    var path, t := Convert(s.cwd, Some(d)), SlotAt(s.vol, p, i);
    FolderFound(s.vol, dirs, path, init, x, p, i);
    if !OneCluster(s.vol, p) {
      LongNotDefined(s.vol, dirs, path, init, x, p, i);
    } else {
      OneClusterFolder(s.vol, dirs, p);
      if Maskable(d) && !HiddenDir(d) {
        MaskedRestoreIff(s, dirs, d, path, init, x, t);
      } else {
        UnmaskedRestore(s, dirs, d, path, init, x, t);
      }
    }
  }

  /**
   * With the typed character back in place, the record answers to the name; same bytes unless the
   * name is shown in lower case.
   */
  lemma RestoredMatches(e: Record, x: Token)
    requires Matches(e, x) && x != [] && x[0] != DOT && x[0] != DELETED
    ensures Renamed(Renamed(e, DELETED), x[0]) == Renamed(e, x[0])
    ensures Matches(Renamed(e, x[0]), x)
    ensures BaseName(Renamed(e, x[0])) == BaseName(e) && Extension(Renamed(e, x[0])) == Extension(e)
    ensures !IsDeleted(e) && !LowerName(e) ==> Renamed(e, x[0]) == e
  {
    MatchHead(e, x);
    RenamedKeeps(e, DELETED);
    RenamedKeeps(e, x[0]);
    ShownRenamed(e, x[0]);
    var shown := ShownName(LowerName(e), e[..8]);
    assert ShownFirst(LowerName(e), x[0]) == x[0] == shown[0];
    assert shown[0 := shown[0]] == shown;
    if !IsDeleted(e) && !LowerName(e) {
      assert e[0 := e[0]] == e;
    }
  }

  // ----- two files, and a way through the file itself -----

  /** A record with the deletion mark answers to no name but those that start with '?'. */
  lemma MarkedShows(r: Record, z: Token)
    requires z != [] && z[0] != DOT && z[0] != QUESTION
    ensures !Matches(Renamed(r, DELETED), z)
  {
    if Matches(Renamed(r, DELETED), z) {
      MatchHead(Renamed(r, DELETED), z);
    }
  }

  /** Marking other records, which then answer to '?' only, does not change the first one that answers to `z`. */
  lemma MarkedFirst(buf: seq<byte>, e: Record, z: Token, i: nat)
    requires FirstMatch(buf, z, i) && Rec(buf, i) != e && z != [] && z[0] != DOT && z[0] != QUESTION
    ensures FirstMatch(Mark(buf, e, DELETED), z, i) && Rec(Mark(buf, e, DELETED), i) == Rec(buf, i)
  {
    MarkedShows(e, z);
    forall j | 0 <= j <= i
      ensures Rec(Mark(buf, e, DELETED), j) == if Rec(buf, j) == e then Renamed(e, DELETED) else Rec(buf, j)
    {
      MarkRec(buf, e, DELETED, j);
    }
  }

  lemma OtherStays(v: Vol, dirs: Dirs, v1: Vol, q: Place, e: Record, init: seq<Token>, z: Token, t: Slot)
    requires Editable(v, dirs, v1, q, e, DELETED) && Avoids(v, init, q, e, DELETED) && t.place == q
    requires LeadsTo(v, init, z, t) && e != RecAt(v, t) && z != [] && z[0] != DOT && z[0] != QUESTION
    ensures var w := Edited(v, v1, q, e, DELETED);
            && LeadsTo(w, init, z, t) && RecAt(w, t) == RecAt(v, t) && w.geo == v.geo
            && forall j: nat :: j <= |init| ==> PlaceOf(w, init[..j]) == PlaceOf(v, init[..j])
  {
    PlaceKept(v, dirs, v1, q, e, DELETED, init);
    EditedFolder(v, dirs, v1, q, e, DELETED);
    EditedShape(v, dirs, v1, q, e, DELETED);
    MarkedFirst(Buffer(v, q), e, z, t.index);
  }

  /** Deleting one file does not change what another name in its directory leads to. */
  lemma OtherLeads(v: Vol, dirs: Dirs, path: seq<byte>, init: seq<Token>, x: Token, u: Slot, z: Token, t: Slot)
    requires Recoverable(v, dirs, init, x, u) && Straight(v, init, u) && Names(path, init, x)
    requires Recoverable(v, dirs, init, z, t) && Straight(v, init, t) && RecAt(v, u) != RecAt(v, t) && z[0] != QUESTION
    ensures DeleteDefined(v, path) && Recoverable(Delete(v, path), dirs, init, z, t)
    ensures Straight(Delete(v, path), init, t) && RecAt(Delete(v, path), t) == RecAt(v, t)
  {
    DeleteTarget(v, dirs, path, init, x, u);
    EditKeepsInv(v, dirs, Release(v, First(v, RecAt(v, u))), u.place, RecAt(v, u), DELETED);
    OtherStays(v, dirs, Release(v, First(v, RecAt(v, u))), u.place, RecAt(v, u), init, z, t);
    WayStaysStraight(v, Delete(v, path), init, t);
  }

  lemma WayStaysStraight(v: Vol, w: Vol, init: seq<Token>, t: Slot)
    requires t.index < Count(Buffer(v, t.place)) && t.index < Count(Buffer(w, t.place))
    requires Straight(v, init, t) && RecAt(w, t) == RecAt(v, t) && w.geo == v.geo
    requires forall j: nat :: j <= |init| ==> PlaceOf(w, init[..j]) == PlaceOf(v, init[..j])
    ensures Straight(w, init, t)
  {
    forall j, p | 0 <= j < |init| && PlaceOf(w, init[..j]) == Some(p)
      ensures AvoidsStep(w, t.place, RecAt(w, t), DELETED, p, init[j])
    {
      assert PlaceOf(v, init[..j]) == Some(p);
      assert AvoidsStep(v, t.place, RecAt(v, t), DELETED, p, init[j]);
    }
  }

  /**
   * Two files of one directory whose names differ in the first character only, deleted in the
   * order of their records: undelete of the second gives its name to the first, or an even earlier one.
   */
  lemma SecondLost(v: Vol, dirs: Dirs, px: seq<byte>, pz: seq<byte>, masked: seq<byte>, init: seq<Token>,
                   x: Token, u: Slot, z: Token, t: Slot) returns (b: Slot)
    requires Recoverable(v, dirs, init, x, u) && Straight(v, init, u) && Names(px, init, x)
    requires Recoverable(v, dirs, init, z, t) && Straight(v, init, t) && Names(pz, init, z)
    requires WithFirst(x, QUESTION) == WithFirst(z, QUESTION) && Names(masked, init, WithFirst(z, QUESTION))
    requires RecAt(v, u) != RecAt(v, t) && u.index < t.index && z[0] !in {QUESTION, DELETED}
    ensures DeleteDefined(v, px) && NameTaken(Delete(v, px), pz, masked, init, z, t, b)
  {
    OtherLeads(v, dirs, px, init, x, u, z, t);
    FirstMasked(v, dirs, px, init, x, u);
    b := LookAlikeTakes(Delete(v, px), dirs, pz, masked, init, z, t);
  }

  /** Delete of the file in slot `t`, and an undelete that gives its name to an earlier record `u` instead. */
  ghost predicate NameTaken(v: Vol, path: seq<byte>, masked: seq<byte>, init: seq<Token>, x: Token, t: Slot, u: Slot) {
    && u.place == t.place && u.index < t.index < Count(Buffer(v, t.place)) && x != []
    && DeleteDefined(v, path) && UndeleteDefined(Delete(v, path), masked)
    && var v1, w := Delete(v, path), Undelete(Delete(v, path), masked, x[0]);
    && u.index < Count(Buffer(v1, u.place)) && u.index < Count(Buffer(w, u.place))
    && RecAt(w, u) == Renamed(RecAt(v1, u), x[0]) && !Back(v, w, init, x, t)
  }

  lemma LookAlikeTakes(v: Vol, dirs: Dirs, path: seq<byte>, masked: seq<byte>, init: seq<Token>, x: Token, t: Slot)
    returns (u: Slot)
    requires Recoverable(v, dirs, init, x, t) && Straight(v, init, t) && x[0] != DELETED
    requires !NoLookAlike(Buffer(v, t.place), t.index, WithFirst(x, QUESTION))
    requires Names(path, init, x) && Names(masked, init, WithFirst(x, QUESTION))
    ensures NameTaken(v, path, masked, init, x, t, u)
  {
    u := DeletedLeads(v, dirs, path, init, x, t);
    LookAlikeNotBack(v, Delete(v, path), dirs, masked, init, x, t, u);
  }

  lemma FirstMasked(v: Vol, dirs: Dirs, px: seq<byte>, init: seq<Token>, x: Token, u: Slot)
    requires Recoverable(v, dirs, init, x, u) && Names(px, init, x)
    ensures DeleteDefined(v, px) && IsSlot(Delete(v, px), dirs, u)
    ensures Matches(RecAt(Delete(v, px), u), WithFirst(x, QUESTION))
  {
    var e := RecAt(v, u);
    DeleteTarget(v, dirs, px, init, x, u);
    EditedRecord(v, dirs, Release(v, First(v, e)), u.place, e, DELETED, u);
    MatchRenamed(e, x, DELETED);
  }

  lemma {:induction false} NoWayOn(step: (Place, Token) -> Option<Place>, ts: seq<Token>, k: nat)
    requires k <= |ts| && Follow(step, ts[..k]).None?
    ensures Follow(step, ts).None?
    decreases |ts|
  {
    if k == |ts| {
      assert ts[..k] == ts;
    } else {
      assert ts[..|ts| - 1][..k] == ts[..k];
      NoWayOn(step, ts[..|ts| - 1], k);
    }
  }

  /**
   * A way through the file itself, as in "/A/B/../B": delete is defined, but no record of that name is
   * left on the way, and undelete finds nothing.
   */
  lemma WayThroughLost(v: Vol, dirs: Dirs, path: seq<byte>, masked: seq<byte>, init: seq<Token>, x: Token, t: Slot,
                       k: nat)
    requires Recoverable(v, dirs, init, x, t) && Names(path, init, x) && Names(masked, init, WithFirst(x, QUESTION))
    requires k < |init| && init[k] == x && PlaceOf(v, init[..k]) == Some(t.place) && x[0] !in {QUESTION, DELETED}
    requires Avoids(v, init[..k], t.place, RecAt(v, t), DELETED)
    requires forall j :: 0 <= j < Count(Buffer(v, t.place)) && Matches(Rec(Buffer(v, t.place), j), x) ==> j == t.index
    ensures DeleteDefined(v, path) && UndeleteDefined(Delete(v, path), masked)
    ensures Undelete(Delete(v, path), masked, x[0]) == Delete(v, path)
    ensures !Back(v, Delete(v, path), init, x, t)
  {
    var e := RecAt(v, t);
    DeleteTarget(v, dirs, path, init, x, t);
    EditKeepsInv(v, dirs, Release(v, First(v, e)), t.place, e, DELETED);
    EditedRecord(v, dirs, Release(v, First(v, e)), t.place, e, DELETED, t);
    WayGone(v, dirs, Release(v, First(v, e)), t, init, x, k);
    FindNothing(Delete(v, path), dirs, masked, init, WithFirst(x, QUESTION), x[0]);
  }

  lemma FindNothing(v: Vol, dirs: Dirs, path: seq<byte>, init: seq<Token>, y: Token, c: byte)
    requires Inv(v, dirs) && Names(path, init, y) && PlaceOf(v, init).None?
    ensures UndeleteDefined(v, path) && Undelete(v, path, c) == v
  {
    FindByPlace(v, dirs, init, y);
  }

  /** With the name gone from the directory, the way ends there. */
  lemma WayGone(v: Vol, dirs: Dirs, v1: Vol, t: Slot, init: seq<Token>, x: Token, k: nat)
    requires t.index < Count(Buffer(v, t.place)) && Editable(v, dirs, v1, t.place, RecAt(v, t), DELETED)
    requires OneCluster(v, t.place) && x != [] && x[0] !in {DOT, QUESTION}
    requires k < |init| && init[k] == x && PlaceOf(v, init[..k]) == Some(t.place)
    requires Avoids(v, init[..k], t.place, RecAt(v, t), DELETED)
    requires forall j :: 0 <= j < Count(Buffer(v, t.place)) && Matches(Rec(Buffer(v, t.place), j), x) ==> j == t.index
    ensures PlaceOf(Edited(v, v1, t.place, RecAt(v, t), DELETED), init).None?
  {
    var e, q := RecAt(v, t), t.place;
    var w := Edited(v, v1, q, e, DELETED);
    PlaceKept(v, dirs, v1, q, e, DELETED, init[..k]);
    EditedFolder(v, dirs, v1, q, e, DELETED);
    OneClusterFolder(v, dirs, q);
    NameGone(Buffer(v, q), e, x, t.index);
    NoWayAfter(w, init, k, q);
  }

  lemma NoWayAfter(w: Vol, init: seq<Token>, k: nat, q: Place)
    requires k < |init| && PlaceOf(w, init[..k]) == Some(q) && Search(FolderOf(w, q), init[k]).None?
    ensures PlaceOf(w, init).None?
  {
    assert init[..k + 1] == init[..k] + [init[k]];
    PlaceSnoc(w, init[..k], init[k]);
    NoWayOn(Descends(w), init, k + 1);
  }

  lemma NameGone(buf: seq<byte>, e: Record, x: Token, i: nat)
    requires i < Count(buf) && Rec(buf, i) == e && x != [] && x[0] != DOT && x[0] != QUESTION
    requires forall j :: 0 <= j < Count(buf) && Matches(Rec(buf, j), x) ==> j == i
    ensures Search(Mark(buf, e, DELETED), x).None?
  {
    MarkedShows(e, x);
    forall j | 0 <= j < Count(buf)
      ensures !Matches(Rec(Mark(buf, e, DELETED), j), x)
    {
      MarkRec(buf, e, DELETED, j);
    }
  }

  // ----- the clusters that come back -----

  /** What both operations leave of a table: the first cluster ends a chain, the rest of the old chain is free. */
  ghost predicate FirstClusterOnly(t: seq<Cell>, t2: seq<Cell>, f: nat)
    requires Walkable(t, f)
  {
    && |t2| == |t|
    && forall k: nat :: k < |t| ==> t2[k] == if k == f then End else if k in Walk(t, f) then Free else t[k]
  }

  lemma ReleasedThenClaimed(v: Vol, dirs: Dirs, v1: Vol, f: uint32)
    requires Inv(v, dirs) && Walkable(Cells(v), f) && Cells(v1) == Cells(Release(v, f))
    requires Inv(v1, dirs) && f < |v1.fat| && Fits(v1.geo.kind, f)
    ensures FirstClusterOnly(Cells(v), Cells(Claim(v1, f)), f)
  {
    ReleaseCells(v, dirs, f);
    ClaimCells(v1, dirs, f);
    forall k: nat | k < |v.fat|
      ensures Reached(Cells(v), f, k) <==> k in Walk(Cells(v), f)
    {
      ReachedIsWalk(Cells(v), f, Walk(Cells(v), f), k);
    }
  }

  /** The table after delete. */
  lemma CellsAfterDelete(v: Vol, dirs: Dirs, path: seq<byte>, init: seq<Token>, x: Token, t: Slot)
    requires Recoverable(v, dirs, init, x, t) && Names(path, init, x)
    ensures DeleteDefined(v, path)
    ensures Cells(Delete(v, path)) == Cells(Release(v, First(v, RecAt(v, t))))
    ensures Delete(v, path).geo == v.geo
  {
    DeleteTarget(v, dirs, path, init, x, t);
    var e := RecAt(v, t);
    EditedCells(v, dirs, Release(v, First(v, e)), t.place, e, DELETED);
    EditedShape(v, dirs, Release(v, First(v, e)), t.place, e, DELETED);
  }

  /** Undelete on a table from which delete has released the chain of `f`. */
  lemma CellsClaimedBack(v: Vol, v1: Vol, dirs: Dirs, path: seq<byte>, init: seq<Token>, y: Token, t: Slot,
                         c: byte, f: uint32)
    requires Inv(v, dirs) && Inv(v1, dirs) && Names(path, init, y) && LeadsTo(v1, init, y, t) && y != [] && y[0] != DOT
    requires First(v1, RecAt(v1, t)) == f && Walkable(Cells(v), f) && Cells(v1) == Cells(Release(v, f))
    ensures UndeleteDefined(v1, path)
    ensures FirstClusterOnly(Cells(v), Cells(Undelete(v1, path, c)), f)
  {
    UndeleteLeadsTarget(v1, dirs, path, init, y, t, c);
    EditedCells(v1, dirs, Claim(v1, f), t.place, RecAt(v1, t), c);
    ReleasedThenClaimed(v, dirs, v1, f);
  }

  lemma CellsAfterBoth(v: Vol, dirs: Dirs, path: seq<byte>, masked: seq<byte>, init: seq<Token>, x: Token, t: Slot)
    requires Recoverable(v, dirs, init, x, t) && Straight(v, init, t) && Walkable(Cells(v), First(v, RecAt(v, t)))
    requires NoLookAlike(Buffer(v, t.place), t.index, WithFirst(x, QUESTION))
    requires Names(path, init, x) && Names(masked, init, WithFirst(x, QUESTION))
    ensures DeleteDefined(v, path) && UndeleteDefined(Delete(v, path), masked)
    ensures FirstClusterOnly(Cells(v), Cells(Undelete(Delete(v, path), masked, x[0])), First(v, RecAt(v, t)))
  {
    var u := DeletedLeads(v, dirs, path, init, x, t);
    CellsAfterDelete(v, dirs, path, init, x, t);
    RenamedKeeps(RecAt(v, t), DELETED);
    CellsClaimedBack(v, Delete(v, path), dirs, masked, init, WithFirst(x, QUESTION), t, x[0], First(v, RecAt(v, t)));
  }

  /** Behind a look-alike, the first cluster stays free. */
  lemma CellsBehindLookAlike(v: Vol, dirs: Dirs, path: seq<byte>, masked: seq<byte>, init: seq<Token>, x: Token,
                             t: Slot)
    requires Recoverable(v, dirs, init, x, t) && Straight(v, init, t) && First(v, RecAt(v, t)) != 0
    requires !NoLookAlike(Buffer(v, t.place), t.index, WithFirst(x, QUESTION))
    requires Names(path, init, x) && Names(masked, init, WithFirst(x, QUESTION))
    ensures DeleteDefined(v, path) && UndeleteDefined(Delete(v, path), masked) && First(v, RecAt(v, t)) < |v.fat|
    ensures var t2 := Cells(Undelete(Delete(v, path), masked, x[0]));
            |t2| == |v.fat| && t2[First(v, RecAt(v, t))] == Free
  {
    var e, y := RecAt(v, t), WithFirst(x, QUESTION);
    var f := First(v, e);
    var u := DeletedLeads(v, dirs, path, init, x, t);
    DeleteTarget(v, dirs, path, init, x, t);
    CellsAfterDelete(v, dirs, path, init, x, t);
    var v1 := Delete(v, path);
    var g := First(v1, RecAt(v1, u));
    UndeleteLeadsTarget(v1, dirs, masked, init, y, u, x[0]);
    EditedCells(v1, dirs, Claim(v1, g), u.place, RecAt(v1, u), x[0]);
    ReleaseCells(v, dirs, f);
    ClaimCells(v1, dirs, g);
    ReleaseIsEdit(v, dirs, e);
    if g == f {
      OwnsBoth(v, dirs, t, u, f);
    }
  }

  /** A record without cluster: the look-alike's first cluster gets the end mark. */
  lemma LookAlikeCells(v: Vol, dirs: Dirs, path: seq<byte>, masked: seq<byte>, init: seq<Token>, x: Token, t: Slot,
                       u: Slot)
    requires Recoverable(v, dirs, init, x, t) && Names(path, init, x) && Names(masked, init, WithFirst(x, QUESTION))
    requires First(v, RecAt(v, t)) == 0 && DeleteDefined(v, path) && Inv(Delete(v, path), dirs) && IsSlot(v, dirs, u)
    requires LeadsTo(Delete(v, path), init, WithFirst(x, QUESTION), u) && RecAt(Delete(v, path), u) == RecAt(v, u)
    ensures UndeleteDefined(Delete(v, path), masked) && First(v, RecAt(v, u)) < |v.fat|
    ensures Cells(Undelete(Delete(v, path), masked, x[0])) == Cells(v)[First(v, RecAt(v, u)) := End]
  {
    var v1 := Delete(v, path);
    CellsAfterDelete(v, dirs, path, init, x, t);
    ReleaseNothing(v, dirs, 0);
    UndeleteLeadsTarget(v1, dirs, masked, init, WithFirst(x, QUESTION), u, x[0]);
    EditedCells(v1, dirs, Claim(v1, First(v1, RecAt(v1, u))), u.place, RecAt(v1, u), x[0]);
    ClaimCells(v1, dirs, First(v1, RecAt(v1, u)));
  }

  lemma OwnsBoth(v: Vol, dirs: Dirs, t: Slot, u: Slot, f: nat)
    requires Inv(v, dirs) && IsSlot(v, dirs, t) && IsSlot(v, dirs, u) && Real(RecAt(v, t)) && Real(RecAt(v, u))
    requires f != 0 && First(v, RecAt(v, t)) == f == First(v, RecAt(v, u))
    ensures t == u
  {
    assert SlotOk(v, dirs, t) && SlotOk(v, dirs, u);
    OwnsFirst(v, dirs, RecAt(v, t));
    OwnsFirst(v, dirs, RecAt(v, u));
    OwnerUnique(v, dirs, t, u, f);
  }

  /** Keeping only the first cluster of a live chain keeps the table exactly when there is no other. */
  lemma FirstClusterOnlyIff(v: Vol, t2: seq<Cell>, f: nat)
    requires f != 0 && LiveChain(v, f) && FirstClusterOnly(Cells(v), t2, f)
    ensures Walkable(t2, f) && Walk(t2, f) == [f]
    ensures t2 == Cells(v) <==> |Walk(Cells(v), f)| == 1
  {
    var t, s := Cells(v), Walk(Cells(v), f);
    WalkStep(t, f);
    FreeWalk(t2, f);
    if |s| == 1 {
      var n := Next(t, f);
      assert n == 0 by {
        if n != 0 {
          WalkStep(t, n);
        }
      }
      assert f in s;
    } else {
      WalkDistinct(t, f, s);
      assert s[1] in s && s[0] == f;
      assert t2[s[1]] == Free;
    }
  }

  /**
   * What delete and undelete make of table `t`, for a chain that starts at `f`: if the record found
   * by undelete is the one deleted, its first cluster ends a chain and the rest of the old chain is
   * free; else the first cluster stays free. Without a cluster, entry `g` gets the end mark.
   */
  ghost predicate TableAfter(t: seq<Cell>, t2: seq<Cell>, f: nat, same: bool, g: nat)
    requires Walkable(t, f)
  {
    && (f != 0 ==> (FirstClusterOnly(t, t2, f) <==> same))
    && (f != 0 && same ==> Walkable(t2, f) && Walk(t2, f) == [f])
    && (f != 0 ==> (t2 == t <==> same && |Walk(t, f)| == 1))
    && (f == 0 ==> g < |t| && t2 == t[g := End])
  }

  lemma TableBack(v: Vol, t2: seq<Cell>, f: nat)
    requires Walkable(Cells(v), f) && FirstClusterOnly(Cells(v), t2, f)
    requires 0 < |Cells(v)| && (f != 0 ==> LiveChain(v, f))
    ensures TableAfter(Cells(v), t2, f, true, f)
  {
    if f != 0 {
      FirstClusterOnlyIff(v, t2, f);
    } else {
      NoWalk(v);
      assert t2 == Cells(v)[0 := End];
    }
  }

  lemma TableLost(v: Vol, t2: seq<Cell>, f: nat, g: nat)
    requires f != 0 && LiveChain(v, f) && f < |Cells(v)| == |t2| && t2[f] == Free
    ensures TableAfter(Cells(v), t2, f, false, g)
  {
    WalkStep(Cells(v), f);
  }

  /**
   * A live file of one cluster gets its table entry back, unless undelete finds an earlier record; a
   * longer one comes back as its first cluster alone. `u` is the record that undelete finds.
   */
  lemma ChainRestoredIff(v: Vol, dirs: Dirs, path: seq<byte>, masked: seq<byte>, init: seq<Token>, x: Token, t: Slot)
    returns (u: Slot)
    requires Recoverable(v, dirs, init, x, t) && Straight(v, init, t) && !IsDeleted(RecAt(v, t))
    requires Names(path, init, x) && Names(masked, init, WithFirst(x, QUESTION))
    ensures DeleteDefined(v, path) && Walkable(Cells(v), First(v, RecAt(v, t)))
    ensures UndeleteDefined(Delete(v, path), masked)
    ensures IsSlot(v, dirs, u) && (u == t <==> NoLookAlike(Buffer(v, t.place), t.index, WithFirst(x, QUESTION)))
    ensures TableAfter(Cells(v), Cells(Undelete(Delete(v, path), masked, x[0])), First(v, RecAt(v, t)), u == t,
                       First(v, RecAt(v, u)))
  {
    var f := First(v, RecAt(v, t));
    u := DeletedLeads(v, dirs, path, init, x, t);
    DeleteTarget(v, dirs, path, init, x, t);
    NoWalk(v);
    if u == t {
      CellsAfterBoth(v, dirs, path, masked, init, x, t);
      TableBack(v, Cells(Undelete(Delete(v, path), masked, x[0])), f);
    } else if f != 0 {
      CellsBehindLookAlike(v, dirs, path, masked, init, x, t);
      TableLost(v, Cells(Undelete(Delete(v, path), masked, x[0])), f, First(v, RecAt(v, u)));
    } else {
      LookAlikeCells(v, dirs, path, masked, init, x, t, u);
    }
  }
}
