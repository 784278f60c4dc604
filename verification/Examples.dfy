/**
 * Concrete volumes and inputs: two small volumes in good order, which show that the invariant can
 * be met, and one failing input for each property that the code does not have in general.
 */
module Examples {
  import opened Bytes
  import opened FatCells
  import opened Chains
  import opened Records
  import opened Paths
  import opened Volumes
  import opened Directories
  import opened Layout
  import opened Lookups
  import opened Ownership
  import opened Edits
  import opened Operations
  import opened Runs
  import opened Restore
  import opened Dumps
  import opened Fields
  import Offsets

  // ----- a FAT16 volume with one file of two clusters -----

  /** A record without extension. */
  function Entry(c: byte, attr: byte, first: byte, size: byte): Record {
    [c] + seq(10, _ => SPACE) + [attr] + seq(14, _ => 0) + [first, 0, size, 0, 0, 0]
  }

  lemma EntryFields(v: Vol, c: byte, attr: byte, first: byte, size: byte)
    ensures var r := Entry(c, attr, first, size);
            && First(v, r) == first && FileSize(r) == size && r[0] == c && !LowerName(r) && !LowerExtension(r)
            && (IsDirectory(r) <==> attr / 16 % 2 == 1) && (IsSpecial(r) <==> attr / 8 % 2 == 1)
  {
    var r := Entry(c, attr, first, size);
    assert r[20..22] == [0, 0] && r[26..28] == [first, 0] && r[28..32] == [size, 0, 0, 0];
  }

  /** A file of 40 bytes at cluster 2. */
  function FileRecord(c: byte): Record {
    Entry(c, 0x20, 2, 40)
  }

  /**
   * Sectors of 32 bytes, `perCluster` to a cluster; 16 reserved sectors, `copies` tables of one
   * sector, one root record, and a 16-bit sector total that is not 0.
   */
  function BootByte(perCluster: byte, copies: byte, i: nat): byte {
    if i == 11 then 32 else if i == 13 then perCluster else if i == 14 then 16 else if i == 16 then copies
    else if i == 17 || i == 19 || i == 22 then 1 else 0
  }

  lemma BootGeometry(disk: seq<byte>, perCluster: byte, copies: byte)
    requires |disk| >= BOOT && forall i :: 0 <= i < BOOT ==> disk[i] == BootByte(perCluster, copies, i)
    ensures ReadBoot(disk) == Geometry(Fat16, 32 * perCluster as int, 512, 32, copies, 1, 0, 0, 32)
  {
    assert disk[11..13] == [32, 0] && disk[14..16] == [16, 0] && disk[17..19] == [1, 0] && disk[19..21] == [1, 0];
    assert disk[22..24] == [1, 0] && disk[44..48] == [0, 0, 0, 0];
    TimesIs(32, perCluster);
    TimesIs(32, 1);
    TimesIs(16, 32);
  }

  /** The file's chain is 2, 3. */
  function TableEntry(i: nat): uint32 {
    if i == 2 then 3 else if i == 3 then 0xFFFF else 0
  }

  /** The disk ends after cluster 3: the table has more entries than there are clusters. */
  function Example(copies: byte, c: byte): (v: Vol)
    ensures |v.disk| == 672 && |v.fat| == 16
  {
    var disk := seq(672, i requires 0 <= i => BootByte(1, copies, i));
    var fat := seq(16, i requires 0 <= i => TableEntry(i));
    Vol(ReadBoot(disk), fat, fat, FileRecord(c), 1, 608, disk)
  }

  lemma ExampleGeometry(copies: byte, c: byte)
    ensures Example(copies, c).geo == Geometry(Fat16, 32, 512, 32, copies, 1, 0, 0, 32)
  {
    BootGeometry(Example(copies, c).disk, 1, copies);
  }

  lemma ExampleMounted(copies: byte, c: byte)
    requires copies <= 2
    ensures Mounted(Example(copies, c)) && Laid(Example(copies, c))
    ensures IsDataCluster(Example(copies, c), 2) && IsDataCluster(Example(copies, c), 3)
  {
    ExampleGeometry(copies, c);
    var g := Example(copies, c).geo;
    assert After(g, 1) == 544 && After(g, 2) == 576;
  }

  lemma ExampleChain(copies: byte, c: byte)
    ensures Walkable(Cells(Example(copies, c)), 2) && Walk(Cells(Example(copies, c)), 2) == [2, 3]
  {
    ExampleGeometry(copies, c);
    var t := Cells(Example(copies, c));
    assert Next(t, 2) == 3 && Next(t, 3) == 0;
    assert IsWalk(t, 3, [3]) by {
      assert [3][1..] == [];
    }
    assert [2, 3][1..] == [3];
    WalkIs(t, 2, [2, 3]);
  }

  lemma ExampleRecord(copies: byte, c: byte)
    ensures var v, r := Example(copies, c), FileRecord(c);
            && First(v, r) == 2 && r[0] == c && !IsDirectory(r) && !IsSpecial(r) && !LowerName(r) && FileSize(r) == 40
            && Count(v.root) == 1 && RecAt(v, Slot(Root, 0)) == r
  {
    ExampleGeometry(copies, c);
    EntryFields(Example(copies, c), c, 0x20, 2, 40);
  }

  lemma ExampleSlotOk(c: byte, s: Slot)
    requires c != 0 && c != DELETED && IsSlot(Example(2, c), {}, s)
    ensures s == Slot(Root, 0) && SlotOk(Example(2, c), {}, s)
  {
    ExampleMounted(2, c);
    ExampleGeometry(2, c);
    ExampleChain(2, c);
    ExampleRecord(2, c);
    assert s == Slot(Root, 0);
    assert RecordOk(Example(2, c), {}, FileRecord(c));
  }

  lemma ExampleInv(c: byte)
    requires c != 0 && c != DELETED
    ensures Inv(Example(2, c), {}) && IsFile(Example(2, c), {}, Slot(Root, 0))
  {
    var v := Example(2, c);
    ExampleMounted(2, c);
    ExampleRecord(2, c);
    forall s | IsSlot(v, {}, s)
      ensures s == Slot(Root, 0) && SlotOk(v, {}, s)
    {
      ExampleSlotOk(c, s);
    }
  }

  ghost function ExampleSession(c: byte): Session {
    Session(Example(2, c), [SLASH])
  }

  /** The invariant holds, with no directory below the root. */
  lemma ExampleInOrder(c: byte)
    requires c != 0 && c != DELETED
    ensures InOrder(ExampleSession(c), {}) && IsFile(Example(2, c), {}, Slot(Root, 0))
  {
    ExampleInv(c);
    ExampleMounted(2, c);
  }

  // ----- its name -----

  lemma {:induction false} TrimSpaces(s: seq<byte>, n: nat)
    ensures Trim(s + seq(n, _ => SPACE)) == Trim(s)
  {
    if n == 0 {
      assert s + [] == s;
    } else {
      var t := s + seq(n, _ => SPACE);
      assert t[..|t| - 1] == s + seq(n - 1, _ => SPACE);
      TrimSpaces(s, n - 1);
    }
  }

  lemma EntryExtension(v: Vol, c: byte, attr: byte, first: byte, size: byte)
    ensures Extension(Entry(c, attr, first, size)) == []
  {
    var r := Entry(c, attr, first, size);
    EntryFields(v, c, attr, first, size);
    var e := seq(3, i requires 0 <= i < 3 => Fold(LowerExtension(r), r[8 + i]));
    assert e == [] + seq(3, _ => SPACE);
    CStrCut(e, 3);
    assert e[..3] == e;
    TrimSpaces([], 3);
  }

  /** A file of 40 bytes is shown as its first character and a dot, and answers to that alone. */
  lemma FileName(v: Vol, c: byte, first: byte, x: Token)
    requires c != 0 && ShownFirst(false, c) != 0 && ShownFirst(false, c) != SPACE
    ensures Matches(Entry(c, 0x20, first, 40), x) <==> x == [ShownFirst(false, c), DOT]
  {
    EntryFields(v, c, 0x20, first, 40);
    EntryBase(v, c, 0x20, first, 40);
    EntryExtension(v, c, 0x20, first, 40);
    assert [ShownFirst(false, c)] + [DOT] + [] == [ShownFirst(false, c), DOT];
  }

  lemma ExampleLeads(c: byte)
    requires c != 0 && c != DELETED && ShownFirst(false, c) !in {0, SPACE, SLASH, DOT}
    ensures var x := [ShownFirst(false, c), DOT];
            Recoverable(Example(2, c), {}, [], x, Slot(Root, 0))
  {
    ExampleInv(c);
    ExampleRecord(2, c);
    FileName(Example(2, c), c, 2, [ShownFirst(false, c), DOT]);
    assert Follow(Descends(Example(2, c)), []) == Some(Root);
  }

  /** The path of a name in the root directory. */
  lemma RootPath(x: Token)
    requires IsToken(x)
    ensures Names(Render([x]), [], x) && IsCwd(Render([x]))
    ensures Names(Render([WithFirst(x, QUESTION)]), [], WithFirst(x, QUESTION))
  {
    SingleNames(x, [x]);
    MaskedToken(x);
    SingleNames(WithFirst(x, QUESTION), [WithFirst(x, QUESTION)]);
  }

  lemma SingleNames(x: Token, ts: seq<Token>)
    requires IsToken(x) && ts == [x]
    ensures Names(Render(ts), [], x) && IsCwd(Render(ts))
  {
    RenderNames([], x);
    assert [] + [x] == ts;
  }

  // ----- failing inputs: delete and undelete -----

  /** A file of two clusters does not get its table entries back. */
  lemma LongChainLost()
    ensures var v, x := Example(2, 0x41), [0x41, DOT];
            && DeleteDefined(v, Render([x]))
            && UndeleteDefined(Delete(v, Render([x])), Render([WithFirst(x, QUESTION)]))
            && Cells(Undelete(Delete(v, Render([x])), Render([WithFirst(x, QUESTION)]), x[0])) != Cells(v)
  {
    var x: Token := [0x41, DOT];
    ExampleLeads(0x41);
    ExampleRecord(2, 0x41);
    ExampleChain(2, 0x41);
    RootPath(x);
    var masked := Render([WithFirst(x, QUESTION)]);
    var u := ChainRestoredIff(Example(2, 0x41), {}, Render([x]), masked, [], x, Slot(Root, 0));
  }

  lemma KanjiNameFound()
    ensures Tokens(Render([[DELETED, DOT]])) != []
    ensures Find(Example(2, KANJI), Render([[DELETED, DOT]])) == Found(FileRecord(KANJI))
  {
    var x: Token := [DELETED, DOT];
    ExampleLeads(KANJI);
    ExampleRecord(2, KANJI);
    RootPath(x);
    LeadsFound(Example(2, KANJI), {}, Render([x]), [], x, Slot(Root, 0));
  }

  /**
   * A name that is shown with 0xE5 first (stored as 0x05) is not found again after delete and
   * undelete, and its first cluster is then in use under a deleted name.
   */
  lemma KanjiNameLost()
    ensures var v, x := Example(2, KANJI), [DELETED, DOT];
            var path, masked := Render([x]), Render([WithFirst(x, QUESTION)]);
            && DeleteDefined(v, path) && UndeleteDefined(Delete(v, path), masked) && Tokens(path) != []
            && Find(Undelete(Delete(v, path), masked, DELETED), path) != Found(Renamed(FileRecord(KANJI), DELETED))
            && Inv(Delete(v, path), {}) && !Inv(Undelete(Delete(v, path), masked, DELETED), {})
  {
    var x: Token := [DELETED, DOT];
    var v, path, masked := Example(2, KANJI), Render([x]), Render([WithFirst(x, QUESTION)]);
    ExampleLeads(KANJI);
    ExampleRecord(2, KANJI);
    RootPath(x);
    FoundAgainIff(v, {}, path, masked, [], x, Slot(Root, 0));
    var u := RestoredMarkBreaks(v, {}, path, masked, [], x, Slot(Root, 0));
  }

  /** `delete` of a path under a directory that does not exist uses a lookup result that is not there. */
  lemma MissingParent()
    ensures !DeleteDefined(Example(2, 0x41), Render([[0x42], [0x41, DOT]]))
  {
    var v, y, x := Example(2, 0x41), [0x42], [0x41, DOT];
    assert [y] + [x] == [y, x];
    RenderNames([y], x);
    ParentOfRender([y], x);
    NothingElse(0x41, y);
    ExampleInv(0x41);
    DeleteDefinedIff(v, {}, Render([y, x]));
    TokensOfSlash();
  }

  /** The root directory has no other name. */
  lemma NothingElse(c: byte, y: Token)
    requires c != 0 && c != DELETED && ShownFirst(false, c) != 0 && ShownFirst(false, c) != SPACE
    requires IsToken(y) && y != [ShownFirst(false, c), DOT]
    ensures Tokens(Render([y])) == [y] && Find(Example(2, c), Render([y])) == Missing
  {
    FileName(Example(2, c), c, 2, y);
    ExampleRecord(2, c);
    TokensRender([y]);
  }

  /** `delete /A.//` takes the file for its own parent: the chain is freed, the record stays. */
  lemma DoubledSlashBreaks(v: Vol, x: Token, path: seq<byte>)
    requires v == Example(2, 0x41) && x == [0x41, DOT] && path == [SLASH] + x + [SLASH, SLASH]
    ensures DeleteDefined(v, path) && Inv(v, {}) && !Inv(Delete(v, path), {})
  {
    FileA(v, x);
    DoubledNameBreaks(v, {}, x, path, Slot(Root, 0));
  }

  lemma FileA(v: Vol, x: Token)
    requires v == Example(2, 0x41) && x == [0x41, DOT]
    ensures Inv(v, {}) && IsToken(x) && LeadsTo(v, [], x, Slot(Root, 0))
    ensures IsFile(v, {}, Slot(Root, 0)) && First(v, RecAt(v, Slot(Root, 0))) != 0
  {
    ExampleLeads(0x41);
    ExampleInv(0x41);
    ExampleRecord(2, 0x41);
  }

  lemma DoubledNameBreaks(v: Vol, dirs: Dirs, x: Token, path: seq<byte>, t: Slot)
    requires Inv(v, dirs) && IsToken(x) && LeadsTo(v, [], x, t) && path == [SLASH] + x + [SLASH, SLASH]
    requires IsFile(v, dirs, t) && First(v, RecAt(v, t)) != 0
    ensures DeleteDefined(v, path) && !Inv(Delete(v, path), dirs)
  {
    DoubledPath(x, path, [x]);
    LeadsFound(v, dirs, Render([x]), [], x, t);
    DoubledPathBreaks(v, dirs, path, RecAt(v, t));
  }

  lemma DoubledPath(x: Token, path: seq<byte>, ts: seq<Token>)
    requires IsToken(x) && path == [SLASH] + x + [SLASH, SLASH] && ts == [x]
    ensures Tokens(path) == ts == Tokens(Render(ts)) && EndsWithTwoSlashes(path)
    ensures Names(Render(ts), [], x)
  {
    SingleNames(x, ts);
    RenderSnoc([], x);
    assert [] + [x] == ts;
    TokensSplit(Render(ts), []);
    assert Render(ts) + [SLASH] + [] == path;
  }

  // ----- names and cd -----

  /** A file with an extension: "A.TXT" in the bytes of its record, of 40 bytes at cluster 2. */
  function TextFile(): Record {
    [0x41, 0x20, 0x20, 0x20, 0x20, 0x20, 0x20, 0x20, 0x54, 0x58, 0x54, 0x20] + seq(14, _ => 0) + [2, 0, 40, 0, 0, 0]
  }

  /** It is found as "A.TXT", and not as "A." or "A". */
  lemma TextFileFound(x: seq<byte>)
    ensures Search(TextFile(), x) == (if x == ['A' as int, '.' as int, 'T' as int, 'X' as int, 'T' as int] then Some(0)
                                      else None)
  {
    var r, n, e: seq<byte> := TextFile(), [0x41], [0x54, 0x58, 0x54];
    assert r[28..32] == [40, 0, 0, 0] && r[8..11] == e && r[..1] == n && r[11..11] == [];
    SevenSpaces(r[1..8]);
    FileAnswersIff(r, n, e, x);
    assert n + ['.' as int] + e == ['A' as int, '.' as int, 'T' as int, 'X' as int, 'T' as int];
    assert Rec(r, 0) == r && Count(r) == 1;
    if Matches(r, x) {
      SearchFinds(r, x, 0);
    }
  }

  lemma {:induction false} SevenSpaces(p: seq<byte>)
    requires forall i :: 0 <= i < |p| ==> p[i] == ' ' as int
    ensures Filler(p)
  {
    if p != [] {
      SevenSpaces(p[1..]);
    }
  }

  /** `cd A` at "/" moves to "/A/", where A is a directory. */
  lemma CdEnters(s: Session, x: Token)
    requires s == Session(Nested(), [SLASH]) && x == ['A' as int]
    ensures Defined(s, CdCmd(Some(x))) && Step(s, CdCmd(Some(x))).cwd == ['/' as int, 'A' as int, '/' as int]
  {
    NestedInv();
    NestedFirst(x);
    CdIntoFirst(s, {2}, x, 0);
    PathOfA(s.cwd, x);
  }

  lemma PathOfA(cwd: seq<byte>, x: Token)
    requires cwd == [SLASH] && x == ['A' as int]
    ensures cwd + x + [SLASH] == ['/' as int, 'A' as int, '/' as int]
  {
  }

  lemma CdIntoFirst(s: Session, dirs: Dirs, x: Token, i: nat)
    requires InOrder(s, dirs) && s.cwd == [SLASH] && IsToken(x) && x[0] != DOT
    requires FirstMatch(FolderOf(s.vol, Root), x, i) && IsDirectory(Rec(FolderOf(s.vol, Root), i))
    ensures Defined(s, CdCmd(Some(x))) && Step(s, CdCmd(Some(x))).cwd == s.cwd + x + [SLASH]
  {
    CdFromRoot(s, dirs, x);
  }

  lemma NestedFirst(x: Token)
    requires x == [0x41]
    ensures FirstMatch(FolderOf(Nested(), Root), x, 0) && IsDirectory(Rec(FolderOf(Nested(), Root), 0))
  {
    NestedRecords();
    NestedFields();
    DirName(0x41, x);
  }

  lemma CdFromRoot(s: Session, dirs: Dirs, x: Token)
    requires InOrder(s, dirs) && s.cwd == [SLASH] && IsToken(x) && x[0] != DOT
    ensures Defined(s, CdCmd(Some(x)))
    ensures Step(s, CdCmd(Some(x))).cwd == if HasDirectory(s.vol, Root, x) then s.cwd + x + [SLASH] else s.cwd
  {
    TokensOfSlash();
    assert Follow(Descends(s.vol), []) == Some(Root);
    CdMovesIff(s, dirs, Root, x);
  }

  /** `cd A.` at "/" stays there, where A. is a file. */
  lemma CdStays(s: Session, x: Token)
    requires s == ExampleSession(0x41) && x == ['A' as int, '.' as int]
    ensures Defined(s, CdCmd(Some(x))) && Step(s, CdCmd(Some(x))).cwd == ['/' as int]
  {
    ExampleInOrder(0x41);
    ExampleRecord(2, 0x41);
    CdFromRoot(s, {}, x);
    forall i | FirstMatch(FolderOf(s.vol, Root), x, i)
      ensures !IsDirectory(Rec(FolderOf(s.vol, Root), i))
    {
      assert i == 0;
    }
  }

  // ----- a volume with a directory -----

  /**
   * Two sectors to a cluster. The root directory holds the entry of directory A at cluster 2,
   * whose cluster holds "." and a file B at cluster 3. The disk ends after cluster 3.
   */
  function DirA(): Record {
    Entry(0x41, 0x10, 2, 0)
  }

  function DotA(): Record {
    Entry(DOT, 0x10, 2, 0)
  }

  function FileB(): Record {
    Entry(0x42, 0x20, 3, 40)
  }

  function NestedByte(i: nat): byte
    requires i < 736
  {
    if i < 608 then BootByte(2, 2, i)
    else if i < 672 then (DotA() + FileB())[i - 608]
    else 0
  }

  function Nested(): (v: Vol)
    ensures |v.disk| == 736 && |v.fat| == 16
  {
    var disk := seq(736, i requires 0 <= i < 736 => NestedByte(i));
    var fat := seq(16, i requires 0 <= i => if i == 2 || i == 3 then 0xFFFF else 0);
    Vol(ReadBoot(disk), fat, fat, DirA(), 1, 608, disk)
  }

  lemma NestedGeometry()
    ensures Nested().geo == Geometry(Fat16, 64, 512, 32, 2, 1, 0, 0, 32)
    ensures Mounted(Nested()) && Laid(Nested())
    ensures IsDataCluster(Nested(), 2) && IsDataCluster(Nested(), 3)
  {
    BootGeometry(Nested().disk, 2, 2);
    var g := Nested().geo;
    assert After(g, 1) == 544 && After(g, 2) == 576;
  }

  lemma NestedChain(c: nat)
    requires c == 2 || c == 3
    ensures Walkable(Cells(Nested()), c) && Walk(Cells(Nested()), c) == [c] && Cells(Nested())[c] == End
  {
    NestedGeometry();
    FreeWalk(Cells(Nested()), c);
  }

  lemma NestedFields()
    ensures var v := Nested();
            && First(v, DirA()) == 2 == First(v, DotA()) && First(v, FileB()) == 3
            && Real(DirA()) && IsDirectory(DirA()) && IsDot(DotA()) && Real(FileB()) && !IsDirectory(FileB())
            && !IsDeleted(DirA()) && !IsDeleted(FileB()) && FileSize(FileB()) == 40
  {
    NestedGeometry();
    DirFields(Nested(), 0x41);
    DirFields(Nested(), DOT);
    EntryFields(Nested(), 0x42, 0x20, 3, 40);
  }

  lemma DirFields(v: Vol, c: byte)
    ensures var r := Entry(c, 0x10, 2, 0); First(v, r) == 2 && IsDirectory(r) && !IsSpecial(r) && r[0] == c
  {
    EntryFields(v, c, 0x10, 2, 0);
  }

  lemma NestedBuffer()
    ensures OnDisk(Nested(), 2) && Cluster(Nested(), 2) == DotA() + FileB() == Buffer(Nested(), Sub(2))
  {
    NestedGeometry();
    LaidOnDisk(Nested(), 2);
    Offsets.PositionExact(64, 3, 2);
  }

  lemma NestedRecords()
    ensures var v := Nested();
            && Count(v.root) == 1 && RecAt(v, Slot(Root, 0)) == DirA()
            && Count(Buffer(v, Sub(2))) == 2
            && RecAt(v, Slot(Sub(2), 0)) == DotA() && RecAt(v, Slot(Sub(2), 1)) == FileB()
  {
    NestedBuffer();
    assert Rec(DotA() + FileB(), 0) == DotA() && Rec(DotA() + FileB(), 1) == FileB();
  }

  lemma NestedSlot(s: Slot)
    requires IsSlot(Nested(), {2}, s)
    ensures s in {Slot(Root, 0), Slot(Sub(2), 0), Slot(Sub(2), 1)}
  {
    NestedRecords();
    FewSlots(Nested(), 2, s);
  }

  lemma FewSlots(v: Vol, d: nat, s: Slot)
    requires IsSlot(v, {d}, s) && Count(v.root) == 1 && Count(Buffer(v, Sub(d))) == 2
    ensures s in {Slot(Root, 0), Slot(Sub(d), 0), Slot(Sub(d), 1)}
  {
    assert s == Slot(s.place, s.index) && (s.place == Root || s.place == Sub(d));
  }

  lemma NestedOwner(s: Slot, x: nat)
    requires IsSlot(Nested(), {2}, s) && Real(RecAt(Nested(), s)) && Owns(Nested(), RecAt(Nested(), s), x)
    ensures (s == Slot(Root, 0) && x == 2) || (s == Slot(Sub(2), 1) && x == 3)
  {
    NestedSlot(s);
    NestedRecords();
    NestedFields();
    NestedChain(2);
    NestedChain(3);
  }

  lemma NestedSlotOk(s: Slot)
    requires IsSlot(Nested(), {2}, s)
    ensures SlotOk(Nested(), {2}, s)
  {
    var v := Nested();
    NestedSlot(s);
    NestedRecords();
    NestedFields();
    NestedGeometry();
    NestedChain(2);
    NestedChain(3);
    assert IsEntry(v, {2}, Slot(Root, 0), 2);
  }

  /** The invariant holds for a volume with a directory below the root and a file in it. */
  lemma NestedInv()
    ensures Inv(Nested(), {2}) && IsFile(Nested(), {2}, Slot(Sub(2), 1))
    ensures InOrder(Session(Nested(), [SLASH]), {2})
  {
    var v, dirs := Nested(), {2};
    NestedGeometry();
    NestedRecords();
    NestedFields();
    NestedChain(2);
    forall s | IsSlot(v, dirs, s)
      ensures SlotOk(v, dirs, s)
    {
      NestedSlotOk(s);
    }
    forall a, b, x | IsSlot(v, dirs, a) && IsSlot(v, dirs, b) && a != b && Real(RecAt(v, a)) && Real(RecAt(v, b))
      ensures !(Owns(v, RecAt(v, a), x) && Owns(v, RecAt(v, b), x))
    {
      if Owns(v, RecAt(v, a), x) && Owns(v, RecAt(v, b), x) {
        NestedOwner(a, x);
        NestedOwner(b, x);
      }
    }
  }

  /** A directory's shown name is its first character. */
  lemma DirName(c: byte, x: Token)
    requires c != 0 && ShownFirst(false, c) != 0 && ShownFirst(false, c) != SPACE
    ensures Matches(Entry(c, 0x10, 2, 0), x) <==> x == [ShownFirst(false, c)]
  {
    var r := Entry(c, 0x10, 2, 0);
    EntryFields(Nested(), c, 0x10, 2, 0);
    EntryBase(Nested(), c, 0x10, 2, 0);
    DirMatches(r, [ShownFirst(false, c)], x);
  }

  lemma DirMatches(r: Record, name: seq<byte>, x: Token)
    requires IsDirectory(r) && FileSize(r) == 0 && BaseName(r) == Some(name)
    ensures Matches(r, x) <==> x == name
  {
  }

  lemma EntryBase(v: Vol, c: byte, attr: byte, first: byte, size: byte)
    requires c != 0 && ShownFirst(false, c) != 0 && ShownFirst(false, c) != SPACE
    ensures BaseName(Entry(c, attr, first, size)) == Some([ShownFirst(false, c)])
  {
    EntryFields(v, c, attr, first, size);
    var f, shown := ShownFirst(false, c), ShownName(false, Entry(c, attr, first, size)[..8]);
    assert shown == [f] + seq(7, _ => SPACE);
    CStrCut(shown, 8);
    assert shown[..8] == shown;
    TrimSpaces([f], 7);
  }

  /** What "/A" leads to. */
  lemma NestedDir()
    ensures LeadsTo(Nested(), [], [0x41], Slot(Root, 0))
    ensures Descend(Nested(), Root, [0x41]) == Some(Sub(2))
  {
    var v := Nested();
    NestedRecords();
    NestedFields();
    DirName(0x41, [0x41]);
    assert Follow(Descends(v), []) == Some(Root);
    SearchFinds(v.root, [0x41], 0);
  }

  lemma NestedPlace(a: Token)
    requires a == [0x41]
    ensures PlaceOf(Nested(), [a]) == Some(Sub(2))
  {
    NestedDir();
    assert [] + [a] == [a];
    PlaceSnoc(Nested(), [], a);
  }

  /** And "/A/.". */
  lemma NestedDot()
    ensures LeadsTo(Nested(), [[0x41]], [DOT], Slot(Sub(2), 0))
  {
    NestedPlace([0x41]);
    NestedRecords();
    NestedChain(2);
    DirName(DOT, [DOT]);
  }

  // ----- failing inputs: directories -----

  /** `delete /A/.` frees the directory's own cluster while its entry stays live. */
  lemma DotDeleteBreaks()
    ensures var v, path := Nested(), Render([[0x41], [DOT]]);
            Inv(v, {2}) && DeleteDefined(v, path) && !Inv(Delete(v, path), {2})
  {
    var a: Token, x: Token := [0x41], [DOT];
    assert [a] + [x] == [a, x];
    RenderNames([a], x);
    NestedInv();
    NestedRecords();
    NestedFields();
    NestedDot();
    DotTargetBreaks(Nested(), {2}, Render([a, x]), [a], x, Slot(Sub(2), 0));
  }

  /** So does deleting any "." or ".." that leads to a cluster, in a directory of one cluster. */
  lemma DotTargetBreaks(v: Vol, dirs: Dirs, path: seq<byte>, init: seq<Token>, x: Token, t: Slot)
    requires Inv(v, dirs) && Names(path, init, x) && LeadsTo(v, init, x, t)
    requires IsSlot(v, dirs, t) && IsDot(RecAt(v, t)) && First(v, RecAt(v, t)) != 0
    ensures DeleteDefined(v, path) && !Inv(Delete(v, path), dirs)
  {
    LeadsFound(v, dirs, path, init, x, t);
    ParentPlace(v, dirs, path, init, x, t.place);
    ParentOfNamed(v, path, init, x);
    TokensOfSlash();
    DeleteDefinedIff(v, dirs, path);
    DeleteKeepsIff(v, dirs, path);
  }

  /** `undelete` of a deleted directory with '.' or NUL as the character put back leaves its "." without an entry. */
  lemma DotRestoreBreaks(v: Vol, path: seq<byte>, masked: seq<byte>, c: byte)
    requires v == Nested() && path == Render([[0x41]]) && masked == Render([[QUESTION]]) && (c == DOT || c == 0)
    ensures DeleteDefined(v, path) && Inv(Delete(v, path), {2})
    ensures UndeleteDefined(Delete(v, path), masked) && !Inv(Undelete(Delete(v, path), masked, c), {2})
  {
    NestedInv();
    NestedRecords();
    NestedFields();
    NestedDir();
    MaskedA(path, masked);
    EntryErased(v, {2}, path, masked, [], [0x41], Slot(Root, 0), Slot(Sub(2), 0), c);
  }

  lemma MaskedA(path: seq<byte>, masked: seq<byte>)
    requires path == Render([[0x41]]) && masked == Render([[QUESTION]])
    ensures Names(path, [], [0x41]) && Names(masked, [], WithFirst([0x41], QUESTION))
  {
    var x: Token := [0x41];
    assert WithFirst(x, QUESTION) == [QUESTION];
    RootPath(x);
  }

  /** So for any directory that a "." elsewhere leads to. */
  lemma EntryErased(v: Vol, dirs: Dirs, path: seq<byte>, masked: seq<byte>, init: seq<Token>, x: Token, t: Slot,
                    z: Slot, c: byte)
    requires Recoverable(v, dirs, init, x, t) && Straight(v, init, t) && z.place != t.place && (c == DOT || c == 0)
    requires NoLookAlike(Buffer(v, t.place), t.index, WithFirst(x, QUESTION))
    requires Names(path, init, x) && Names(masked, init, WithFirst(x, QUESTION))
    requires IsDirectory(RecAt(v, t)) && First(v, RecAt(v, t)) != 0 && DotNamed(v, dirs, z, First(v, RecAt(v, t)))
    ensures DeleteDefined(v, path) && Inv(Delete(v, path), dirs)
    ensures UndeleteDefined(Delete(v, path), masked) && !Inv(Undelete(Delete(v, path), masked, c), dirs)
  {
    var u := DeletedLeads(v, dirs, path, init, x, t);
    DotStays(v, dirs, path, init, x, t, z);
    LeadsFound(Delete(v, path), dirs, masked, init, WithFirst(x, QUESTION), t);
    RenamedKeeps(RecAt(v, t), DELETED);
    ErasedBreaks(Delete(v, path), dirs, masked, init, WithFirst(x, QUESTION), t, z, c);
  }

  lemma DotStays(v: Vol, dirs: Dirs, path: seq<byte>, init: seq<Token>, x: Token, t: Slot, z: Slot)
    requires Recoverable(v, dirs, init, x, t) && z.place != t.place && Names(path, init, x)
    requires DotNamed(v, dirs, z, First(v, RecAt(v, t)))
    ensures DeleteDefined(v, path) && DotNamed(Delete(v, path), dirs, z, First(v, RecAt(v, t)))
    ensures Delete(v, path).geo == v.geo
  {
    var e := RecAt(v, t);
    DeleteTarget(v, dirs, path, init, x, t);
    EditedRecord(v, dirs, Release(v, First(v, e)), t.place, e, DELETED, z);
    EditedCells(v, dirs, Release(v, First(v, e)), t.place, e, DELETED);
    EditedShape(v, dirs, Release(v, First(v, e)), t.place, e, DELETED);
  }

  lemma ErasedBreaks(v: Vol, dirs: Dirs, path: seq<byte>, init: seq<Token>, y: Token, t: Slot, z: Slot, c: byte)
    requires Inv(v, dirs) && Names(path, init, y) && LeadsTo(v, init, y, t) && y != [] && y[0] != DOT
    requires IsSlot(v, dirs, t) && IsDirectory(RecAt(v, t)) && First(v, RecAt(v, t)) != 0 && (c == DOT || c == 0)
    requires DotNamed(v, dirs, z, First(v, RecAt(v, t)))
    ensures UndeleteDefined(v, path) && !Inv(Undelete(v, path, c), dirs)
  {
    UndeleteLeadsTarget(v, dirs, path, init, y, t, c);
    LeadsFound(v, dirs, path, init, y, t);
    UndeleteKeepsIff(v, dirs, path, init, y, c);
  }

  // ----- failing inputs: paths -----

  /** "/A": the slash is taken for the deleted character. */
  lemma RootedNameSpoilt()
    ensures FixedPath([SLASH, 0x41]) == [QUESTION, 0x41] && FixedChar([SLASH, 0x41]) == SLASH
  {
    var s := [SLASH, 0x41];
    assert LastSlash(s, 1) == 0 && LastSlash(s, 2) == 0;
    assert s[0 := QUESTION] == [QUESTION, 0x41];
  }

  /** "A//": a component "?" is appended, and NUL reported as the deleted character. */
  lemma DoubledNameSpoilt()
    ensures FixedPath([0x41, SLASH, SLASH]) == [0x41, SLASH, QUESTION] && FixedChar([0x41, SLASH, SLASH]) == 0
  {
    assert StripSlash([0x41, SLASH, SLASH]) == [0x41, SLASH];
    LastSlashIs([0x41, SLASH], 1);
  }

  /** ".x" at "/": three bytes are asked for, and "/x/" with its terminator takes four. */
  lemma HiddenNameOverrun()
    ensures Convert([SLASH], Some([DOT, 0x78])) == [SLASH, 0x78, SLASH] && Asked([SLASH], Some([DOT, 0x78])) == 3
    ensures !Roomy([SLASH], Some([DOT, 0x78]))
  {
    assert [DOT, 0x78][1..] == [0x78];
    assert [SLASH] + [0x78] == [SLASH, 0x78];
  }

  /** So no command with that path is defined, in whatever session it is given. */
  lemma HiddenNameUndefined(s: Session, dirs: Dirs, p: seq<byte>)
    requires InOrder(s, dirs) && Hidden(p)
    ensures !Defined(s, DeleteCmd(Some(p))) && !Defined(s, CdCmd(Some(p)))
  {
    RoomyIff(s.cwd, Some(p));
  }

  /** ".a/b/" fits, and its masked form ".a/?" does not. */
  lemma HiddenDirOverrun()
    ensures var d := [DOT, 0x61, SLASH, 0x62, SLASH];
            && FixedPath(d) == [DOT, 0x61, SLASH, QUESTION]
            && Roomy([SLASH], Some(d)) && !Roomy([SLASH], Some(FixedPath(d)))
  {
    var d, s := [DOT, 0x61, SLASH, 0x62, SLASH], [DOT, 0x61, SLASH, 0x62];
    assert StripSlash(d) == s;
    LastSlashIs(s, 2);
    assert s[3 := QUESTION] == [DOT, 0x61, SLASH, QUESTION];
    RoomyIff([SLASH], Some(d));
    RoomyIff([SLASH], Some(FixedPath(d)));
  }

  /** "/A//": its parent path still names A. */
  lemma DoubledSlashParent()
    ensures Tokens(ParentPath([SLASH, 0x41, SLASH, SLASH])) == [[0x41]] == Tokens([SLASH, 0x41, SLASH, SLASH])
  {
    var path := [SLASH, 0x41, SLASH, SLASH];
    ParentOfDoubled(path);
    TokensSnoc([], [0x41]);
    assert [] + [SLASH] + [0x41] + [SLASH] == [SLASH, 0x41, SLASH];
    TokensSplit([SLASH, 0x41, SLASH], []);
    assert [SLASH, 0x41, SLASH] + [SLASH] + [] == path;
    assert Tokens([]) == [];
  }

  /** "//A/": its parent path has no name in it, and is not "/" either. */
  lemma EmptyComponentParent()
    ensures Tokens([SLASH, SLASH, 0x41, SLASH]) == [[0x41]]
    ensures !Named(ParentPath([SLASH, SLASH, 0x41, SLASH]))
  {
    var path := [SLASH, SLASH, 0x41, SLASH];
    TokensSnoc([SLASH], [0x41]);
    assert [SLASH] + [SLASH] + [0x41] + [SLASH] == path;
    NoTokensNoName([SLASH, SLASH]);
    TokensOfSlash();
    var s := StripSlash(path);
    assert s == [SLASH, SLASH, 0x41];
    LastSlashIs(s, 1);
    assert s[..1] + [SLASH] == [SLASH, SLASH];
  }

  // ----- failing inputs: the disk -----

  /** With one table copy, some root directory is not read back. */
  lemma OneCopyLosesRoot()
    ensures Mounted(Example(1, 0x41))
    ensures exists root :: |root| == |Example(1, 0x41).root| && !RemountKeeps(Example(1, 0x41), root)
  {
    ExampleMounted(1, 0x41);
    ExampleGeometry(1, 0x41);
    RemountKeepsRootIff(Example(1, 0x41));
  }

  /** A FAT32 root directory of two clusters: the second transfer starts behind the buffer. */
  lemma RootOverrun()
    ensures !RootInside([Free, Free, To(3), End], 2, 0, 512, 2)
  {
    var t := [Free, Free, To(3), End];
    assert !RootInside(t, 3, 512, 512, 1);
  }

  /** A directory of two clusters is not read back as written. */
  lemma TwoClustersGarbled(buf: seq<byte>) returns (heap: seq<byte>)
    requires |buf| == 64
    ensures AllOnDisk(Example(2, 0x41), [2, 3]) && buf <= heap && HeapNeeded(Size(Example(2, 0x41)), 2) <= |heap|
    ensures !ReadsBack(Example(2, 0x41), [2, 3], heap, buf)
  {
    var v := Example(2, 0x41);
    ExampleMounted(2, 0x41);
    ExampleGeometry(2, 0x41);
    AllLaid(v, [2, 3]);
    heap := BadHeap(v, [2, 3], buf);
  }

  /** A file of 5 bytes with a second cluster is printed with 5 bytes of that cluster as well. */
  lemma DumpTooMuch()
    ensures var v := Example(2, 0x41);
            AllOnDisk(v, [2, 3]) && |Data(v, [2, 3])| == 64 && DumpOutput(v, [2, 3], 5) != Data(v, [2, 3])[..5]
  {
    var v := Example(2, 0x41);
    ExampleMounted(2, 0x41);
    ExampleGeometry(2, 0x41);
    AllLaid(v, [2, 3]);
    DumpExactIff(v, [2, 3], 5, 0, 5);
  }

  /** A cluster that links to itself is visited for ever. */
  lemma CycleNeverEnds()
    ensures !Walkable([Free, Free, To(2)], 2)
  {
    var t := [Free, Free, To(2)];
    if Walkable(t, 2) {
      Grows(2, Walk(t, 2));
      WalkStep(t, 2);
    }
  }

  lemma Grows(x: nat, s: seq<nat>)
    ensures s != [x] + s
  {
    assert |[x] + s| == |s| + 1;
  }

  /** With 32-byte clusters, cluster 2^27 + 2 lies on cluster 2. */
  lemma FarClusterWraps()
    ensures Offsets.Position(32, 2 + 0x800_0000) == Offsets.Position(32, 2)
  {
    Offsets.Wraps(32, 0x800_0000);
  }

}
