/**
 * A FAT32 volume in good order, with two files in the root directory whose names differ in the
 * first character only; and the input on which undelete takes one for the other.
 */
module TwoFiles {
  import opened Bytes
  import opened FatCells
  import opened Chains
  import opened Records
  import opened Paths
  import opened Volumes
  import opened Directories
  import opened Layout
  import opened Lookups
  import opened Ownership
  import opened Operations
  import opened Runs
  import opened Restore
  import opened Examples

  /** Files "A." at cluster 3 and "B." at cluster 4, of 40 bytes each. */
  function FileOf(c: byte, first: byte): Record {
    Examples.Entry(c, 0x20, first, 40)
  }

  /**
   * Sectors of 32 bytes, two to a cluster; 16 reserved sectors, two tables of one sector, the root
   * directory at cluster 2. The 16-bit sector total is 0, so this is FAT32.
   */
  function BootByte32(i: nat): byte {
    if i == 11 then 32 else if i == 13 then 2 else if i == 14 then 16 else if i == 16 then 2
    else if i == 36 then 1 else if i == 44 then 2 else 0
  }

  function Pair(): (v: Vol)
    ensures |v.disk| == 768 && |v.fat| == 8
  {
    var disk := seq(768, i requires 0 <= i => BootByte32(i));
    var fat := seq(8, i requires 0 <= i => if 2 <= i <= 4 then 0x0FFF_FFFF else 0);
    Vol(ReadBoot(disk), fat, fat, FileOf(0x41, 3) + FileOf(0x42, 4), 2, 576, disk)
  }

  lemma PairBoot(disk: seq<byte>)
    requires |disk| >= BOOT && forall i :: 0 <= i < BOOT ==> disk[i] == BootByte32(i)
    ensures ReadBoot(disk) == Geometry(Fat32, 64, 512, 32, 2, 0, 2, 0, 64)
  {
    assert disk[11..13] == [32, 0] && disk[14..16] == [16, 0] && disk[17..19] == [0, 0] && disk[19..21] == [0, 0];
    assert disk[36..40] == [1, 0, 0, 0] && disk[44..48] == [2, 0, 0, 0];
    TimesIs(32, 2);
    TimesIs(32, 1);
    TimesIs(16, 32);
    Offsets.PositionExact(64, 3, 2);
  }

  lemma PairGeometry()
    ensures Pair().geo == Geometry(Fat32, 64, 512, 32, 2, 0, 2, 0, 64)
    ensures Mounted(Pair()) && Laid(Pair())
    ensures IsDataCluster(Pair(), 3) && IsDataCluster(Pair(), 4)
  {
    PairBoot(Pair().disk);
    var g := Pair().geo;
    assert After(g, 1) == 544 && After(g, 2) == 576;
  }

  lemma PairChain(c: nat)
    requires c == 3 || c == 4
    ensures Walkable(Cells(Pair()), c) && Walk(Cells(Pair()), c) == [c] && Cells(Pair())[c] == End
  {
    PairGeometry();
    FreeWalk(Cells(Pair()), c);
  }

  lemma PairRecords()
    ensures Count(Pair().root) == 2
    ensures RecAt(Pair(), Slot(Root, 0)) == FileOf(0x41, 3) && RecAt(Pair(), Slot(Root, 1)) == FileOf(0x42, 4)
    ensures First(Pair(), FileOf(0x41, 3)) == 3 && First(Pair(), FileOf(0x42, 4)) == 4
  {
    var a: seq<byte>, b: seq<byte> := FileOf(0x41, 3), FileOf(0x42, 4);
    assert Rec(a + b, 0) == a && Rec(a + b, 1) == b;
    EntryFields(Pair(), 0x41, 0x20, 3, 40);
    EntryFields(Pair(), 0x42, 0x20, 4, 40);
  }

  /** What a live file with a chain of one cluster claims. */
  lemma PairFile(c: byte, first: byte)
    requires c in {0x41, 0x42} && first in {3, 4}
    ensures var v, r := Pair(), FileOf(c, first);
            && Real(r) && !IsDirectory(r) && !IsDeleted(r) && RecordOk(v, {}, r) && First(v, r) == first
            && forall x :: Owns(v, r, x) <==> x == first
  {
    PairGeometry();
    PairChain(first);
    FileFields(Pair(), c, first);
    LoneCluster(Pair(), FileOf(c, first), first);
  }

  lemma FileFields(v: Vol, c: byte, first: byte)
    requires c in {0x41, 0x42}
    ensures var r := FileOf(c, first); First(v, r) == first && Real(r) && !IsDirectory(r) && !IsDeleted(r)
  {
    EntryFields(v, c, 0x20, first, 40);
  }

  /** A live file whose chain is one data cluster claims that cluster and is in order. */
  lemma LoneCluster(v: Vol, r: Record, f: nat)
    requires First(v, r) == f && Real(r) && !IsDirectory(r) && !IsDeleted(r)
    requires IsDataCluster(v, f) && !IsRootCluster(v, f)
    requires Walkable(Cells(v), f) && Walk(Cells(v), f) == [f] && Cells(v)[f] == End
    ensures RecordOk(v, {}, r) && forall x :: Owns(v, r, x) <==> x == f
  {
  }

  lemma PairSlot(s: Slot)
    requires IsSlot(Pair(), {}, s)
    ensures s == Slot(Root, 0) || s == Slot(Root, 1)
    ensures RecAt(Pair(), s) == if s.index == 0 then FileOf(0x41, 3) else FileOf(0x42, 4)
  {
    PairRecords();
    assert s == Slot(Root, s.index);
  }

  lemma PairSlotOk(s: Slot)
    requires IsSlot(Pair(), {}, s)
    ensures SlotOk(Pair(), {}, s)
  {
    PairSlot(s);
    PairFile(if s.index == 0 then 0x41 else 0x42, if s.index == 0 then 3 else 4);
  }

  lemma PairOwner(s: Slot, x: nat)
    requires IsSlot(Pair(), {}, s) && Owns(Pair(), RecAt(Pair(), s), x)
    ensures x == s.index + 3
  {
    PairSlot(s);
    PairFile(if s.index == 0 then 0x41 else 0x42, if s.index == 0 then 3 else 4);
  }

  /** The invariant holds for a FAT32 volume. */
  lemma PairInv()
    ensures Inv(Pair(), {}) && InOrder(Session(Pair(), [SLASH]), {})
  {
    var v := Pair();
    PairGeometry();
    forall s | IsSlot(v, {}, s)
      ensures SlotOk(v, {}, s)
    {
      PairSlotOk(s);
    }
    forall a, b, x | IsSlot(v, {}, a) && IsSlot(v, {}, b) && a != b && Real(RecAt(v, a)) && Real(RecAt(v, b))
      ensures !(Owns(v, RecAt(v, a), x) && Owns(v, RecAt(v, b), x))
    {
      if Owns(v, RecAt(v, a), x) && Owns(v, RecAt(v, b), x) {
        PairOwner(a, x);
        PairOwner(b, x);
        PairSlot(a);
        PairSlot(b);
      }
    }
  }

  /** The first record of the root directory leads to itself. */
  lemma RootLeads(v: Vol, x: Token, i: nat)
    requires Inv(v, {}) && x != [] && x[0] != DOT && FirstMatch(v.root, x, i)
    ensures Recoverable(v, {}, [], x, Slot(Root, i)) && Straight(v, [], Slot(Root, i))
  {
    assert Follow(Descends(v), []) == Some(Root);
  }

  lemma AnswersTo(c: byte, first: byte, x: Token)
    requires c in {0x41, 0x42}
    ensures Matches(FileOf(c, first), x) <==> x == [c, DOT]
  {
    FileName(Pair(), c, first, x);
  }

  lemma PairMatches(x: Token, z: Token)
    requires x == [0x41, DOT] && z == [0x42, DOT]
    ensures FirstMatch(Pair().root, x, 0) && FirstMatch(Pair().root, z, 1)
    ensures Rec(Pair().root, 0) != Rec(Pair().root, 1)
  {
    PairRecords();
    AnswersTo(0x41, 3, x);
    AnswersTo(0x41, 3, z);
    AnswersTo(0x42, 4, z);
    FirstOfTwo(Pair().root, FileOf(0x41, 3), FileOf(0x42, 4), x, z);
  }

  lemma FirstOfTwo(buf: seq<byte>, a: Record, b: Record, x: Token, z: Token)
    requires Count(buf) == 2 && Rec(buf, 0) == a && Rec(buf, 1) == b
    requires Matches(a, x) && !Matches(a, z) && Matches(b, z)
    ensures FirstMatch(buf, x, 0) && FirstMatch(buf, z, 1) && a != b
  {
  }

  /** `delete /A.`, `delete /B.`, `undelete /B.`: file B is not back, its name went to file A. */
  lemma PairLost(v: Vol, x: Token, z: Token, px: seq<byte>, pz: seq<byte>, masked: seq<byte>)
    requires v == Pair() && x == [0x41, DOT] && z == [0x42, DOT]
    requires px == Render([x]) && pz == Render([z]) && masked == Render([WithFirst(z, QUESTION)])
    ensures Inv(v, {}) && DeleteDefined(v, px)
    ensures NameTaken(Delete(v, px), pz, masked, [], z, Slot(Root, 1), Slot(Root, 0))
  {
    PairInv();
    PairMatches(x, z);
    PairPaths(x, z, 0x41, 0x42, px, pz, masked);
    SecondOfTwo(v, x, z, px, pz, masked);
  }

  lemma PairPaths(x: Token, z: Token, c: byte, d: byte, px: seq<byte>, pz: seq<byte>, masked: seq<byte>)
    requires x == [c, DOT] && z == [d, DOT] && c != SLASH && d != SLASH
    requires px == Render([x]) && pz == Render([z]) && masked == Render([WithFirst(z, QUESTION)])
    ensures WithFirst(x, QUESTION) == WithFirst(z, QUESTION)
    ensures Names(px, [], x) && Names(pz, [], z) && Names(masked, [], WithFirst(z, QUESTION))
  {
    SameMask(x, z, c, d);
    PathsOf(x, px, Render([WithFirst(x, QUESTION)]));
    PathsOf(z, pz, masked);
  }

  lemma SameMask(x: Token, z: Token, c: byte, d: byte)
    requires x == [c, DOT] && z == [d, DOT]
    ensures WithFirst(x, QUESTION) == WithFirst(z, QUESTION)
  {
  }

  lemma PathsOf(x: Token, path: seq<byte>, masked: seq<byte>)
    requires IsToken(x) && path == Render([x]) && masked == Render([WithFirst(x, QUESTION)])
    ensures Names(path, [], x) && Names(masked, [], WithFirst(x, QUESTION))
  {
    RootPath(x);
  }

  lemma SecondOfTwo(v: Vol, x: Token, z: Token, px: seq<byte>, pz: seq<byte>, masked: seq<byte>)
    requires Inv(v, {}) && FirstMatch(v.root, x, 0) && FirstMatch(v.root, z, 1) && Rec(v.root, 0) != Rec(v.root, 1)
    requires x != [] && x[0] != DOT && z != [] && z[0] !in {DOT, QUESTION, DELETED}
    requires WithFirst(x, QUESTION) == WithFirst(z, QUESTION)
    requires Names(px, [], x) && Names(pz, [], z) && Names(masked, [], WithFirst(z, QUESTION))
    ensures DeleteDefined(v, px) && NameTaken(Delete(v, px), pz, masked, [], z, Slot(Root, 1), Slot(Root, 0))
  {
    RootLeads(v, x, 0);
    RootLeads(v, z, 1);
    var b := SecondLost(v, {}, px, pz, masked, [], x, Slot(Root, 0), z, Slot(Root, 1));
    assert b == Slot(Root, 0);
  }
}
