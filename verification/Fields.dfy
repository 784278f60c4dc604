/**
 * What the bytes on the disk mean: packed fields written from their values, low byte first, and
 * what the driver reads from them. The boot sector, directory records and table entries.
 */
module Fields {
  import opened Bytes
  import opened FatCells
  import opened Records
  import opened Volumes
  import opened Layout
  import opened Lfn
  import LongNames
  import Offsets
  import Unicode

  // ----- numbers -----

  /** A 16-bit field. */
  function Word16(n: nat): (b: seq<byte>)
    requires n < 0x1_0000
    ensures |b| == 2
  {
    [n % 256, n / 256]
  }

  /** A 32-bit field: the lower half, then the upper half. */
  function Word32(n: nat): (b: seq<byte>)
    requires n < WORD
    ensures |b| == 4
  {
    Word16(n % 0x1_0000) + Word16(n / 0x1_0000)
  }

  lemma ReadWord16(n: nat)
    requires n < 0x1_0000
    ensures Le16(Word16(n)) == n
  {
  }

  lemma ReadWord32(n: nat)
    requires n < WORD
    ensures Le32(Word32(n)) == n
  {
    var lo, hi := n % 0x1_0000, n / 0x1_0000;
    assert Word32(n) == [lo % 256, lo / 256, hi % 256, hi / 256];
  }

  /** `field` lies in `b` from position `at` on. */
  predicate HasField(b: seq<byte>, at: nat, field: seq<byte>) {
    at + |field| <= |b| && b[at..at + |field|] == field
  }

  // ----- directory records -----

  /**
   * The first cluster: its lower half at byte 26 and its upper half at byte 20. FAT32 uses both, FAT16
   * the lower one.
   */
  lemma FirstClusterOf(r: Record, n: nat)
    requires n < WORD && HasField(r, 26, Word16(n % 0x1_0000)) && HasField(r, 20, Word16(n / 0x1_0000))
    ensures FirstCluster(Fat32, r) == n
    ensures FirstCluster(Fat16, r) == n % 0x1_0000
  {
    ReadWord16(n % 0x1_0000);
    ReadWord16(n / 0x1_0000);
  }

  lemma FileSizeOf(r: Record, n: nat)
    requires n < WORD && HasField(r, 28, Word32(n))
    ensures FileSize(r) == n
  {
    ReadWord32(n);
  }

  /** A byte with bits 3 and 4 as given, the three bits below them `lo` and the three above them `hi`. */
  function WithBits(hi: nat, bit4: bool, bit3: bool, lo: nat): byte
    requires hi < 8 && lo < 8
  {
    32 * hi + (if bit4 then 16 else 0) + (if bit3 then 8 else 0) + lo
  }

  lemma BitsOf(hi: nat, bit4: bool, bit3: bool, lo: nat)
    requires hi < 8 && lo < 8
    ensures WithBits(hi, bit4, bit3, lo) / 16 % 2 == (if bit4 then 1 else 0)
    ensures WithBits(hi, bit4, bit3, lo) / 8 % 2 == (if bit3 then 1 else 0)
  {
    var b := WithBits(hi, bit4, bit3, lo);
    assert b / 16 == 2 * hi + (if bit4 then 1 else 0);
    assert b / 8 == 2 * (b / 16) + (if bit3 then 1 else 0);
  }

  /** Attributes: bit 4 makes a directory, bit 3 a label or a long-name part. */
  lemma AttributeBits(r: Record, hi: nat, directory: bool, special: bool, lo: nat)
    requires hi < 8 && lo < 8 && r[11] == WithBits(hi, directory, special, lo)
    ensures IsDirectory(r) == directory && IsSpecial(r) == special
  {
    BitsOf(hi, directory, special, lo);
  }

  /** Case information: bit 4 for the extension, bit 3 for the name. */
  lemma CaseBits(r: Record, hi: nat, extension: bool, name: bool, lo: nat)
    requires hi < 8 && lo < 8 && r[12] == WithBits(hi, extension, name, lo)
    ensures LowerExtension(r) == extension && LowerName(r) == name
  {
    BitsOf(hi, extension, name, lo);
  }

  /** A long-name record: every one of the four lowest attributes. */
  lemma LongNameAttribute(r: Record)
    ensures IsLfn(r) <==> r[11] == 15
    ensures IsLfn(r) ==> !LongNames.Asks(r)
  {
  }

  /** Its id: the number of its part, and 64 in the record that comes first. */
  lemma IdOf(r: Record, high: bool, start: bool, bit5: bool, number: nat)
    requires number < 32
    requires r[0] == (if high then 128 else 0) + (if start then 64 else 0) + (if bit5 then 32 else 0) + number
    ensures IsStart(r) == start && SlotNumber(r) == number
  {
    IdBits(r[0], if high then 1 else 0, if start then 1 else 0, if bit5 then 1 else 0, number);
  }

  lemma IdBits(id: nat, a: nat, b: nat, c: nat, number: nat)
    requires a < 2 && b < 2 && c < 2 && number < 32 && id == 128 * a + 64 * b + 32 * c + number
    ensures id / 0x40 % 2 == b && id % 0x20 == number
  {
    assert id / 0x40 == 2 * a + b;
  }

  /** Where character `k` of a part is: 5 characters, then 6, then 2. */
  function CharacterAt(k: nat): nat {
    if k < 5 then 1 + 2 * k else if k < 5 + 6 then 14 + 2 * (k - 5) else 28 + 2 * (k - 5 - 6)
  }

  /** A character is stored low byte first, and the 13 of a record are read in order. */
  lemma CharactersOf(r: Record, k: nat, u: Unicode.Unit)
    requires k < 13 && HasField(r, CharacterAt(k), Word16(u))
    ensures Unicode.UnitAt(NamePart(r), k) == u
  {
    var at := CharacterAt(k);
    assert r[at] == r[at..at + 2][0] && r[at + 1] == r[at..at + 2][1];
  }

  /** `list` asks for the name of a used record that is a directory, or neither a label nor a long-name part. */
  lemma AsksBits(r: Record, hi: nat, directory: bool, special: bool, lo: nat)
    requires hi < 8 && lo < 8 && r[11] == WithBits(hi, directory, special, lo)
    ensures LongNames.Asks(r) <==> r[0] != 0 && (directory || !special)
  {
    AttributeBits(r, hi, directory, special, lo);
  }

  // ----- names -----

  const UPPER: string := "ABCDEFGHIJKLMNOPQRSTUVWXYZ"
  const LOWER: string := "abcdefghijklmnopqrstuvwxyz"

  /** Letter by letter, lower case is what the two alphabets say; other bytes stay. */
  lemma LowerCase(b: byte, k: nat)
    requires k < 26
    ensures b == UPPER[k] as int ==> ToLower(b) == LOWER[k] as int
    ensures !(UPPER[0] as int <= b <= UPPER[25] as int) ==> ToLower(b) == b
  {
    AlphabetAt(k);
    AlphabetAt(0);
    AlphabetAt(25);
  }

  lemma AlphabetAt(k: nat)
    requires k < 26
    ensures UPPER[k] as int == 0x41 + k && LOWER[k] as int == 0x61 + k
  {
  }

  /** A string in lower case, if that is wanted. */
  function Cased(lower: bool, s: seq<byte>): (t: seq<byte>)
    ensures |t| == |s|
  {
    if lower then seq(|s|, i requires 0 <= i < |s| => ToLower(s[i])) else s
  }

  /** What fills a name field up: spaces, or anything behind a NUL. */
  predicate Filler(p: seq<byte>) {
    p == [] || p[0] == 0 || (p[0] == ' ' as int && Filler(p[1..]))
  }

  /** The characters of a field before its filler: none is NUL, and the last is no space. */
  predicate Stem(s: seq<byte>) {
    0 !in s && (s == [] || s[|s| - 1] != ' ' as int)
  }

  lemma {:induction false} FillerCut(p: seq<byte>)
    requires Filler(p)
    ensures forall i :: 0 <= i < |CStr(p)| ==> CStr(p)[i] == SPACE
  {
    if p != [] && p[0] != 0 {
      FillerCut(p[1..]);
    }
  }

  lemma {:induction false} CStrOver(s: seq<byte>, p: seq<byte>)
    requires 0 !in s
    ensures CStr(s + p) == s + CStr(p)
  {
    if s == [] {
      assert s + p == p;
    } else {
      assert s[0] in s && (s + p)[1..] == s[1..] + p;
      CStrOver(s[1..], p);
    }
  }

  lemma {:induction false} TrimOver(s: seq<byte>, q: seq<byte>)
    requires (s == [] || s[|s| - 1] != SPACE) && forall i :: 0 <= i < |q| ==> q[i] == SPACE
    ensures Trim(s + q) == s
    decreases |q|
  {
    if q == [] {
      assert s + q == s;
    } else {
      var k := |q| - 1;
      assert (s + q)[..|s + q| - 1] == s + q[..k];
      TrimOver(s, q[..k]);
    }
  }

  /** A field is shown as its stem. */
  lemma ShownStem(s: seq<byte>, p: seq<byte>)
    requires Stem(s) && Filler(p)
    ensures Trim(CStr(s + p)) == s
  {
    CStrOver(s, p);
    FillerCut(p);
    TrimOver(s, CStr(p));
  }

  lemma {:induction false} CasedFiller(lower: bool, p: seq<byte>)
    requires Filler(p)
    ensures Filler(Cased(lower, p))
  {
    if p != [] && p[0] == SPACE {
      CasedFiller(lower, p[1..]);
      assert Cased(lower, p)[1..] == Cased(lower, p[1..]);
    }
  }

  lemma CasedStem(lower: bool, s: seq<byte>)
    requires Stem(s)
    ensures Stem(Cased(lower, s))
  {
  }

  lemma CasedOver(lower: bool, s: seq<byte>, p: seq<byte>)
    ensures Cased(lower, s + p) == Cased(lower, s) + Cased(lower, p)
  {
  }

  /** The first character of a name: '?' for a deleted record, 0xE5 for a name stored with 5. */
  function Initial(lower: bool, b: byte): byte {
    if b == 0xE5 then '?' as int else if b == 5 then 0xE5 else Cased(lower, [b])[0]
  }

  /** A name as shown: its first character, then the others in the case wanted. */
  function NameShown(lower: bool, n: seq<byte>): (s: seq<byte>)
    requires n != []
    ensures |s| == |n|
  {
    [Initial(lower, n[0])] + Cased(lower, n[1..])
  }

  /** The name and the extension of a record, and what fills up their fields. */
  predicate HasName(r: Record, n: seq<byte>, e: seq<byte>) {
    && 1 <= |n| <= 8 && Stem(n) && r[..|n|] == n && Filler(r[|n|..8])
    && |e| <= 3 && Stem(e) && r[8..8 + |e|] == e && Filler(r[8 + |e|..11])
  }

  lemma NameRead(r: Record, n: seq<byte>, e: seq<byte>)
    requires HasName(r, n, e)
    ensures BaseName(r) == Some(NameShown(LowerName(r), n))
  {
    var lower, p := LowerName(r), r[|n|..8];
    var shown := NameShown(lower, n) + Cased(lower, p);
    assert n[0] in n;
    CasedFiller(lower, p);
    NameStem(lower, n);
    ShownStem(NameShown(lower, n), Cased(lower, p));
    NameField(r, n, lower);
  }

  lemma NameStem(lower: bool, n: seq<byte>)
    requires n != [] && Stem(n)
    ensures Stem(NameShown(lower, n))
  {
    assert n[0] in n;
    if |n| > 1 {
      assert Stem(n[1..]);
      CasedStem(lower, n[1..]);
    }
  }

  lemma NameField(r: Record, n: seq<byte>, lower: bool)
    requires 1 <= |n| <= 8 && r[..|n|] == n
    ensures ShownName(lower, r[..8]) == NameShown(lower, n) + Cased(lower, r[|n|..8])
  {
    var a, b := ShownName(lower, r[..8]), NameShown(lower, n) + Cased(lower, r[|n|..8]);
    forall i | 0 <= i < 8
      ensures a[i] == b[i]
    {
      assert i < |n| ==> r[i] == r[..|n|][i];
    }
  }

  lemma ExtensionRead(r: Record, n: seq<byte>, e: seq<byte>)
    requires HasName(r, n, e)
    ensures Extension(r) == Cased(LowerExtension(r), e)
  {
    var lower, p := LowerExtension(r), r[8 + |e|..11];
    CasedFiller(lower, p);
    CasedStem(lower, e);
    ShownStem(Cased(lower, e), Cased(lower, p));
    ExtensionIs(r, e, lower);
  }

  lemma ExtensionIs(r: Record, e: seq<byte>, lower: bool)
    requires |e| <= 3 && r[8..8 + |e|] == e
    ensures seq(3, i requires 0 <= i < 3 => Fold(lower, r[8 + i])) == Cased(lower, e) + Cased(lower, r[8 + |e|..11])
  {
    forall i | 0 <= i < |e|
      ensures r[8 + i] == e[i]
    {
      assert r[8..8 + |e|][i] == e[i];
    }
  }

  /**
   * What a record answers to: as a file, to its name, a dot and its extension, if it has a size and
   * is no label; as a directory, to its name. The case bits choose lower case for either part.
   */
  lemma AnswersIff(r: Record, n: seq<byte>, e: seq<byte>, x: seq<byte>)
    requires HasName(r, n, e)
    ensures Matches(r, x) <==>
            || (FileSize(r) != 0 && !IsSpecial(r)
                && x == NameShown(LowerName(r), n) + ['.' as int] + Cased(LowerExtension(r), e))
            || (IsDirectory(r) && x == NameShown(LowerName(r), n))
  {
    NameRead(r, n, e);
    ExtensionRead(r, n, e);
  }

  /** A plain file with upper-case names. */
  lemma FileAnswersIff(r: Record, n: seq<byte>, e: seq<byte>, x: seq<byte>)
    requires HasName(r, n, e) && n[0] !in {0xE5, 0x05}
    requires r[11] == 0x20 && r[12] == 0 && FileSize(r) != 0
    ensures Matches(r, x) <==> x == n + ['.' as int] + e
  {
    AttributeBits(r, 1, false, false, 0);
    CaseBits(r, 0, false, false, 0);
    AnswersIff(r, n, e, x);
    PlainShown(false, n);
  }

  lemma PlainShown(lower: bool, n: seq<byte>)
    requires n != [] && n[0] !in {0xE5, 0x05}
    ensures NameShown(lower, n) == Cased(lower, n)
  {
    assert n == [n[0]] + n[1..];
    CasedOver(lower, [n[0]], n[1..]);
  }

  /** The same with both parts in lower case. */
  lemma LowerFileAnswersIff(r: Record, n: seq<byte>, e: seq<byte>, x: seq<byte>)
    requires HasName(r, n, e) && n[0] !in {0xE5, 0x05}
    requires r[11] == 0x20 && r[12] == 0x18 && FileSize(r) != 0
    ensures Matches(r, x) <==> x == Cased(true, n) + ['.' as int] + Cased(true, e)
  {
    AttributeBits(r, 1, false, false, 0);
    CaseBits(r, 0, true, true, 0);
    AnswersIff(r, n, e, x);
    PlainShown(true, n);
  }

  /** A record that was never used answers to nothing. */
  lemma UnusedAnswersNot(r: Record, x: seq<byte>)
    requires r[0] == 0
    ensures !Matches(r, x)
  {
  }

  // ----- table entries -----

  /** Indices and values on FAT16: the lower half of the 32 bits; on FAT32 all of them. */
  lemma LowerHalf(n: uint32, high: nat, low: nat)
    requires low < 0x1_0000 && n == 0x1_0000 * high + low
    ensures Index(Fat16, n) == low == Truncate(Fat16, n) && Index(Fat32, n) == n == Truncate(Fat32, n)
  {
  }

  /** The end-of-chain tests look at four bits; links are the other 28, or the 16 of FAT16. */
  lemma LinkBits(raw: uint32, high: nat, nibble: nat, low: nat)
    requires high < 16 && nibble < 16 && low < 0x100_0000 && raw == 0x1000_0000 * high + 0x100_0000 * nibble + low
    ensures Link(Fat32, raw) == if nibble == 15 then 0 else 0x100_0000 * nibble + low
    ensures raw < 0x1_0000 ==> Link(Fat16, raw) == if raw / 0x1000 == 15 then 0 else raw
  {
  }

  /** A table entry on the disk. */
  function EntryWord(kind: Kind, n: uint32): (b: seq<byte>)
    requires Fits(kind, n)
    ensures |b| == Width(kind)
  {
    if kind == Fat16 then Word16(n) else Word32(n)
  }

  lemma EntryIs(kind: Kind, b: seq<byte>)
    requires |b| == Width(kind)
    ensures Fits(kind, Entry(kind, b)) && EntryWord(kind, Entry(kind, b)) == b
  {
    if kind == Fat32 {
      var n := Le32(b);
      Halves(b);
      assert b == Word16(n % 0x1_0000) + Word16(n / 0x1_0000);
    }
  }

  lemma Halves(b: seq<byte>)
    requires |b| == 4
    ensures Le32(b) % 0x1_0000 == b[0] + 256 * b[1] as int && Le32(b) / 0x1_0000 == b[2] + 256 * b[3] as int
  {
    var lo, hi := b[0] + 256 * b[1] as int, b[2] + 256 * b[3] as int;
    assert Le32(b) == lo + 0x1_0000 * hi && lo < 0x1_0000;
  }

  /** Entry `i` of a table that is read lies at `i` times the width, low byte first. */
  lemma {:induction false} EntryAt(kind: Kind, b: seq<byte>, i: nat)
    requires i < |DecodeTable(kind, b)|
    ensures HasField(b, Width(kind) * i, EntryWord(kind, DecodeTable(kind, b)[i]))
    decreases i
  {
    var w := Width(kind);
    if i == 0 {
      EntryIs(kind, b[..w]);
    } else {
      EntryAt(kind, b[w..], i - 1);
      ShiftField(b, w, w * (i - 1), EntryWord(kind, DecodeTable(kind, b)[i]));
    }
  }

  lemma ShiftField(b: seq<byte>, from: nat, at: nat, field: seq<byte>)
    requires from <= |b| && HasField(b[from..], at, field)
    ensures HasField(b, from + at, field)
  {
    assert b[from..][at..at + |field|] == b[from + at..from + at + |field|];
  }

  // ----- the boot sector -----

  /** The values that the driver uses. */
  datatype Header = Header(
    sector: nat,
    perCluster: byte,
    reserved: nat,
    tables: byte,
    rootEntries: nat,
    total16: nat,
    tableSize16: nat,
    tableSize32: nat,
    rootCluster: nat)

  predicate InWidth(h: Header) {
    && h.sector < 0x1_0000 && h.reserved < 0x1_0000 && h.rootEntries < 0x1_0000
    && h.total16 < 0x1_0000 && h.tableSize16 < 0x1_0000 && h.tableSize32 < WORD && h.rootCluster < WORD
  }

  /**
   * A boot sector with these values: a jump of 3 bytes and a name of 8 come first; a media byte
   * follows the 16-bit total, and 12 bytes and two 16-bit fields that are not used lie between the rest.
   */
  predicate IsBoot(d: seq<byte>, h: Header)
    requires InWidth(h)
  {
    && |d| >= BOOT
    && HasField(d, 3 + 8,
                Word16(h.sector) + [h.perCluster] + Word16(h.reserved) + [h.tables]
                + Word16(h.rootEntries) + Word16(h.total16))
    && HasField(d, 3 + 8 + 10 + 1, Word16(h.tableSize16))
    && HasField(d, 3 + 8 + 10 + 1 + 2 + 12, Word32(h.tableSize32))
    && HasField(d, 3 + 8 + 10 + 1 + 2 + 12 + 4 + 4, Word32(h.rootCluster))
  }

  lemma FieldInside(d: seq<byte>, at: nat, a: seq<byte>, field: seq<byte>, b: seq<byte>)
    requires HasField(d, at, a + field + b)
    ensures HasField(d, at + |a|, field)
  {
    var all := a + field + b;
    forall i | 0 <= i < |field|
      ensures d[at + |a| + i] == field[i]
    {
      assert all[|a| + i] == field[i] && d[at..at + |all|][|a| + i] == d[at + |a| + i];
    }
  }

  /** The six fields in a row. */
  lemma BootFields(d: seq<byte>, h: Header)
    requires InWidth(h) && IsBoot(d, h)
    ensures HasField(d, 11, Word16(h.sector)) && d[13] == h.perCluster && HasField(d, 14, Word16(h.reserved))
    ensures d[16] == h.tables && HasField(d, 17, Word16(h.rootEntries)) && HasField(d, 19, Word16(h.total16))
  {
    var s, r, e, t := Word16(h.sector), Word16(h.reserved), Word16(h.rootEntries), Word16(h.total16);
    var all := s + [h.perCluster] + r + [h.tables] + e + t;
    assert all == [] + s + ([h.perCluster] + r + [h.tables] + e + t);
    FieldInside(d, 11, [], s, [h.perCluster] + r + [h.tables] + e + t);
    assert all == s + [h.perCluster] + (r + [h.tables] + e + t);
    FieldInside(d, 11, s, [h.perCluster], r + [h.tables] + e + t);
    assert all == (s + [h.perCluster]) + r + ([h.tables] + e + t);
    FieldInside(d, 11, s + [h.perCluster], r, [h.tables] + e + t);
    assert all == (s + [h.perCluster] + r) + [h.tables] + (e + t);
    FieldInside(d, 11, s + [h.perCluster] + r, [h.tables], e + t);
    assert all == (s + [h.perCluster] + r + [h.tables]) + e + t;
    FieldInside(d, 11, s + [h.perCluster] + r + [h.tables], e, t);
    assert all == (s + [h.perCluster] + r + [h.tables] + e) + t + [];
    FieldInside(d, 11, s + [h.perCluster] + r + [h.tables] + e, t, []);
    assert d[13..14] == [h.perCluster] && d[16..17] == [h.tables];
  }

  function Zeros(n: nat): (z: seq<byte>)
    ensures |z| == n
  {
    seq(n, _ => 0)
  }

  /** A boot sector with the given values and zeros elsewhere. */
  function BootSector(h: Header): (d: seq<byte>)
    requires InWidth(h)
    ensures |d| == BOOT
  {
    Zeros(11) + (Word16(h.sector) + [h.perCluster] + Word16(h.reserved) + [h.tables]
                 + Word16(h.rootEntries) + Word16(h.total16))
    + Zeros(1) + Word16(h.tableSize16) + Zeros(12) + Word32(h.tableSize32) + Zeros(4) + Word32(h.rootCluster)
    + Zeros(464)
  }

  lemma FieldLast(pre: seq<byte>, field: seq<byte>)
    ensures HasField(pre + field, |pre|, field)
  {
  }

  lemma FieldStays(d: seq<byte>, at: nat, field: seq<byte>, more: seq<byte>, most: seq<byte>)
    requires HasField(d, at, field)
    ensures HasField(d + more + most, at, field)
  {
    assert (d + more + most)[at..at + |field|] == d[at..at + |field|];
  }

  lemma BootSectorIs(h: Header)
    requires InWidth(h)
    ensures IsBoot(BootSector(h), h)
  {
    var d := BootSector(h);
    var f := Word16(h.sector) + [h.perCluster] + Word16(h.reserved) + [h.tables]
             + Word16(h.rootEntries) + Word16(h.total16);
    var a, b, c, z := Word16(h.tableSize16), Word32(h.tableSize32), Word32(h.rootCluster), Zeros(464);
    Parts(Zeros(11), f, Zeros(1), a, Zeros(12), b, Zeros(4), c, z, d);
  }

  lemma Parts(p: seq<byte>, f: seq<byte>, q: seq<byte>, a: seq<byte>, r: seq<byte>, b: seq<byte>, s: seq<byte>,
              c: seq<byte>, z: seq<byte>, d: seq<byte>)
    requires d == p + f + q + a + r + b + s + c + z
    ensures HasField(d, |p|, f) && HasField(d, |p + f + q|, a) && HasField(d, |p + f + q + a + r|, b)
    ensures HasField(d, |p + f + q + a + r + b + s|, c)
  {
    var d1 := p + f;
    var d2 := d1 + q + a;
    var d3 := d2 + r + b;
    var d4 := d3 + s + c;
    FieldLast(p, f);
    FieldStays(d1, |p|, f, q, a);
    FieldStays(d2, |p|, f, r, b);
    FieldStays(d3, |p|, f, s, c);
    FieldStays(d4, |p|, f, z, []);
    FieldLast(d1 + q, a);
    FieldStays(d2, |d1 + q|, a, r, b);
    FieldStays(d3, |d1 + q|, a, s, c);
    FieldStays(d4, |d1 + q|, a, z, []);
    FieldLast(d2 + r, b);
    FieldStays(d3, |d2 + r|, b, s, c);
    FieldStays(d4, |d2 + r|, b, z, []);
    FieldLast(d3 + s, c);
    FieldStays(d4, |d3 + s|, c, z, []);
    assert d4 + z + [] == d;
  }

  /** Reading a boot sector gives back its values, as sizes and positions in bytes. */
  lemma BootRead(d: seq<byte>, h: Header)
    requires InWidth(h) && IsBoot(d, h)
    ensures var g := ReadBoot(d);
            && (g.kind == Fat32 <==> h.total16 == 0)
            && g.clusterSize == h.sector * h.perCluster as int
            && g.tableStart == h.reserved * h.sector
            && g.tableBytes == h.sector * (if h.total16 == 0 then h.tableSize32 else h.tableSize16)
            && g.tableCount == h.tables && g.rootEntries == h.rootEntries && g.rootCluster == h.rootCluster
    ensures h.total16 != 0 ==> ReadBoot(d).rootBytes == 32 * h.rootEntries && ReadBoot(d).rootSkip == 0
    ensures h.total16 == 0 ==> ReadBoot(d).rootBytes == h.sector * h.perCluster as int
    ensures h.total16 == 0 ==> ReadBoot(d).rootSkip == Offsets.Position(h.sector * h.perCluster as int, h.rootCluster)
  {
    BootFields(d, h);
    ReadWord16(h.sector);
    ReadWord16(h.reserved);
    ReadWord16(h.rootEntries);
    ReadWord16(h.total16);
    ReadWord16(h.tableSize16);
    ReadWord32(h.tableSize32);
    ReadWord32(h.rootCluster);
    TimesIs(h.sector, h.perCluster);
    TimesIs(h.reserved, h.sector);
    TimesIs(h.sector, if h.total16 == 0 then h.tableSize32 else h.tableSize16);
  }

  // ----- mounting -----

  function TablesAt(h: Header): nat {
    h.reserved * h.sector
  }

  function SizeOfTable(h: Header): nat {
    h.sector * (if h.total16 == 0 then h.tableSize32 else h.tableSize16)
  }

  /** Two copies are stepped over even if there are fewer. */
  function BehindTables(h: Header): nat {
    TablesAt(h) + (if h.tables > 2 then h.tables else 2) * SizeOfTable(h)
  }

  /** The entries of `fat`, one behind the other from position `at` on. */
  predicate HasTable(kind: Kind, d: seq<byte>, at: nat, fat: seq<uint32>) {
    forall i :: 0 <= i < |fat| ==> Fits(kind, fat[i]) && HasField(d, at + Width(kind) * i, EntryWord(kind, fat[i]))
  }

  /** Where the driver looks for the two tables and the root directory, from the header's values. */
  lemma MountPositions(d: seq<byte>, h: Header, g: Geometry, v: Vol)
    requires InWidth(h) && IsBoot(d, h) && Mountable(d) && g == ReadBoot(d) && v == Mount(d)
    ensures HasTable(g.kind, d, TablesAt(h), v.fat) && HasTable(g.kind, d, TablesAt(h) + SizeOfTable(h), v.bak)
    ensures HasField(d, BehindTables(h) + g.rootSkip, v.root) && |v.root| == g.rootBytes
    ensures v.dataOffset == BehindTables(h) + (if h.total16 == 0 then 0 else 32 * h.rootEntries)
  {
    BootRead(d, h);
    BootCopies(d, h, g);
    LoadTablesAt(g, d, v);
    LoadRootAt(g, d, v);
  }

  lemma BootCopies(d: seq<byte>, h: Header, g: Geometry)
    requires InWidth(h) && IsBoot(d, h) && g == ReadBoot(d)
    ensures g.tableStart == TablesAt(h) && g.tableBytes == SizeOfTable(h)
    ensures After(g, CopiesRead(g)) == BehindTables(h)
  {
    BootRead(d, h);
    AfterIs(g, CopiesRead(g));
  }

  lemma LoadTablesAt(g: Geometry, d: seq<byte>, v: Vol)
    requires Holds(g, d) && v == Load(g, d)
    ensures HasTable(g.kind, d, g.tableStart, v.fat) && HasTable(g.kind, d, g.tableStart + g.tableBytes, v.bak)
  {
    var start, mid, end := g.tableStart, g.tableStart + g.tableBytes, g.tableStart + g.tableBytes + g.tableBytes;
    TwoCopies(g, mid, end);
    var table, mirror := d[start..mid], d[mid..end];
    LoadTables(g, d, table, mirror);
    TableAt(g.kind, d, start, mid, table, v.fat);
    TableAt(g.kind, d, mid, end, mirror, v.bak);
  }

  lemma TwoCopies(g: Geometry, mid: nat, end: nat)
    requires mid == g.tableStart + g.tableBytes && end == mid + g.tableBytes
    ensures After(g, 1) == mid && After(g, 2) == end <= After(g, CopiesRead(g))
  {
    AfterIs(g, 1);
    AfterIs(g, 2);
    AfterOrder(g, 2, CopiesRead(g));
  }

  lemma LoadRootAt(g: Geometry, d: seq<byte>, v: Vol)
    requires Holds(g, d) && v == Load(g, d)
    ensures HasField(d, After(g, CopiesRead(g)) + g.rootSkip, v.root) && |v.root| == g.rootBytes
    ensures v.dataOffset == After(g, CopiesRead(g)) + if g.kind == Fat16 then g.rootBytes else 0
  {
  }

  lemma TableAt(kind: Kind, d: seq<byte>, at: nat, end: nat, b: seq<byte>, fat: seq<uint32>)
    requires at <= end <= |d| && b == d[at..end] && fat == DecodeTable(kind, b)
    ensures HasTable(kind, d, at, fat)
  {
    forall i | 0 <= i < |fat|
      ensures HasField(d, at + Width(kind) * i, EntryWord(kind, fat[i]))
    {
      EntryAt(kind, b, i);
      CutField(d, at, end, Width(kind) * i, EntryWord(kind, fat[i]));
    }
  }

  lemma CutField(d: seq<byte>, from: nat, to: nat, at: nat, field: seq<byte>)
    requires from <= to <= |d| && HasField(d[from..to], at, field)
    ensures HasField(d, from + at, field)
  {
    forall i | 0 <= i < |field|
      ensures d[from + at + i] == field[i]
    {
      assert d[from..to][at..at + |field|][i] == d[from..to][at + i];
    }
  }
}
