/**
 * The two encodings of a file allocation table entry (src/FAT16.c, src/FAT32.c) and the
 * abstract entry, a `Cell`, that both stand for.
 */
module FatCells {
  import opened Bytes

  datatype Kind = Fat16 | Fat32

  /** What a table entry says about its cluster. */
  datatype Cell = Free | End | To(next: nat)

  const EOC: uint32 := 0x0FFF_FFFF

  /** An entry of `fat_table` as stored: 16 bits wide on FAT16, 32 bits wide on FAT32. */
  predicate Fits(kind: Kind, raw: nat) {
    raw < if kind == Fat16 then 0x1_0000 else 0x1_0000_0000
  }

  /** Conversion of a 32-bit value to the width of an entry. */
  function Truncate(kind: Kind, value: uint32): (raw: uint32)
    ensures Fits(kind, raw)
  {
    if kind == Fat16 then value % 0x1_0000 else value
  }

  /** The index actually used: FAT16 first converts it to 16 bits. */
  function Index(kind: Kind, index: uint32): uint32 {
    if kind == Fat16 then index % 0x1_0000 else index
  }

  /** The 28 bits of a FAT32 entry that address a cluster. */
  function Low28(raw: uint32): uint32 {
    raw % 0x1000_0000
  }

  /**
   * The end-of-chain tests `(v & 0xF000) == 0xF000` and `(v & 0x0F000000) == 0x0F000000`,
   * written as ranges; the two `Mask` lemmas below justify that.
   */
  predicate IsEnd(kind: Kind, raw: uint32) {
    if kind == Fat16 then raw >= 0xF000 else Low28(raw) >= 0x0F00_0000
  }

  lemma Mask16(v: bv16)
    ensures (v & 0xF000) == 0xF000 <==> v >= 0xF000
  {
  }

  lemma Mask32(v: bv32)
    ensures (v & 0x0F00_0000) == 0x0F00_0000 <==> (v & 0x0FFF_FFFF) >= 0x0F00_0000
  {
  }

  /** The value `next_cluster` computes from an entry. */
  function Link(kind: Kind, raw: uint32): uint32 {
    if IsEnd(kind, raw) then 0
    else if kind == Fat16 then raw
    else Low28(raw)
  }

  /** The abstract entry. */
  function Decode(kind: Kind, raw: uint32): Cell {
    if IsEnd(kind, raw) then End
    else if Link(kind, raw) == 0 then Free
    else To(Link(kind, raw))
  }

  /** The value the tool would store for an abstract entry. */
  function Encode(kind: Kind, cell: Cell): uint32 {
    match cell
    case Free => 0
    case End => Truncate(kind, EOC)
    case To(n) => Truncate(kind, n % 0x1_0000_0000)
  }

  /** Link values that survive both encodings. */
  predicate Portable(cell: Cell) {
    cell.To? ==> 0 < cell.next < 0xF000
  }

  function CellNext(cell: Cell): nat {
    match cell
    case To(n) => n
    case _ => 0
  }

  /** The abstract table. */
  function Table(kind: Kind, fat: seq<uint32>): (t: seq<Cell>)
    ensures |t| == |fat|
    ensures forall i :: 0 <= i < |fat| ==> t[i] == Decode(kind, fat[i])
  {
    seq(|fat|, i requires 0 <= i < |fat| => Decode(kind, fat[i]))
  }

  function Next(t: seq<Cell>, c: nat): nat
    requires c < |t|
  {
    CellNext(t[c])
  }

  /** Exactly the link values below the end-of-chain range round-trip through an encoding. */
  lemma EncodeRoundTrip(kind: Kind, cell: Cell)
    requires cell.To? ==> cell.next < 0x1_0000_0000
    ensures Decode(kind, Encode(kind, cell)) == cell <==>
            (cell.To? ==> 0 < cell.next < if kind == Fat16 then 0xF000 else 0x0F00_0000)
  {
  }

  /** `next_cluster` on the stored table is `Next` on the abstract one. */
  lemma LinkIsNext(kind: Kind, fat: seq<uint32>, c: nat)
    requires c < |fat|
    ensures Link(kind, fat[c]) == Next(Table(kind, fat), c)
  {
  }

  /**
   * One abstract table, two encodings: the stored tables read back as the same abstract table,
   * and they still do after delete's zeroing or undelete's end-of-chain mark at any index.
   */
  lemma KindsSimulate(t: seq<Cell>, fat16: seq<uint32>, fat32: seq<uint32>, i: nat, value: uint32)
    requires |fat16| == |t| && |fat32| == |t| && i < |t|
    requires forall k :: 0 <= k < |t| ==> Portable(t[k])
    requires forall k :: 0 <= k < |t| ==> fat16[k] == Encode(Fat16, t[k]) && fat32[k] == Encode(Fat32, t[k])
    requires value == 0 || value == EOC
    ensures Table(Fat16, fat16) == t == Table(Fat32, fat32)
    ensures var cell := if value == 0 then Free else End;
            Table(Fat16, fat16[i := Truncate(Fat16, value)]) == t[i := cell]
            == Table(Fat32, fat32[i := Truncate(Fat32, value)])
  {
    forall k | 0 <= k < |t|
      ensures Decode(Fat16, fat16[k]) == t[k] == Decode(Fat32, fat32[k])
    {
      EncodeRoundTrip(Fat16, t[k]);
      EncodeRoundTrip(Fat32, t[k]);
    }
  }

  /** Storing a zero or an end-of-chain mark in a table of either kind. */
  lemma StoreCell(kind: Kind, fat: seq<uint32>, i: nat, value: uint32)
    requires i < |fat|
    requires value == 0 || value == EOC
    ensures Table(kind, fat[i := Truncate(kind, value)])
         == Table(kind, fat)[i := if value == 0 then Free else End]
  {
  }
}
