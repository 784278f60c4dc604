/**
 * The long-file-name parser (src/lfn.c): global state fed one directory record at a time, a
 * buffer filled from its end, and the loop of `list` (src/user.c) that drives it.
 */
module Lfn {
  import opened Bytes
  import opened Records
  import opened Unicode

  const LN_ATTR: byte := 0x0F
  const CHARS: nat := 13
  const PART: nat := 26
  const UNTIL_0: nat := 0x7FFF_FFFF

  // ----- long-name records -----

  predicate IsLfn(r: Record) {
    r[11] == LN_ATTR
  }

  /** `id & LFN_ID_SLOTMASK` */
  function SlotNumber(r: Record): nat {
    r[0] % 0x20
  }

  /** `id & LFN_ID_START` */
  predicate IsStart(r: Record) {
    r[0] / 0x40 % 2 == 1
  }

  /** A record that begins a name. */
  predicate Begins(r: Record) {
    IsStart(r) && SlotNumber(r) != 0
  }

  /** The three name fields, as `copy_lfn_part` joins them. */
  function NamePart(r: Record): (b: seq<byte>)
    ensures |b| == PART
  {
    r[1..11] + r[14..26] + r[28..32]
  }

  // ----- the parser as a value -----

  /**
   * Collecting a name of `count` parts: parts `slot+1 .. count` are in `tail`, which ends in a
   * zero unit; `offsets` are the directory positions of the records seen.
   */
  datatype Parser = Idle | Collecting(count: nat, slot: nat, tail: seq<byte>, offsets: seq<int>)

  predicate Sane(p: Parser) {
    p.Collecting? ==>
      && 1 <= p.count <= 31 && p.slot < p.count
      && |p.tail| == PART * (p.count - p.slot) + 2
      && p.tail[|p.tail| - 2] == 0 == p.tail[|p.tail| - 1]
      && |p.offsets| == p.count - p.slot
  }

  /** A complete name that nobody asked for is dropped. */
  function Unorphaned(p: Parser): Parser {
    if p.Collecting? && p.slot == 0 then Idle else p
  }

  /** `lfn_add_slot` */
  function Add(p: Parser, r: Record, offset: int): (q: Parser)
    requires Sane(p)
    ensures Sane(q)
  {
    var p1 := Unorphaned(p);
    if Begins(r) then
      Collecting(SlotNumber(r), SlotNumber(r) - 1, NamePart(r) + [0, 0], [offset])
    else if p1.Idle? then Idle
    else
      Collecting(p1.count, p1.slot - 1, NamePart(r) + AfterPart(r, p1.tail),
                 p1.offsets + [offset])
  }

  /** The name `lfn_get` returns: none unless every part has been seen. */
  function Name(p: Parser, conv: Converter): Option<seq<byte>>
    requires Sane(p)
  {
    if p.Collecting? && p.slot == 0 then
      TailBounded(p.tail, 0, UNTIL_0);
      Some(Convert(conv, Units(p.tail, 0, UNTIL_0)))
    else None
  }

  /** What is printed about an unfinished name: the parts collected so far, up to a NUL. */
  function Orphan(p: Parser, conv: Converter): Option<seq<byte>>
    requires Sane(p)
  {
    if p.Idle? then None
    else
      TailBounded(p.tail, 0, CHARS * |p.offsets|);
      Some(CStr(Convert(conv, Units(p.tail, 0, CHARS * |p.offsets|))))
  }

  lemma OrphanIs(p: Parser, conv: Converter, uni: seq<byte>, n: nat, text: seq<byte>)
    requires Sane(p) && p.Collecting? && uni == p.tail && n == CHARS * |p.offsets| && Bounded(uni, 0, n)
    requires text == Convert(conv, Units(uni, 0, n)) + [0]
    ensures Orphan(p, conv) == Some(CStr(text))
  {
    Terminated(text, Convert(conv, Units(uni, 0, n)));
  }

  /** A scan that starts at a unit boundary of a zero-terminated tail stops inside it. */
  lemma {:induction false} TailBounded(tail: seq<byte>, k: nat, maxlen: nat)
    requires |tail| % 2 == 0 && 2 * k + 2 <= |tail|
    requires tail[|tail| - 2] == 0 == tail[|tail| - 1]
    ensures Bounded(tail, k, maxlen)
    decreases |tail| - 2 * k
  {
    if k < maxlen && UnitAt(tail, k) != 0 {
      assert 2 * k != |tail| - 2;
      TailBounded(tail, k + 1, maxlen);
    }
  }

  // ----- the parser as the source keeps it -----

  /** `copy_lfn_part` at `offset`, and a zero unit after the part if it is the first one seen. */
  method CopyPart(unicode: array<byte>, offset: nat, r: Record)
    requires offset + PART + 2 <= unicode.Length
    modifies unicode
    ensures unicode[..offset] == old(unicode[..offset])
    ensures unicode[offset..] == NamePart(r) + AfterPart(r, old(unicode[offset + PART..]))
  {
    ghost var before := unicode[..];
    var part := NamePart(r);
    ghost var rest := before[offset + PART..];
    forall i | 0 <= i < PART {
      unicode[offset + i] := part[i];
    }
    if IsStart(r) {
      unicode[offset + 26] := 0;
      unicode[offset + 27] := 0;
    }
    PartStored(before, unicode[..], offset, r);
  }

  /** The same on the bytes of the buffer. */
  lemma PartStored(before: seq<byte>, after: seq<byte>, offset: nat, r: Record)
    requires offset + PART + 2 <= |before| == |after|
    requires after[..offset] == before[..offset] && after[offset..offset + PART] == NamePart(r)
    requires IsStart(r) ==> after[offset + PART] == 0 == after[offset + PART + 1]
    requires !IsStart(r) ==> after[offset + PART..offset + PART + 2] == before[offset + PART..offset + PART + 2]
    requires after[offset + PART + 2..] == before[offset + PART + 2..]
    ensures after[offset..] == NamePart(r) + AfterPart(r, before[offset + PART..])
  {
    var at := offset + PART;
    Cut(after, offset, at);
    Cut(after, at, at + 2);
    Cut(before, at, at + 2);
    UnitAfter(r, before[at..at + 2], before[at + 2..], after[at..at + 2]);
  }

  lemma Cut(s: seq<byte>, lo: nat, hi: nat)
    requires lo <= hi <= |s|
    ensures s[lo..] == s[lo..hi] + s[hi..]
  {
  }

  lemma UnitAfter(r: Record, unit: seq<byte>, rest: seq<byte>, stored: seq<byte>)
    requires |unit| == 2 == |stored| && (if IsStart(r) then stored[0] == 0 == stored[1] else stored == unit)
    ensures AfterPart(r, unit + rest) == stored + rest
  {
    assert (unit + rest)[2..] == rest;
    assert IsStart(r) ==> stored == [0, 0];
  }

  /** What follows the stored part: the parts stored before it, except that a start record zeroes one unit. */
  function AfterPart(r: Record, rest: seq<byte>): (t: seq<byte>)
    requires |rest| >= 2
    ensures |t| == |rest|
  {
    if IsStart(r) then [0, 0] + rest[2..] else rest
  }

  /** What a record fed to parser `p` is to join: nothing if it begins a name, what was collected otherwise. */
  ghost predicate Joins(p: Parser, r: Record, n: nat, k: nat, rest: seq<byte>, seen: seq<int>) {
    if Begins(r) then n == k == SlotNumber(r) && |rest| == 2 && seen == []
    else Unorphaned(p) == Collecting(n, k, rest, seen)
  }

  /** A part stored in front of `rest`, after `seen`: the next state of the parser. */
  lemma AddCollects(p: Parser, r: Record, offset: int, q: Parser, n: nat, k: nat, rest: seq<byte>, seen: seq<int>)
    requires Sane(p) && k > 0 && |rest| >= 2
    requires Joins(p, r, n, k, rest, seen)
    requires q == Collecting(n, k - 1, NamePart(r) + AfterPart(r, rest), seen + [offset])
    ensures q == Add(p, r, offset)
  {
    assert IsStart(r) && |rest| == 2 ==> AfterPart(r, rest) == [0, 0];
    assert seen == [] ==> seen + [offset] == [offset];
  }

  predicate EndsInZero(t: seq<byte>) {
    |t| >= 2 && t[|t| - 2] == 0 == t[|t| - 1]
  }

  lemma EndsTail(s: seq<byte>, k: nat)
    requires k + 2 <= |s|
    ensures EndsInZero(s[k..]) <==> EndsInZero(s)
  {
  }

  /** The zero unit at the very end stays, or is put there. */
  lemma AfterPartEnds(r: Record, rest: seq<byte>)
    requires |rest| >= 2 && (EndsInZero(rest) || (IsStart(r) && |rest| == 2))
    ensures EndsInZero(NamePart(r) + AfterPart(r, rest))
  {
  }

  class LfnParser {
    var unicode: array?<byte>
    var slot: int
    var offsets: array?<int>
    var parts: int

    ghost predicate Valid()
      reads this, unicode, offsets
    {
      slot != -1 ==>
        && 0 <= slot && 0 < parts && slot + parts <= 31
        && unicode != null && unicode.Length == PART * (slot + parts) + 2
        && offsets != null && offsets.Length == slot + parts
        && EndsInZero(unicode[..])
    }

    ghost function Abstract(): (p: Parser)
      requires Valid()
      reads this, unicode, offsets
      ensures Sane(p)
    {
      if slot == -1 then Idle else Collecting(slot + parts, slot, unicode[PART * slot..], offsets[..parts])
    }

    constructor ()
      ensures Valid() && Abstract() == Idle
    {
      unicode, offsets, slot, parts := null, null, -1, 0;
    }

    /** `lfn_reset` */
    method Reset()
      modifies this
      ensures Valid() && Abstract() == Idle
      ensures unicode == null && offsets == null && slot == -1
    {
      unicode, offsets, slot := null, null, -1;
    }

    /** `lfn_check_orphaned`: what is printed about an unfinished name, and a reset. */
    method CheckOrphaned(conv: Converter) returns (orphan: Option<seq<byte>>)
      requires Valid()
      modifies this
      ensures Valid() && Abstract() == Idle
      ensures old(slot) != -1 ==> unicode == null && offsets == null
      ensures slot == -1
      ensures orphan == Orphan(old(Abstract()), conv)
    {
      if slot == -1 {
        return None;
      }
      ghost var p := Abstract();
      var uni := unicode[slot * PART..];
      TailBounded(uni, 0, parts * CHARS);
      var longName := CnvUnicode(uni, parts * CHARS, conv);
      orphan := Some(CStr(longName[..]));
      OrphanIs(p, conv, uni, parts * CHARS, longName[..]);
      Reset();
    }

    /** The counters, and the offset of the record. */
    method StepBack(dirOffset: int, ghost seen: seq<int>)
      requires slot > 0 && 0 <= parts && offsets != null && parts < offsets.Length && seen == offsets[..parts]
      modifies this`slot, this`parts, offsets
      ensures slot == old(slot) - 1 && parts == old(parts) + 1
      ensures offsets[..parts] == seen + [dirOffset]
    {
      slot := slot - 1;
      NoteOffset(dirOffset);
    }

    /** The name part itself; the zero unit at the very end stays, or is put there. */
    method StorePart(r: Record, offset: nat, ghost rest: seq<byte>)
      requires unicode != null && offset + PART + 2 <= unicode.Length && rest == unicode[offset + PART..]
      requires EndsInZero(unicode[..]) || (IsStart(r) && offset + PART + 2 == unicode.Length)
      modifies unicode
      ensures unicode[offset..] == NamePart(r) + AfterPart(r, rest)
      ensures EndsInZero(unicode[..])
    {
      EndsTail(unicode[..], offset + PART);
      AfterPartEnds(r, rest);
      CopyPart(unicode, offset, r);
      EndsTail(unicode[..], offset);
    }

    /** `lfn_offsets[lfn_parts++] = dir_offset` */
    method NoteOffset(dirOffset: int)
      requires offsets != null && 0 <= parts < offsets.Length
      modifies this`parts, offsets
      ensures parts == old(parts) + 1 && offsets[..parts] == old(offsets[..parts]) + [dirOffset]
    {
      offsets[parts] := dirOffset;
      parts := parts + 1;
    }

    /** Room for `n` parts, of which `k` are still to come; those collected are `rest` and `seen`. */
    ghost predicate Ready(r: Record, n: nat, k: nat, rest: seq<byte>, seen: seq<int>)
      reads this, unicode, offsets
    {
      && 0 < k <= n <= 31 && slot == k && parts == n - k
      && unicode != null && unicode.Length == PART * n + 2 && rest == unicode[PART * k..]
      && offsets != null && offsets.Length == n && seen == offsets[..n - k]
      && (parts > 0 || IsStart(r)) && (parts > 0 ==> EndsInZero(unicode[..]))
    }

    /** The buffers of a name of `number` parts. */
    method MakeRoom(number: nat)
      requires number > 0
      modifies this
      ensures slot == number && parts == 0
      ensures unicode != null && fresh(unicode) && unicode.Length == PART * number + 2
      ensures offsets != null && fresh(offsets) && offsets.Length == number
    {
      slot := number;
      unicode := new byte[(slot * CHARS + 1) * 2];
      offsets := new int[slot];
      parts := 0;
    }

    /** The first half of `lfn_add_slot`: drop an orphan, and make room for a name that begins. */
    method Prepare(r: Record, conv: Converter)
        returns (ghost n: nat, ghost k: nat, ghost rest: seq<byte>, ghost seen: seq<int>)
      requires Valid()
      modifies this
      ensures unicode != old(unicode) ==> unicode == null || fresh(unicode)
      ensures offsets != old(offsets) ==> offsets == null || fresh(offsets)
      ensures slot == -1 ==> !Begins(r) && Unorphaned(old(Abstract())) == Idle
      ensures slot != -1 ==> Ready(r, n, k, rest, seen) && Joins(old(Abstract()), r, n, k, rest, seen)
    {
      var number := SlotNumber(r);
      if slot == 0 {
        var orphan := CheckOrphaned(conv);
      }
      n, k, rest, seen := 0, 0, [], [];
      if IsStart(r) && number != 0 {
        MakeRoom(number);
      }
      if slot != -1 {
        n, k, rest, seen := slot + parts, slot, unicode[PART * slot..], offsets[..parts];
      }
    }

    /** The second half: the part joins those collected. */
    method Collect(r: Record, dirOffset: int, ghost n: nat, ghost k: nat, ghost rest: seq<byte>, ghost seen: seq<int>)
      requires Ready(r, n, k, rest, seen)
      modifies this, unicode, offsets
      ensures Valid() && unicode == old(unicode) && offsets == old(offsets)
      ensures Abstract() == Collecting(n, k - 1, NamePart(r) + AfterPart(r, rest), seen + [dirOffset])
    {
      var offset := (slot - 1) * PART;
      StorePart(r, offset, rest);
      ghost var all := unicode[..];
      StepBack(dirOffset, seen);
      assert unicode[..] == all && PART * slot == offset;
      assert unicode[PART * slot..] == NamePart(r) + AfterPart(r, rest);
    }

    /** `lfn_add_slot`; the attribute check of the source is the second precondition. */
    method AddSlot(r: Record, dirOffset: int, conv: Converter)
      requires Valid()
      requires IsLfn(r)
      modifies this, unicode, offsets
      ensures Valid() && Abstract() == Add(old(Abstract()), r, dirOffset)
      ensures unicode != old(unicode) ==> unicode == null || fresh(unicode)
      ensures offsets != old(offsets) ==> offsets == null || fresh(offsets)
    {
      ghost var p := Abstract();
      ghost var n, k, rest, seen := Prepare(r, conv);
      if slot != -1 {
        Collect(r, dirOffset, n, k, rest, seen);
        AddCollects(p, r, dirOffset, Abstract(), n, k, rest, seen);
      }
    }

    /** `lfn_get`: the collected name and the offset of its first record; always a reset. */
    method Get(r: Record, conv: Converter) returns (name: Option<seq<byte>>, lfnOffset: int)
      requires Valid() && !IsLfn(r)
      modifies this
      ensures Valid() && Abstract() == Idle
      ensures name == Name(old(Abstract()), conv)
      ensures lfnOffset == if name.Some? then old(Abstract()).offsets[0] else 0
      ensures unicode == null && offsets == null
    {
      lfnOffset := 0;
      if slot != 0 {
        Reset();
        return None, 0;
      }
      lfnOffset := offsets[0];
      assert unicode[PART * 0..] == unicode[..];
      TailBounded(unicode[..], 0, UNTIL_0);
      var lfn := CnvUnicode(unicode[..], UNTIL_0, conv);
      name := Some(lfn[..lfn.Length - 1]);
      Reset();
    }
  }
}
