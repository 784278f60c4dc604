/**
 * Directory records (`struct fat_dir_layout`, src/FAT.h), their display names (src/FAT.c,
 * src/common.c) and the search of one directory (`search`, src/fs.c).
 */
module Records {
  import opened Bytes
  import opened FatCells

  const RECORD: nat := 32
  const SPACE: byte := 0x20
  const DOT: byte := 0x2E
  const SLASH: byte := 0x2F
  const QUESTION: byte := 0x3F
  const DELETED: byte := 0xE5
  const KANJI: byte := 0x05

  /** The 32 bytes of one record: what `memcmp` compares. */
  type Record = r: seq<byte> | |r| == 32 witness seq(32, _ => 0)

  function FirstCluster(kind: Kind, r: Record): (c: uint32)
    ensures kind == Fat16 ==> c < 0x1_0000
  {
    if kind == Fat16 then Le16(r[26..28]) else Le16(r[20..22]) * 0x1_0000 + Le16(r[26..28])
  }

  function FileSize(r: Record): uint32 {
    Le32(r[28..32])
  }

  /** Attribute bit 0x10. */
  predicate IsDirectory(r: Record) {
    r[11] / 16 % 2 == 1
  }

  /** Attribute bit 0x08. */
  predicate IsSpecial(r: Record) {
    r[11] / 8 % 2 == 1
  }

  predicate IsDeleted(r: Record) {
    r[0] == DELETED
  }

  /** `r` with another first name byte: the only byte delete and undelete change. */
  function Renamed(r: Record, c: byte): (r': Record)
    ensures r'[0] == c && r'[1..] == r[1..]
  {
    r[0 := c]
  }

  lemma RenamedKeeps(r: Record, c: byte)
    ensures forall kind :: FirstCluster(kind, Renamed(r, c)) == FirstCluster(kind, r)
    ensures FileSize(Renamed(r, c)) == FileSize(r)
    ensures IsDirectory(Renamed(r, c)) == IsDirectory(r)
    ensures IsSpecial(Renamed(r, c)) == IsSpecial(r)
    ensures forall d: byte :: Renamed(Renamed(r, c), d) == Renamed(r, d)
    ensures Renamed(r, r[0]) == r
  {
    var r' := Renamed(r, c);
    assert r'[26..28] == r[26..28] && r'[20..22] == r[20..22] && r'[28..32] == r[28..32];
  }

  // ----- strings -----

  /** The C string at the start of a buffer: everything before its first NUL. */
  function CStr(s: seq<byte>): (r: seq<byte>)
    ensures |r| <= |s| && r == s[..|r|]
    ensures 0 !in r
    ensures |r| < |s| ==> s[|r|] == 0
  {
    if s == [] || s[0] == 0 then [] else [s[0]] + CStr(s[1..])
  }

  lemma {:induction false} CStrCut(s: seq<byte>, n: nat)
    requires n <= |s| && 0 !in s[..n] && (n == |s| || s[n] == 0)
    ensures CStr(s) == s[..n]
  {
    if n != 0 {
      assert s[0] in s[..n];
      assert s[1..][..n - 1] == s[..n][1..];
      CStrCut(s[1..], n - 1);
      assert s[..n] == [s[0]] + s[1..][..n - 1];
    }
  }

  /** `s` without its trailing spaces. */
  function Trim(s: seq<byte>): seq<byte> {
    if s != [] && s[|s| - 1] == SPACE then Trim(s[..|s| - 1]) else s
  }

  /** What trimming means: the longest prefix that is empty or ends in a non-space. */
  lemma {:induction false} TrimMeaning(s: seq<byte>)
    ensures Trim(s) <= s
    ensures forall i :: |Trim(s)| <= i < |s| ==> s[i] == SPACE
    ensures Trim(s) == [] || Trim(s)[|Trim(s)| - 1] != SPACE
    ensures Trim(Trim(s)) == Trim(s)
  {
    if s != [] && s[|s| - 1] == SPACE {
      TrimMeaning(s[..|s| - 1]);
    }
  }

  /** Changing the first character of a string whose trimmed form is not empty. */
  lemma {:induction false} TrimHead(s: seq<byte>, c: byte)
    requires Trim(s) != [] && c != SPACE
    ensures Trim(s[0 := c]) == Trim(s)[0 := c]
  {
    if s[|s| - 1] == SPACE {
      assert s[0 := c][..|s| - 1] == s[..|s| - 1][0 := c];
      TrimHead(s[..|s| - 1], c);
    }
  }

  /** `rtrim`: in place, on a NUL-terminated buffer. */
  method RTrim(text: array<byte>)
    requires 0 in text[..]
    modifies text
    ensures CStr(text[..]) == Trim(old(CStr(text[..])))
  {
    ghost var s := text[..];
    var n := |CStr(text[..])|;
    ghost var cs := CStr(s);
    assert cs == s[..n] && cs[..n] == cs;
    var original, i: int := n, n;
    while true
      invariant 0 <= i == original <= n
      invariant Trim(cs[..i]) == Trim(cs)
      decreases i
    {
      if i == 0 {
        i := -1;
        break;
      }
      i, original := i - 1, original - 1;
      assert cs[..i + 1][..i] == cs[..i];
      if text[original] != SPACE {
        assert Trim(cs[..i + 1]) == cs[..i + 1];
        break;
      }
    }
    if i != -1 {
      text[original + 1] := 0;
      assert text[..] == s[original + 1 := 0];
      CStrCut(text[..], original + 1);
    } else {
      text[original] := 0;
    }
  }

  // ----- display names -----

  function ToLower(b: byte): byte {
    if 0x41 <= b <= 0x5A then b + 0x20 else b
  }

  function Fold(lower: bool, b: byte): byte {
    if lower then ToLower(b) else b
  }

  /** The first character shown for a name. */
  function ShownFirst(lower: bool, b: byte): byte {
    if b == DELETED then QUESTION else if b == KANJI then DELETED else Fold(lower, b)
  }

  function LowerName(r: Record): bool {
    r[12] / 8 % 2 == 1
  }

  function LowerExtension(r: Record): bool {
    r[12] / 16 % 2 == 1
  }

  /** The eight characters of a name as shown, before trimming. */
  function ShownName(lower: bool, name: seq<byte>): (s: seq<byte>)
    requires |name| == 8
    ensures |s| == 8
  {
    seq(8, i requires 0 <= i < 8 => if i == 0 then ShownFirst(lower, name[0]) else Fold(lower, name[i]))
  }

  /** The name part that `get_name` shows; none for a record that was never used. */
  function BaseName(r: Record): Option<seq<byte>> {
    if r[0] == 0 then None else Some(Trim(CStr(ShownName(LowerName(r), r[..8]))))
  }

  function Extension(r: Record): seq<byte> {
    Trim(CStr(seq(3, i requires 0 <= i < 3 => Fold(LowerExtension(r), r[8 + i]))))
  }

  method GetName(name: seq<byte>, lower: bool) returns (shown: Option<seq<byte>>)
    requires |name| == 8
    ensures shown == if name[0] == 0 then None else Some(Trim(CStr(ShownName(lower, name))))
  {
    if name[0] == 0 {
      return None;
    }
    var ret := new byte[9];
    if name[0] == DELETED {
      ret[0] := QUESTION;
    } else if name[0] == KANJI {
      ret[0] := DELETED;
    } else {
      ret[0] := if lower then ToLower(name[0]) else name[0];
    }
    var i := 1;
    while i < 8
      invariant 1 <= i <= 8
      invariant ret[0] == ShownName(lower, name)[0]
      invariant forall k :: 1 <= k < i ==> ret[k] == ShownName(lower, name)[k]
    {
      ret[i] := if lower then ToLower(name[i]) else name[i];
      i := i + 1;
    }
    ret[8] := 0;
    Terminated(ret[..], ShownName(lower, name));
    RTrim(ret);
    return Some(CStr(ret[..]));
  }

  method GetExtension(extension: seq<byte>, lower: bool) returns (shown: seq<byte>)
    requires |extension| == 3
    ensures shown == Trim(CStr(seq(3, i requires 0 <= i < 3 => Fold(lower, extension[i]))))
  {
    var ret := new byte[4];
    ghost var want := seq(3, k requires 0 <= k < 3 => Fold(lower, extension[k]));
    var i := 0;
    while i < 3
      invariant 0 <= i <= 3
      invariant forall k :: 0 <= k < i ==> ret[k] == want[k]
    {
      ret[i] := if lower then ToLower(extension[i]) else extension[i];
      i := i + 1;
    }
    ret[3] := 0;
    Terminated(ret[..], want);
    assert want == seq(3, k requires 0 <= k < 3 => Fold(lower, extension[k]));
    RTrim(ret);
    return CStr(ret[..]);
  }

  /** A NUL stored after the characters does not change the C string. */
  lemma Terminated(buffer: seq<byte>, s: seq<byte>)
    requires |buffer| == |s| + 1 && buffer[..|s|] == s && buffer[|s|] == 0
    ensures CStr(buffer) == CStr(s)
    ensures 0 in buffer
  {
    CStrCut(buffer, |CStr(s)|);
  }

  // ----- searching one directory -----

  /** Record `i` of a directory buffer. */
  function Rec(buf: seq<byte>, i: nat): Record
    requires 32 * i + 32 <= |buf|
  {
    buf[32 * i..32 * i + 32]
  }

  function Count(buf: seq<byte>): nat {
    |buf| / 32
  }

  /** The tests of `search`: a file by "name.ext", a directory by "name". */
  predicate Matches(r: Record, term: seq<byte>) {
    && BaseName(r).Some?
    && ( || (FileSize(r) != 0 && !IsSpecial(r) && BaseName(r).value + [DOT] + Extension(r) == term)
         || (IsDirectory(r) && BaseName(r).value == term))
  }

  lemma {:induction false} TrimFirst(s: seq<byte>)
    requires Trim(s) != []
    ensures s != [] && Trim(s)[0] == s[0]
  {
    if s != [] && s[|s| - 1] == SPACE {
      TrimFirst(s[..|s| - 1]);
    }
  }

  /** A record matched by a name without a leading dot shows the name's first character. */
  lemma MatchHead(r: Record, x: seq<byte>)
    requires Matches(r, x) && x != [] && x[0] != DOT
    ensures BaseName(r).value != [] && x[0] == ShownFirst(LowerName(r), r[0])
  {
    var shown := ShownName(LowerName(r), r[..8]);
    if BaseName(r).value != [] {
      TrimFirst(CStr(shown));
      assert shown[0] == CStr(shown)[0];
    }
  }

  /** `i` is the first record that answers to `term`. */
  predicate FirstMatch(buf: seq<byte>, term: seq<byte>, i: nat) {
    && i < Count(buf)
    && Matches(Rec(buf, i), term)
    && forall j :: 0 <= j < i ==> !Matches(Rec(buf, j), term)
  }

  /** The index `search` returns, from record `from` on. */
  function SearchFrom(buf: seq<byte>, term: seq<byte>, from: nat): (r: Option<nat>)
    ensures r.Some? ==> from <= r.value < Count(buf) && Matches(Rec(buf, r.value), term)
    ensures forall j :: from <= j < (if r.Some? then r.value else Count(buf)) ==> !Matches(Rec(buf, j), term)
    decreases Count(buf) - from
  {
    if from >= Count(buf) then None
    else if Matches(Rec(buf, from), term) then Some(from)
    else SearchFrom(buf, term, from + 1)
  }

  function Search(buf: seq<byte>, term: seq<byte>): (r: Option<nat>)
    ensures r.Some? ==> FirstMatch(buf, term, r.value)
    ensures r.None? ==> forall j :: 0 <= j < Count(buf) ==> !Matches(Rec(buf, j), term)
  {
    SearchFrom(buf, term, 0)
  }

  /** The first match is unique, so it is what `Search` finds. */
  lemma SearchFinds(buf: seq<byte>, term: seq<byte>, i: nat)
    requires FirstMatch(buf, term, i)
    ensures Search(buf, term) == Some(i)
  {
  }

  /** The body of `search`'s loop: whether one record answers to `term`. */
  method Answers(r: Record, term: seq<byte>) returns (yes: bool)
    ensures yes == Matches(r, term)
  {
    if FileSize(r) != 0 && !IsSpecial(r) {
      var name := GetName(r[..8], LowerName(r));
      if name.None? {
        return false;
      }
      var extension := GetExtension(r[8..11], LowerExtension(r));
      ExtensionField(r);
      if name.value + [DOT] + extension == term {
        return true;
      }
    }
    if IsDirectory(r) {
      var name := GetName(r[..8], LowerName(r));
      if name.None? {
        return false;
      }
      if name.value == term {
        return true;
      }
    }
    return false;
  }

  method SearchDir(buf: seq<byte>, term: seq<byte>) returns (found: Option<nat>)
    ensures found == Search(buf, term)
  {
    var i := 0;
    while i < Count(buf)
      invariant i <= Count(buf)
      invariant Search(buf, term) == SearchFrom(buf, term, i)
    {
      var yes := Answers(Rec(buf, i), term);
      if yes {
        return Some(i);
      }
      i := i + 1;
    }
    return None;
  }

  lemma ExtensionField(r: Record)
    ensures Extension(r) ==
            Trim(CStr(seq(3, i requires 0 <= i < 3 => Fold(LowerExtension(r), r[8..11][i]))))
  {
    assert seq(3, i requires 0 <= i < 3 => Fold(LowerExtension(r), r[8 + i]))
        == seq(3, i requires 0 <= i < 3 => Fold(LowerExtension(r), r[8..11][i]));
  }
}
