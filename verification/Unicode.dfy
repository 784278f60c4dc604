/**
 * `cnv_unicode` (src/lfn.c): UTF-16 units to the multibyte string that is shown, sized in one
 * pass and written in a second. The C library's converter is a parameter.
 */
module Unicode {
  import opened Bytes

  type Unit = u: nat | u < 0x1_0000

  /** `wcstombs` on one character: its bytes, or failure. */
  type Converter = Unit -> Option<seq<byte>>

  const COLON: byte := 0x3A

  /** The characters directly convertible to ISO-8859-1. */
  predicate Latin1(u: Unit) {
    u < 0x80 || 0xA0 <= u < 0x100
  }

  /** `fat_uni2esc` */
  function Digit(n: nat): byte
    requires n < 64
  {
    if n < 10 then 0x30 + n
    else if n < 36 then 0x41 + (n - 10)
    else if n < 62 then 0x61 + (n - 36)
    else if n == 62 then 0x2B else 0x2D
  }

  const NUMERALS: string := "0123456789"
  const CAPITALS: string := "ABCDEFGHIJKLMNOPQRSTUVWXYZ"
  const SMALLS: string := "abcdefghijklmnopqrstuvwxyz"

  /** The digits in the order of their values. */
  const DIGITS: string := NUMERALS + CAPITALS + SMALLS + "+-"

  lemma DigitIs(n: nat)
    requires n < 64
    ensures |DIGITS| == 64 && Digit(n) == DIGITS[n] as int
  {
    DigitsAt(NUMERALS, CAPITALS, SMALLS, n);
    if n < 10 {
      NumeralIs(n);
    } else if n < 36 {
      CapitalIs(n - 10);
    } else if n < 62 {
      SmallIs(n - 36);
    }
  }

  lemma DigitsAt(a: string, b: string, c: string, n: nat)
    requires |a| == 10 && |b| == 26 == |c| && n < 64
    ensures |a + b + c + "+-"| == 64
    ensures (a + b + c + "+-")[n] == if n < 10 then a[n] else if n < 36 then b[n - 10]
                                     else if n < 62 then c[n - 36] else if n == 62 then '+' else '-'
  {
  }

  lemma NumeralIs(n: nat)
    requires n < 10
    ensures NUMERALS[n] as int == 0x30 + n
  {
  }

  lemma CapitalIs(n: nat)
    requires n < 26
    ensures CAPITALS[n] as int == 0x41 + n
  {
  }

  lemma SmallIs(n: nat)
    requires n < 26
    ensures SMALLS[n] as int == 0x61 + n
  {
  }

  /** The value of a base-64 digit. */
  function DigitValue(b: byte): nat {
    if 0x30 <= b <= 0x39 then b - 0x30
    else if 0x41 <= b <= 0x5A then b - 0x41 + 10
    else if 0x61 <= b <= 0x7A then b - 0x61 + 36
    else if b == 0x2B then 62 else 63
  }

  /** ":xyz", the notation of the Linux kernel. */
  function Escape(u: Unit): seq<byte> {
    [COLON, Digit(u / 0x1000), Digit(u / 0x40 % 0x40), Digit(u % 0x40)]
  }

  function Unescape(s: seq<byte>): nat
    requires |s| == 4
  {
    0x1000 * DigitValue(s[1]) + 0x40 * DigitValue(s[2]) + DigitValue(s[3])
  }

  lemma DigitRoundTrip(n: nat)
    requires n < 64
    ensures DigitValue(Digit(n)) == n
  {
  }

  lemma EscapeRoundTrip(u: Unit)
    ensures Unescape(Escape(u)) == u
  {
    DigitRoundTrip(u / 0x1000);
    DigitRoundTrip(u / 0x40 % 0x40);
    DigitRoundTrip(u % 0x40);
    Base64Sum(u);
  }

  lemma Base64Sum(u: nat)
    ensures u == 0x1000 * (u / 0x1000) + 0x40 * (u / 0x40 % 0x40) + u % 0x40
  {
    assert u / 0x1000 == u / 0x40 / 0x40;
  }

  /** The bytes shown for one unit. */
  function Code(conv: Converter, u: Unit): seq<byte> {
    if conv(u).Some? then conv(u).value
    else if Latin1(u) then [u as int]
    else Escape(u)
  }

  function Convert(conv: Converter, us: seq<Unit>): seq<byte> {
    if us == [] then [] else Code(conv, us[0]) + Convert(conv, us[1..])
  }

  /**
   * The bytes of one unit: what the C library makes of it; if it fails, the unit itself from U+0000 to
   * U+007F and from U+00A0 to U+00FF, and the escape for every other one.
   */
  lemma CodeMeaning(conv: Converter, u: Unit)
    ensures conv(u).Some? ==> Code(conv, u) == conv(u).value
    ensures conv(u).None? && (u <= 0x7F || 0xA0 <= u <= 0xFF) ==> Code(conv, u) == [u as int]
    ensures conv(u).None? && (0x7F < u < 0xA0 || u > 0xFF) ==> Code(conv, u) == Escape(u)
  {
  }

  /** The escape of a unit: a colon and its three digits to base 64, the highest first. */
  lemma EscapeMeaning(u: Unit, a: nat, b: nat, c: nat)
    requires a < 16 && b < 64 && c < 64 && u == 64 * 64 * a + 64 * b + c
    ensures |Escape(u)| == 4 && |DIGITS| == 64 && Escape(u)[0] == ':' as int
    ensures Escape(u)[1] == DIGITS[a] as int && Escape(u)[2] == DIGITS[b] as int && Escape(u)[3] == DIGITS[c] as int
  {
    ThreeDigits(u, a, b, c);
    DigitIs(a);
    DigitIs(b);
    DigitIs(c);
  }

  lemma ThreeDigits(u: nat, a: nat, b: nat, c: nat)
    requires b < 64 && c < 64 && u == 64 * 64 * a + 64 * b + c
    ensures u / 0x1000 == a && u / 0x40 % 0x40 == b && u % 0x40 == c
  {
    assert u / 0x40 == 64 * a + b;
  }

  // ----- units of a byte buffer -----

  function UnitAt(uni: seq<byte>, k: nat): Unit
    requires 2 * k + 1 < |uni|
  {
    uni[2 * k] + 256 * uni[2 * k + 1] as int
  }

  /** The scan stops inside the buffer: at a zero unit, or after `maxlen` units. */
  predicate Bounded(uni: seq<byte>, k: nat, maxlen: nat)
    decreases maxlen - k
  {
    k >= maxlen || (2 * k + 1 < |uni| && (UnitAt(uni, k) == 0 || Bounded(uni, k + 1, maxlen)))
  }

  /** The units from number `k` on that the loops visit. */
  function Units(uni: seq<byte>, k: nat, maxlen: nat): seq<Unit>
    requires Bounded(uni, k, maxlen)
    decreases maxlen - k
  {
    if k >= maxlen || UnitAt(uni, k) == 0 then [] else [UnitAt(uni, k)] + Units(uni, k + 1, maxlen)
  }

  // ----- the two passes -----

  /** `wctombs`: the bytes and a NUL after them, unless the conversion fails. */
  method WcToMbs(dest: array<byte>, at: nat, conv: Converter, u: Unit) returns (size: Option<nat>)
    requires conv(u).Some? ==> at + |conv(u).value| < dest.Length
    modifies dest
    ensures conv(u).None? ==> size == None && dest[..] == old(dest[..])
    ensures conv(u).Some? ==> size == Some(|conv(u).value|)
                              && dest[..] == Splice(old(dest[..]), at, conv(u).value + [0])
  {
    match conv(u)
    case None => size := None;
    case Some(b) =>
      forall i | 0 <= i < |b| {
        dest[at + i] := b[i];
      }
      dest[at + |b|] := 0;
      size := Some(|b|);
  }

  /** The first pass. */
  method SizePass(uni: seq<byte>, maxlen: nat, conv: Converter) returns (len: nat)
    requires Bounded(uni, 0, maxlen)
    ensures len == |Convert(conv, Units(uni, 0, maxlen))|
  {
    len := 0;
    var k := 0;
    while k < maxlen && UnitAt(uni, k) != 0
      invariant k <= maxlen && Bounded(uni, k, maxlen)
      invariant len + |Convert(conv, Units(uni, k, maxlen))| == |Convert(conv, Units(uni, 0, maxlen))|
    {
      var u := UnitAt(uni, k);
      assert Units(uni, k, maxlen)[1..] == Units(uni, k + 1, maxlen);
      if conv(u).Some? {
        len := len + |conv(u).value|;
      } else if Latin1(u) {
        len := len + 1;
      } else {
        len := len + 4;
      }
      k := k + 1;
    }
  }

  /** One unit written at `cp`; a converter's own NUL lands within the buffer. */
  method WriteUnit(out: array<byte>, cp: nat, conv: Converter, u: Unit) returns (next: nat)
    requires cp + |Code(conv, u)| < out.Length
    modifies out
    ensures next == cp + |Code(conv, u)|
    ensures out[..next] == old(out[..cp]) + Code(conv, u)
  {
    var size := WcToMbs(out, cp, conv, u);
    if size.Some? {
      var x := WcToMbs(out, cp, conv, u);
      next := cp + x.value;
    } else if Latin1(u) {
      out[cp] := u;
      next := cp + 1;
    } else {
      WriteEscape(out, cp, u);
      next := cp + 4;
    }
  }

  /** ':' and the three digits, from the last. */
  method WriteEscape(out: array<byte>, cp: nat, u: Unit)
    requires cp + 4 < out.Length
    modifies out
    ensures out[..cp + 4] == old(out[..cp]) + Escape(u)
  {
    out[cp] := COLON;
    var val := u;
    out[cp + 3] := Digit(val % 0x40);
    val := val / 0x40;
    out[cp + 2] := Digit(val % 0x40);
    val := val / 0x40;
    out[cp + 1] := Digit(val % 0x40);
    assert out[cp..cp + 4] == Escape(u);
  }

  /**
   * `cnv_unicode`: the buffer is one byte longer than the first pass found, the second pass
   * fills it exactly, and the last byte is the terminator.
   */
  method CnvUnicode(uni: seq<byte>, maxlen: nat, conv: Converter) returns (out: array<byte>)
    requires Bounded(uni, 0, maxlen)
    ensures fresh(out)
    ensures out[..] == Convert(conv, Units(uni, 0, maxlen)) + [0]
  {
    var len := SizePass(uni, maxlen, conv);
    out := new byte[len + 1];
    var cp: nat := 0;
    var k: nat := 0;
    ghost var all := Convert(conv, Units(uni, 0, maxlen));
    assert [] + all == all;
    while k < maxlen && UnitAt(uni, k) != 0
      invariant k <= maxlen && Bounded(uni, k, maxlen) && cp <= len == out.Length - 1
      invariant Written(uni, k, maxlen, conv, out[..cp], all)
    {
      WrittenStep(uni, k, maxlen, conv, out[..cp], all);
      cp := WriteUnit(out, cp, conv, UnitAt(uni, k));
      k := k + 1;
    }
    WrittenDone(uni, k, maxlen, conv, out[..cp], all);
    out[cp] := 0;
  }

  /** The second pass has written `before` and stands at unit `k`. */
  ghost predicate Written(uni: seq<byte>, k: nat, maxlen: nat, conv: Converter, before: seq<byte>, all: seq<byte>) {
    Bounded(uni, k, maxlen) && before + Convert(conv, Units(uni, k, maxlen)) == all
  }

  lemma WrittenStep(uni: seq<byte>, k: nat, maxlen: nat, conv: Converter, before: seq<byte>, all: seq<byte>)
    requires Written(uni, k, maxlen, conv, before, all) && k < maxlen && UnitAt(uni, k) != 0
    ensures Written(uni, k + 1, maxlen, conv, before + Code(conv, UnitAt(uni, k)), all)
    ensures |before + Code(conv, UnitAt(uni, k))| <= |all|
  {
    var u, rest := UnitAt(uni, k), Convert(conv, Units(uni, k + 1, maxlen));
    assert Units(uni, k, maxlen)[1..] == Units(uni, k + 1, maxlen);
    assert before + (Code(conv, u) + rest) == before + Code(conv, u) + rest;
  }

  lemma WrittenDone(uni: seq<byte>, k: nat, maxlen: nat, conv: Converter, before: seq<byte>, all: seq<byte>)
    requires Written(uni, k, maxlen, conv, before, all) && (k >= maxlen || UnitAt(uni, k) == 0)
    ensures before == all
  {
  }

  // ----- decodability -----

  /** Units shown without an escape. */
  predicate Direct(conv: Converter, u: Unit) {
    conv(u).Some? || Latin1(u)
  }

  predicate InName(u: Unit) {
    u != 0 && u != COLON
  }

  predicate Overlap(conv: Converter, u: Unit, w: Unit) {
    Direct(conv, u) && Direct(conv, w) && Code(conv, u) <= Code(conv, w)
  }

  /** What is shown directly is never empty, never starts with a colon, and none is a prefix of another. */
  ghost predicate Decodable(conv: Converter) {
    && (forall u: Unit :: InName(u) && Direct(conv, u) ==> Code(conv, u) != [] && Code(conv, u)[0] != COLON)
    && (forall u: Unit, w: Unit :: InName(u) && InName(w) && Overlap(conv, u, w) ==> u == w)
  }

  predicate AreInName(us: seq<Unit>) {
    forall u :: u in us ==> InName(u)
  }

  lemma PrefixesComparable(a: seq<byte>, b: seq<byte>, x: seq<byte>, y: seq<byte>)
    requires a + x == b + y && |a| <= |b|
    ensures a <= b
  {
    assert a == (a + x)[..|a|] == (b + y)[..|a|] == b[..|a|];
  }

  /** The first unit can be read off the front of the string. */
  lemma FirstUnitUnique(conv: Converter, u: Unit, x: seq<byte>, w: Unit, y: seq<byte>)
    requires Decodable(conv) && InName(u) && InName(w)
    requires Code(conv, u) + x == Code(conv, w) + y
    ensures u == w
  {
    var a, b := Code(conv, u), Code(conv, w);
    assert a != [] && b != [];
    assert (a + x)[0] == a[0] && (b + y)[0] == b[0];
    if Direct(conv, u) && Direct(conv, w) {
      if |a| <= |b| {
        PrefixesComparable(a, b, x, y);
        assert Overlap(conv, u, w);
      } else {
        PrefixesComparable(b, a, y, x);
        assert Overlap(conv, w, u);
      }
    } else {
      PrefixesComparable(a, b, x, y);
      assert a == b;
      EscapeRoundTrip(u);
      EscapeRoundTrip(w);
    }
  }

  /** Names without U+003A that are shown the same are the same. */
  lemma {:induction false} ConvertInjective(conv: Converter, us: seq<Unit>, ws: seq<Unit>)
    requires Decodable(conv) && AreInName(us) && AreInName(ws)
    requires Convert(conv, us) == Convert(conv, ws)
    ensures us == ws
  {
    ConvertEmpty(conv, us);
    ConvertEmpty(conv, ws);
    if us != [] {
      assert us[0] in us && ws[0] in ws;
      var x, y := Convert(conv, us[1..]), Convert(conv, ws[1..]);
      FirstUnitUnique(conv, us[0], x, ws[0], y);
      var a := Code(conv, us[0]);
      assert x == (a + x)[|a|..] == (a + y)[|a|..] == y;
      ConvertInjective(conv, us[1..], ws[1..]);
      assert us == [us[0]] + us[1..] && ws == [ws[0]] + ws[1..];
    }
  }

  lemma ConvertEmpty(conv: Converter, us: seq<Unit>)
    requires Decodable(conv) && AreInName(us)
    ensures Convert(conv, us) == [] <==> us == []
  {
    if us != [] {
      assert us[0] in us && |Code(conv, us[0])| > 0;
    }
  }

  /** The converter of the "C" locale, which the tool never leaves: ASCII only. */
  function Ascii(u: Unit): Option<seq<byte>> {
    if u < 0x80 then Some([u as int]) else None
  }

  lemma AsciiDecodable()
    ensures Decodable(Ascii)
  {
    forall u: Unit, w: Unit | InName(u) && InName(w) && Overlap(Ascii, u, w)
      ensures u == w
    {
      assert Code(Ascii, u)[0] == u && Code(Ascii, w)[0] == w;
    }
  }

  /** With a colon in a name, two names can be shown the same: U+0100, and the text ":040". */
  lemma ColonCollides()
    ensures Convert(Ascii, [0x100]) == Convert(Ascii, [0x3A, 0x30, 0x34, 0x30])
  {
    assert Convert(Ascii, [0x100]) == Escape(0x100) + Convert(Ascii, []);
    assert [0x3A, 0x30, 0x34, 0x30][1..] == [0x30, 0x34, 0x30];
    assert [0x30, 0x34, 0x30][1..] == [0x34, 0x30];
    assert [0x34, 0x30][1..] == [0x30];
  }
}
