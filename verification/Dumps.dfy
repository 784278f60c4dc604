/** What `dump` and `hdump` (src/user.c) print between their rulers. */
module Dumps {
  import opened Bytes
  import opened FatCells
  import opened Chains
  import opened Records
  import opened Volumes
  import Offsets

  /**
   * The loop over the clusters `s` of a file with `size` bytes left: a whole cluster while
   * that many bytes are left, afterwards `size` bytes of every further cluster.
   */
  function DumpOutput(v: Vol, s: seq<nat>, size: nat): seq<byte>
    requires AllOnDisk(v, s)
  {
    if s == [] then []
    else if size < Size(v) then Cluster(v, s[0])[..size] + DumpOutput(v, s[1..], size)
    else Cluster(v, s[0]) + DumpOutput(v, s[1..], size - Size(v))
  }

  /** What one turn of the loop prints, and the bytes left afterwards. */
  predicate Part(v: Vol, cluster: nat, size: nat, part: seq<byte>, left: nat)
    requires OnDisk(v, cluster)
  {
    if size < Size(v) then part == Cluster(v, cluster)[..size] && left == size
    else part == Cluster(v, cluster) && left == size - Size(v)
  }

  /** The loop has printed `out` and stands at `cluster`, with the clusters `rest` and `size` bytes to go. */
  ghost predicate Printing(v: Vol, all: seq<nat>, total: nat, hex: bool, cluster: nat, rest: seq<nat>, size: nat,
                           out: seq<byte>) {
    && IsWalk(Cells(v), cluster, rest) && AllOnDisk(v, rest) && AllOnDisk(v, all)
    && out + Shown(hex, DumpOutput(v, rest, size)) == Shown(hex, DumpOutput(v, all, total))
  }

  lemma PrintingStep(v: Vol, all: seq<nat>, total: nat, hex: bool, cluster: nat, rest: seq<nat>, size: nat,
                     out: seq<byte>,
                     part: seq<byte>, left: nat)
    requires Printing(v, all, total, hex, cluster, rest, size, out) && cluster != 0
    requires OnDisk(v, cluster) && Part(v, cluster, size, part, left)
    ensures cluster < |v.fat|
    ensures Printing(v, all, total, hex, Next(Cells(v), cluster), rest[1..], left, out + Shown(hex, part))
  {
    assert forall c :: c in rest[1..] ==> c in rest;
    OutputHead(v, rest, size, part, left);
    var after := DumpOutput(v, rest[1..], left);
    ShownAppend(hex, part, after);
    Regroup(out, Shown(hex, part), Shown(hex, after));
  }

  lemma OutputHead(v: Vol, s: seq<nat>, size: nat, part: seq<byte>, left: nat)
    requires s != [] && AllOnDisk(v, s) && Part(v, s[0], size, part, left)
    ensures DumpOutput(v, s, size) == part + DumpOutput(v, s[1..], left)
  {
  }

  /** The file's chain can be read to its end. */
  ghost predicate DumpDefined(v: Vol, found: Lookup) {
    found != Undefined && (found.Found? ==> Readable(v, First(v, found.rec)))
  }

  /** The bytes `dump` (or, in hexadecimal, `hdump`) prints for what `find` returned. */
  ghost function Dumped(v: Vol, found: Lookup, hex: bool): Option<seq<byte>>
    requires DumpDefined(v, found)
  {
    match found
    case Found(r) => Some(Shown(hex, DumpOutput(v, Walk(Cells(v), First(v, r)), FileSize(r))))
    case _ => None
  }

  lemma PrintingDone(v: Vol, all: seq<nat>, total: nat, hex: bool, rest: seq<nat>, size: nat, out: seq<byte>)
    requires Printing(v, all, total, hex, 0, rest, size, out)
    ensures out == Shown(hex, DumpOutput(v, all, total))
  {
    ShownAppend(hex, [], []);
  }

  /** The first `r` bytes of every cluster. */
  function Heads(v: Vol, s: seq<nat>, r: nat): (b: seq<byte>)
    requires AllOnDisk(v, s) && r <= Size(v)
    ensures |b| == |s| * r
    ensures r == 0 ==> b == []
  {
    if s == [] then [] else Cluster(v, s[0])[..r] + Heads(v, s[1..], r)
  }

  function Min(a: nat, b: nat): nat {
    if a <= b then a else b
  }

  /** With less than a cluster left, the size no longer changes. */
  lemma {:induction false} DumpHeads(v: Vol, s: seq<nat>, size: nat)
    requires AllOnDisk(v, s) && size < Size(v)
    ensures DumpOutput(v, s, size) == Heads(v, s, size)
  {
    if s != [] {
      DumpHeads(v, s[1..], size);
    }
  }

  /** Whole clusters first, then the same remainder of every cluster after them. */
  lemma {:induction false} DumpShape(v: Vol, s: seq<nat>, size: nat, q: nat, r: nat)
    requires AllOnDisk(v, s) && size == q * Size(v) + r && r < Size(v)
    ensures AllOnDisk(v, s[..Min(|s|, q)]) && AllOnDisk(v, s[Min(|s|, q)..])
    ensures DumpOutput(v, s, size) == Data(v, s[..Min(|s|, q)]) + Heads(v, s[Min(|s|, q)..], r)
    decreases |s|
  {
    if q == 0 {
      DumpHeads(v, s, size);
      assert s[0..] == s;
    } else if s != [] {
      var m := Min(|s|, q);
      assert Min(|s[1..]|, q - 1) == m - 1;
      assert (q - 1) * Size(v) == q * Size(v) - Size(v);
      Offsets.MulAtMost(Size(v), 1, q);
      DumpShape(v, s[1..], size - Size(v), q - 1, r);
      ShapeStep(v, s, m, r, size);
    }
  }

  lemma ShapeStep(v: Vol, s: seq<nat>, m: nat, r: nat, size: nat)
    requires AllOnDisk(v, s) && 0 < m <= |s| && r <= Size(v) <= size
    requires AllOnDisk(v, s[1..][..m - 1]) && AllOnDisk(v, s[1..][m - 1..])
    requires DumpOutput(v, s[1..], size - Size(v)) == Data(v, s[1..][..m - 1]) + Heads(v, s[1..][m - 1..], r)
    ensures AllOnDisk(v, s[..m]) && AllOnDisk(v, s[m..])
    ensures DumpOutput(v, s, size) == Data(v, s[..m]) + Heads(v, s[m..], r)
  {
    var rest := s[1..];
    assert s[..m][1..] == rest[..m - 1] && s[m..] == rest[m - 1..];
    DumpHead(v, s, size);
    DataHead(v, s[..m]);
    Regroup(Cluster(v, s[0]), Data(v, rest[..m - 1]), Heads(v, s[m..], r));
  }

  lemma DumpHead(v: Vol, s: seq<nat>, size: nat)
    requires AllOnDisk(v, s) && s != [] && size >= Size(v)
    ensures DumpOutput(v, s, size) == Cluster(v, s[0]) + DumpOutput(v, s[1..], size - Size(v))
  {
  }

  lemma DataHead(v: Vol, s: seq<nat>)
    requires AllOnDisk(v, s) && s != []
    ensures Data(v, s) == Cluster(v, s[0]) + Data(v, s[1..])
  {
  }

  lemma Regroup(a: seq<byte>, b: seq<byte>, c: seq<byte>)
    ensures a + (b + c) == (a + b) + c
  {
  }

  /**
   * The output is the file, cut at the end of the chain if that comes first, exactly when the
   * size is a whole number of clusters or the chain has no cluster beyond the last partial one.
   */
  lemma DumpExactIff(v: Vol, s: seq<nat>, size: nat, q: nat, r: nat)
    requires AllOnDisk(v, s) && size == q * Size(v) + r && r < Size(v)
    ensures DumpOutput(v, s, size) == Data(v, s)[..Min(size, |Data(v, s)|)] <==> r == 0 || |s| <= q + 1
  {
    if |s| <= q {
      DumpShort(v, s, size, q, r);
    } else {
      DumpLong(v, s, size, q, r);
    }
  }

  /** A chain that is too short, or just long enough for the whole clusters. */
  lemma DumpShort(v: Vol, s: seq<nat>, size: nat, q: nat, r: nat)
    requires AllOnDisk(v, s) && size == q * Size(v) + r && r < Size(v) && |s| <= q
    ensures DumpOutput(v, s, size) == Data(v, s) && |Data(v, s)| <= size
  {
    DumpShape(v, s, size, q, r);
    Offsets.MulAtMost(Size(v), |s|, q);
    assert s[..|s|] == s && s[|s|..] == [];
  }

  /** A chain with a cluster for the remainder, and perhaps more. */
  lemma DumpLong(v: Vol, s: seq<nat>, size: nat, q: nat, r: nat)
    requires AllOnDisk(v, s) && size == q * Size(v) + r && r < Size(v) && |s| > q
    ensures size <= |Data(v, s)|
    ensures DumpOutput(v, s, size) == Data(v, s)[..size] <==> r == 0 || |s| == q + 1
  {
    DumpShape(v, s, size, q, r);
    var whole, rest := s[..q], s[q..];
    assert s == whole + rest;
    DataSplit(v, whole, rest);
    assert Data(v, rest) == Cluster(v, rest[0]) + Data(v, rest[1..]);
    assert Data(v, rest)[..r] == Cluster(v, rest[0])[..r];
    var heads := Heads(v, rest, r);
    assert heads == Cluster(v, rest[0])[..r] + Heads(v, rest[1..], r);
    HeadsLength(v, rest[1..], r);
    PrefixOfSum(Data(v, whole), Data(v, rest), r);
    assert |Data(v, whole) + heads| == size <==> |heads| == r;
  }

  lemma PrefixOfSum(a: seq<byte>, b: seq<byte>, r: nat)
    requires r <= |b|
    ensures (a + b)[..|a| + r] == a + b[..r]
  {
  }

  lemma HeadsLength(v: Vol, s: seq<nat>, r: nat)
    requires AllOnDisk(v, s) && r <= Size(v)
    ensures Heads(v, s, r) == [] <==> s == [] || r == 0
  {
    if s != [] {
      Offsets.MulAtMost(r, 1, |s|);
    }
  }

  // ----- hdump -----

  function HexDigit(n: nat): byte
    requires n < 16
  {
    if n < 10 then 0x30 + n else 0x41 + (n - 10)
  }

  /** `"%02X "` for every byte. */
  function HexImage(b: seq<byte>): seq<byte> {
    if b == [] then [] else [HexDigit(b[0] / 16), HexDigit(b[0] % 16), SPACE] + HexImage(b[1..])
  }

  lemma {:induction false} HexAppend(a: seq<byte>, b: seq<byte>)
    ensures HexImage(a + b) == HexImage(a) + HexImage(b)
  {
    if a == [] {
      assert a + b == b;
    } else {
      assert (a + b)[1..] == a[1..] + b;
      HexAppend(a[1..], b);
    }
  }

  /** Bytes as `hdump` or as `dump` prints them. */
  function Shown(hex: bool, b: seq<byte>): seq<byte> {
    if hex then HexImage(b) else b
  }

  lemma ShownAppend(hex: bool, a: seq<byte>, b: seq<byte>)
    ensures Shown(hex, a + b) == Shown(hex, a) + Shown(hex, b)
    ensures Shown(hex, []) == []
  {
    HexAppend(a, b);
  }

  /** The hex image determines the bytes. */
  lemma {:induction false} HexInjective(a: seq<byte>, b: seq<byte>)
    requires HexImage(a) == HexImage(b)
    ensures a == b
  {
    if a != [] && b != [] {
      var ha, hb := HexImage(a), HexImage(b);
      assert ha[0] == hb[0] && ha[1] == hb[1];
      assert ha[3..] == HexImage(a[1..]) && hb[3..] == HexImage(b[1..]);
      HexInjective(a[1..], b[1..]);
      assert a[0] == b[0];
      assert a == [a[0]] + a[1..] && b == [b[0]] + b[1..];
    }
  }

  const HEX: string := "0123456789ABCDEF"

  /** Byte `i` is shown as its two hexadecimal digits, the high one first, and a space. */
  lemma {:induction false} HexMeaning(b: seq<byte>, i: nat) returns (high: nat, low: nat)
    requires i < |b|
    ensures |HexImage(b)| == 3 * |b|
    ensures high < 16 && low < 16 && 16 * high + low == b[i]
    ensures HexImage(b)[3 * i] == HEX[high] as int && HexImage(b)[3 * i + 1] == HEX[low] as int
    ensures HexImage(b)[3 * i + 2] == ' ' as int
  {
    HexLength(b);
    if i == 0 {
      high, low := b[0] / 16, b[0] % 16;
      HexDigitIs(high);
      HexDigitIs(low);
    } else {
      high, low := HexMeaning(b[1..], i - 1);
      assert forall k :: 0 <= k < |HexImage(b[1..])| ==> HexImage(b)[3 + k] == HexImage(b[1..])[k];
    }
  }

  lemma {:induction false} HexLength(b: seq<byte>)
    ensures |HexImage(b)| == 3 * |b|
  {
    if b != [] {
      HexLength(b[1..]);
    }
  }

  lemma HexDigitIs(n: nat)
    requires n < 16
    ensures HexDigit(n) == HEX[n] as int
  {
  }

  /**
   * What the two commands print for a file of `size` bytes: its bytes up to the end of its chain, or their
   * hexadecimal image, exactly if the size is a multiple of the cluster size or the chain is no longer
   * than the size needs.
   */
  lemma DumpedFileIff(v: Vol, r: Record, all: seq<nat>, size: nat, q: nat, rest: nat, bytes: seq<byte>)
    requires Readable(v, First(v, r)) && all == Walk(Cells(v), First(v, r))
    requires FileSize(r) == size == q * Size(v) + rest && rest < Size(v)
    requires bytes == Data(v, all)[..Min(size, |Data(v, all)|)]
    ensures DumpDefined(v, Found(r))
    ensures Dumped(v, Found(r), false) == Some(bytes) <==> rest == 0 || |all| <= q + 1
    ensures Dumped(v, Found(r), true) == Some(HexImage(bytes)) <==> Dumped(v, Found(r), false) == Some(bytes)
  {
    var out := DumpedIs(v, r, all, size);
    DumpExactIff(v, all, size, q, rest);
    if HexImage(out) == HexImage(bytes) {
      HexInjective(out, bytes);
    }
  }

  lemma DumpedIs(v: Vol, r: Record, all: seq<nat>, size: nat) returns (out: seq<byte>)
    requires Readable(v, First(v, r)) && all == Walk(Cells(v), First(v, r)) && FileSize(r) == size
    ensures DumpDefined(v, Found(r)) && out == DumpOutput(v, all, size)
    ensures Dumped(v, Found(r), false) == Some(out) && Dumped(v, Found(r), true) == Some(HexImage(out))
  {
    out := DumpOutput(v, all, size);
  }

  /** Nothing is printed for a file that is not found. */
  lemma DumpedNothing(v: Vol, hex: bool)
    ensures Dumped(v, Missing, hex) == None
  {
  }
}
