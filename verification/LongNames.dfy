/**
 * Long names on disk and what the parser makes of them: cutting a name into records and feeding
 * them gives the name back, and `list` shows it (src/lfn.c, the loop of `list` in src/user.c).
 */
module LongNames {
  import opened Bytes
  import opened Records
  import opened Unicode
  import opened Lfn

  // ----- units as bytes -----

  function UnitBytes(us: seq<Unit>): (b: seq<byte>)
    ensures |b| == 2 * |us|
  {
    if us == [] then [] else [us[0] % 0x100, us[0] / 0x100] + UnitBytes(us[1..])
  }

  lemma {:induction false} UnitBytesAppend(a: seq<Unit>, b: seq<Unit>)
    ensures UnitBytes(a + b) == UnitBytes(a) + UnitBytes(b)
  {
    if a == [] {
      assert a + b == b;
    } else {
      assert (a + b)[1..] == a[1..] + b;
      UnitBytesAppend(a[1..], b);
    }
  }

  lemma {:induction false} UnitBytesAt(us: seq<Unit>, rest: seq<byte>, k: nat)
    requires k < |us|
    ensures UnitAt(UnitBytes(us) + rest, k) == us[k]
  {
    var b := UnitBytes(us) + rest;
    if k != 0 {
      assert b[2..] == UnitBytes(us[1..]) + rest;
      UnitBytesAt(us[1..], rest, k - 1);
      assert b[2..][2 * (k - 1)] == b[2 * k] && b[2..][2 * (k - 1) + 1] == b[2 * k + 1];
    }
  }

  /** Scanning stored units gives the name before the first zero. */
  lemma {:induction false} UnitsOf(us: seq<Unit>, pad: seq<Unit>, k: nat, maxlen: nat)
    requires 0 !in us && k <= |us| <= maxlen && (pad == [] || pad[0] == 0)
    ensures var b := UnitBytes(us + pad) + [0, 0];
            Bounded(b, k, maxlen) && Units(b, k, maxlen) == us[k..]
    decreases |us| - k
  {
    var b := UnitBytes(us + pad) + [0, 0];
    if k == |us| {
      if pad != [] {
        UnitBytesAt(us + pad, [0, 0], k);
      } else {
        assert us + pad == us;
        assert b[2 * k] == 0 && b[2 * k + 1] == 0;
      }
    } else {
      UnitBytesAt(us + pad, [0, 0], k);
      assert us[k] in us;
      UnitsOf(us, pad, k + 1, maxlen);
      assert us[k..] == [us[k]] + us[k + 1..];
    }
  }

  // ----- a name as records -----

  /** `us` filled up to whole parts; after the name comes a zero unit, then anything. */
  predicate Padded(us: seq<Unit>, pad: seq<Unit>) {
    && us != [] && 0 !in us
    && |us + pad| % CHARS == 0 && |us + pad| <= 31 * CHARS
    && (pad != [] ==> pad[0] == 0)
  }

  function Parts(p: seq<Unit>): nat {
    |p| / CHARS
  }

  /** Part `n - j` lies before `PartAt(p, j)`. */
  function PartAt(p: seq<Unit>, j: nat): (k: nat)
    requires j <= Parts(p)
    ensures k <= |p|
  {
    CHARS * (Parts(p) - j)
  }

  /** Record `j` in directory order carries part `n - j`; the first one says how many there are. */
  predicate CarriesPart(p: seq<Unit>, r: Record, j: nat)
    requires j < Parts(p)
  {
    var n := Parts(p);
    && IsLfn(r) && r[0] == n - j + (if j == 0 then 0x40 else 0)
    && NamePart(r) == UnitBytes(p[PartAt(p, j + 1)..PartAt(p, j)])
  }

  predicate Carries(p: seq<Unit>, rs: seq<Record>) {
    |rs| == Parts(p) && forall j :: 0 <= j < |rs| ==> CarriesPart(p, rs[j], j)
  }

  /** A long-name record with the 26 bytes of `part` in its three fields; checksum and the rest are 0. */
  function PartRecord(id: byte, part: seq<byte>): (r: Record)
    requires |part| == PART
    ensures r[0] == id && IsLfn(r) && NamePart(r) == part
  {
    var r := [id] + part[..10] + [LN_ATTR, 0, 0] + part[10..22] + [0, 0] + part[22..];
    assert r[1..11] == part[..10] && r[14..26] == part[10..22] && r[28..32] == part[22..];
    r
  }

  /** A name of whole parts cut into records, last part first. */
  function Split(p: seq<Unit>): seq<Record>
    requires |p| % CHARS == 0 && |p| <= 31 * CHARS
  {
    seq(Parts(p), j requires 0 <= j < Parts(p) =>
      PartRecord(Parts(p) - j + (if j == 0 then 0x40 else 0), UnitBytes(p[PartAt(p, j + 1)..PartAt(p, j)])))
  }

  lemma SplitCarries(p: seq<Unit>)
    requires |p| % CHARS == 0 && |p| <= 31 * CHARS
    ensures Carries(p, Split(p))
  {
  }

  /** What fills a name up: a zero unit and 0xFFFF, or nothing. */
  function Padding(us: seq<Unit>): seq<Unit> {
    if |us| % CHARS == 0 then [] else [0] + seq(CHARS - 1 - |us| % CHARS, _ => 0xFFFF)
  }

  lemma PaddingPads(us: seq<Unit>)
    requires us != [] && 0 !in us && |us| <= 31 * CHARS
    ensures Padded(us, Padding(us))
  {
    var n := |us| / CHARS;
    assert |us| == CHARS * n + |us| % CHARS;
    assert |us + Padding(us)| == if |us| % CHARS == 0 then CHARS * n else CHARS * (n + 1);
  }

  /** Feeding records found at directory positions `at`, `at + 1`, .. */
  function Feed(q: Parser, rs: seq<Record>, at: int): (q': Parser)
    requires Sane(q)
    ensures Sane(q')
    decreases |rs|
  {
    if rs == [] then q else Feed(Add(q, rs[0], at), rs[1..], at + 1)
  }

  /** The last `j` parts are in the buffer, in order. */
  predicate Holds(s: Parser, p: seq<Unit>, j: nat)
    requires j <= Parts(p)
  {
    && s.Collecting? && s.count == Parts(p) && s.slot == Parts(p) - j
    && s.tail == UnitBytes(p[PartAt(p, j)..]) + [0, 0]
  }

  /** The id of a start record. */
  lemma StartId(r: Record, n: nat)
    requires 1 <= n <= 31 && r[0] == n + 0x40
    ensures IsStart(r) && SlotNumber(r) == n
  {
  }

  lemma WholeParts(p: seq<Unit>)
    requires |p| % CHARS == 0
    ensures PartAt(p, 0) == |p| && CHARS * Parts(p) == |p|
  {
  }

  /** Part `n - j` and what comes after it. */
  lemma PartSplit(p: seq<Unit>, j: nat)
    requires j < Parts(p)
    ensures PartAt(p, j + 1) + CHARS == PartAt(p, j) <= |p|
    ensures p[PartAt(p, j + 1)..] == p[PartAt(p, j + 1)..PartAt(p, j)] + p[PartAt(p, j)..]
  {
  }

  /** The id of a later record. */
  lemma LaterId(r: Record, n: nat)
    requires n <= 31 && r[0] == n
    ensures !IsStart(r)
  {
  }

  lemma FirstRecord(q: Parser, p: seq<Unit>, r: Record, at: int)
    requires Sane(q) && 1 <= Parts(p) <= 31 && |p| % CHARS == 0 && CarriesPart(p, r, 0)
    ensures Holds(Add(q, r, at), p, 1) && Add(q, r, at).offsets == [at]
  {
    StartId(r, Parts(p));
    WholeParts(p);
    assert p[PartAt(p, 1)..PartAt(p, 0)] == p[PartAt(p, 1)..];
  }

  lemma NextRecord(s: Parser, p: seq<Unit>, r: Record, at: int, j: nat)
    requires Sane(s) && 1 <= j < Parts(p) <= 31 && CarriesPart(p, r, j) && Holds(s, p, j)
    ensures Holds(Add(s, r, at), p, j + 1) && Add(s, r, at).offsets == s.offsets + [at]
  {
    var part, rest := p[PartAt(p, j + 1)..PartAt(p, j)], p[PartAt(p, j)..];
    PartSplit(p, j);
    UnitBytesAppend(part, rest);
    LaterId(r, Parts(p) - j);
    assert NamePart(r) + (UnitBytes(rest) + [0, 0]) == NamePart(r) + UnitBytes(rest) + [0, 0];
  }

  /** `rs` carry the parts from the record with index `j` on. */
  predicate CarriesFrom(p: seq<Unit>, rs: seq<Record>, j: nat)
    requires j + |rs| <= Parts(p)
  {
    forall k :: 0 <= k < |rs| ==> CarriesPart(p, rs[k], j + k)
  }

  lemma CarriesOn(p: seq<Unit>, rs: seq<Record>, j: nat)
    requires rs != [] && j + |rs| <= Parts(p) && CarriesFrom(p, rs, j)
    ensures CarriesPart(p, rs[0], j) && CarriesFrom(p, rs[1..], j + 1)
  {
    assert CarriesPart(p, rs[0], j + 0);
    forall k | 0 <= k < |rs[1..]|
      ensures CarriesPart(p, rs[1..][k], j + 1 + k)
    {
      assert CarriesPart(p, rs[k + 1], j + (k + 1));
    }
  }

  /** With `j` parts collected, the records `rs` of parts that follow bring them to `j + |rs|`. */
  lemma {:induction false} FedRest(s: Parser, p: seq<Unit>, rs: seq<Record>, at: int, j: nat)
    requires Sane(s) && 1 <= j && j + |rs| <= Parts(p) <= 31 && Holds(s, p, j)
    requires CarriesFrom(p, rs, j)
    ensures Holds(Feed(s, rs, at), p, j + |rs|) && Feed(s, rs, at).offsets[0] == s.offsets[0]
    decreases |rs|
  {
    if rs != [] {
      CarriesOn(p, rs, j);
      NextRecord(s, p, rs[0], at, j);
      FedRest(Add(s, rs[0], at), p, rs[1..], at + 1, j + 1);
    }
  }

  /**
   * Reassembly: from any state of the parser, the records of a name in directory order give
   * exactly that name, and the position of the first of them.
   */
  lemma Reassembly(q: Parser, us: seq<Unit>, pad: seq<Unit>, rs: seq<Record>, at: int, conv: Converter)
    requires Sane(q) && Padded(us, pad) && Carries(us + pad, rs)
    ensures Name(Feed(q, rs, at), conv) == Some(Convert(conv, us))
    ensures Feed(q, rs, at).offsets[0] == at
  {
    var p := us + pad;
    var n := Parts(p);
    assert n >= 1;
    assert CarriesPart(p, rs[0], 0);
    FirstRecord(q, p, rs[0], at);
    CarriesOn(p, rs, 0);
    FedRest(Add(q, rs[0], at), p, rs[1..], at + 1, 1);
    HeldName(Feed(q, rs, at), us, pad, conv);
  }

  /** What would be printed about them: the end of the name that they carry. */
  lemma OrphanText(s: Parser, us: seq<Unit>, pad: seq<Unit>, k: nat, conv: Converter)
    requires Sane(s) && Padded(us, pad) && k <= Parts(us + pad) && Holds(s, us + pad, k)
    requires PartAt(us + pad, k) <= |us|
    ensures Orphan(s, conv) == Some(CStr(Convert(conv, us[PartAt(us + pad, k)..])))
  {
    var p := us + pad;
    var at := PartAt(p, k);
    var rest := us[at..];
    WholeParts(p);
    assert p[at..] == rest + pad;
    forall u | u in rest
      ensures u != 0
    {
      assert u in us;
    }
    UnitsOf(rest, pad, 0, CHARS * k);
    assert rest[0..] == rest;
  }

  /** While parts are missing, there is no name; the parser holds those that have come. */
  lemma PartsAreNoName(q: Parser, us: seq<Unit>, pad: seq<Unit>, rs: seq<Record>, k: nat, at: int, conv: Converter)
    requires Sane(q) && Padded(us, pad) && Carries(us + pad, rs) && 1 <= k < |rs|
    ensures Name(Feed(q, rs[..k], at), conv) == None && Holds(Feed(q, rs[..k], at), us + pad, k)
  {
    var p := us + pad;
    assert CarriesPart(p, rs[0], 0);
    FirstRecord(q, p, rs[0], at);
    CarriesOn(p, rs[..k], 0);
    assert rs[..k][1..] == rs[1..k];
    FedRest(Add(q, rs[0], at), p, rs[1..k], at + 1, 1);
  }

  /** A part that begins no name is dropped when none is being collected; so is a complete name when it comes. */
  lemma StrayPart(q: Parser, r: Record, at: int)
    requires Sane(q) && !Begins(r) && (q.Collecting? ==> q.slot == 0)
    ensures Add(q, r, at) == Idle
  {
  }

  /** Every name of up to 403 units survives being cut into records and fed to the parser. */
  lemma SplitThenFeed(q: Parser, us: seq<Unit>, at: int, conv: Converter)
    requires Sane(q) && us != [] && 0 !in us && |us| <= 31 * CHARS
    ensures Padded(us, Padding(us))
    ensures Name(Feed(q, Split(us + Padding(us)), at), conv) == Some(Convert(conv, us))
    ensures Feed(q, Split(us + Padding(us)), at).offsets[0] == at
  {
    PaddingPads(us);
    SplitCarries(us + Padding(us));
    Reassembly(q, us, Padding(us), Split(us + Padding(us)), at, conv);
  }

  /** With every part in the buffer, the name is read off up to its zero unit. */
  lemma HeldName(s: Parser, us: seq<Unit>, pad: seq<Unit>, conv: Converter)
    requires Sane(s) && Padded(us, pad) && Holds(s, us + pad, Parts(us + pad))
    ensures Name(s, conv) == Some(Convert(conv, us))
  {
    var p := us + pad;
    assert p[PartAt(p, Parts(p))..] == p;
    UnitsOf(us, pad, 0, UNTIL_0);
    assert us[0..] == us;
  }

  // ----- list -----

  /** What `list` shows for a record: its index and its long name, if the parser has one. */
  type Shown = (nat, Option<seq<byte>>)

  /** `list` asks for a long name: a directory, or a record that is no label and no long-name part. */
  predicate Asks(r: Record) {
    (IsDirectory(r) || !IsSpecial(r)) && r[0] != 0
  }

  /** The parser after record `i` has been passed to it, or not. */
  function Fed(q: Parser, r: Record, i: nat): (q': Parser)
    requires Sane(q)
    ensures Sane(q')
  {
    if !IsDeleted(r) && IsLfn(r) then Add(q, r, i) else q
  }

  /** What one record makes `list` show, and the parser afterwards. */
  function Listed(q: Parser, r: Record, i: nat, showDeleted: bool, conv: Converter): (seq<Shown>, Parser)
    requires Sane(q)
  {
    if IsDeleted(r) && !showDeleted then ([], q)
    else if Asks(r) then ([(i, Name(Fed(q, r, i), conv))], Idle)
    else ([], Fed(q, r, i))
  }

  lemma ListedSane(q: Parser, r: Record, i: nat, showDeleted: bool, conv: Converter)
    requires Sane(q)
    ensures Sane(Listed(q, r, i, showDeleted, conv).1)
  {
  }

  /** The loop of `list` from record `i` on. */
  function ListFrom(q: Parser, buf: seq<byte>, i: nat, showDeleted: bool, conv: Converter): seq<Shown>
    requires Sane(q)
    decreases Count(buf) - i
  {
    if i >= Count(buf) then []
    else
      ListedSane(q, Rec(buf, i), i, showDeleted, conv);
      var (line, q') := Listed(q, Rec(buf, i), i, showDeleted, conv);
      line + ListFrom(q', buf, i + 1, showDeleted, conv)
  }

  /** One turn of the loop: the line shown for record `i`, if any. */
  method ListOne(parser: LfnParser, r: Record, i: nat, showDeleted: bool, conv: Converter) returns (line: seq<Shown>)
    requires parser.Valid()
    modifies parser, parser.unicode, parser.offsets
    ensures parser.Valid()
    ensures parser.unicode != old(parser.unicode) ==> parser.unicode == null || fresh(parser.unicode)
    ensures parser.offsets != old(parser.offsets) ==> parser.offsets == null || fresh(parser.offsets)
    ensures (line, parser.Abstract()) == Listed(old(parser.Abstract()), r, i, showDeleted, conv)
  {
    line := [];
    if IsDeleted(r) && !showDeleted {
      return;
    }
    if !IsDeleted(r) && IsLfn(r) {
      parser.AddSlot(r, i, conv);
    }
    if Asks(r) {
      var name, offset := parser.Get(r, conv);
      line := [(i, name)];
    }
  }

  /** The loop itself, on the parser object. */
  method List(parser: LfnParser, buf: seq<byte>, showDeleted: bool, conv: Converter) returns (out: seq<Shown>)
    requires parser.Valid()
    modifies parser, parser.unicode, parser.offsets
    ensures parser.Valid()
    ensures out == ListFrom(old(parser.Abstract()), buf, 0, showDeleted, conv)
  {
    out := [];
    ghost var q := parser.Abstract();
    ghost var all := ListFrom(q, buf, 0, showDeleted, conv);
    var i: nat := 0;
    ShowsStart(q, buf, showDeleted, conv);
    while i < Count(buf)
      invariant parser.Valid() && parser.Abstract() == q
      invariant parser.unicode != old(parser.unicode) ==> parser.unicode == null || fresh(parser.unicode)
      invariant parser.offsets != old(parser.offsets) ==> parser.offsets == null || fresh(parser.offsets)
      invariant Shows(q, buf, i, showDeleted, conv, out, all)
    {
      out := ListNext(parser, buf, i, showDeleted, conv, out, q, all);
      q, i := parser.Abstract(), i + 1;
    }
    ShowsDone(q, buf, i, showDeleted, conv, out, all);
  }

  lemma ShowsStart(q: Parser, buf: seq<byte>, showDeleted: bool, conv: Converter)
    requires Sane(q)
    ensures Shows(q, buf, 0, showDeleted, conv, [], ListFrom(q, buf, 0, showDeleted, conv))
  {
  }

  lemma ShowsDone(q: Parser, buf: seq<byte>, i: nat, showDeleted: bool, conv: Converter, out: seq<Shown>,
                  all: seq<Shown>)
    requires Shows(q, buf, i, showDeleted, conv, out, all) && i >= Count(buf)
    ensures out == all
  {
  }

  method ListNext(parser: LfnParser, buf: seq<byte>, i: nat, showDeleted: bool, conv: Converter, before: seq<Shown>,
                  ghost q: Parser, ghost all: seq<Shown>)
    returns (out: seq<Shown>)
    requires parser.Valid() && parser.Abstract() == q
    requires i < Count(buf) && Shows(q, buf, i, showDeleted, conv, before, all)
    modifies parser, parser.unicode, parser.offsets
    ensures parser.Valid()
    ensures parser.unicode != old(parser.unicode) ==> parser.unicode == null || fresh(parser.unicode)
    ensures parser.offsets != old(parser.offsets) ==> parser.offsets == null || fresh(parser.offsets)
    ensures Shows(parser.Abstract(), buf, i + 1, showDeleted, conv, out, all)
  {
    var line := ListOne(parser, Rec(buf, i), i, showDeleted, conv);
    ListTurn(q, buf, i, showDeleted, conv, before, all, line, parser.Abstract());
    out := before + line;
  }

  /** The loop of `list` has shown `out` of `all` and stands at record `i`. */
  predicate Shows(q: Parser, buf: seq<byte>, i: nat, showDeleted: bool, conv: Converter, out: seq<Shown>,
                  all: seq<Shown>) {
    Sane(q) && i <= Count(buf) && out + ListFrom(q, buf, i, showDeleted, conv) == all
  }

  /** Unfolding one turn of the loop. */
  lemma ListUnfold(q: Parser, buf: seq<byte>, i: nat, showDeleted: bool, conv: Converter, line: seq<Shown>, q': Parser)
    requires Sane(q) && i < Count(buf) && Listed(q, Rec(buf, i), i, showDeleted, conv) == (line, q')
    ensures Sane(q')
    ensures ListFrom(q, buf, i, showDeleted, conv) == line + ListFrom(q', buf, i + 1, showDeleted, conv)
  {
    ListedSane(q, Rec(buf, i), i, showDeleted, conv);
  }

  lemma ListTurn(q: Parser, buf: seq<byte>, i: nat, showDeleted: bool, conv: Converter, out: seq<Shown>,
                 all: seq<Shown>,
                 line: seq<Shown>, q': Parser)
    requires Shows(q, buf, i, showDeleted, conv, out, all) && i < Count(buf)
    requires Listed(q, Rec(buf, i), i, showDeleted, conv) == (line, q')
    ensures Shows(q', buf, i + 1, showDeleted, conv, out + line, all)
  {
    ListUnfold(q, buf, i, showDeleted, conv, line, q');
    var after := ListFrom(q', buf, i + 1, showDeleted, conv);
    assert out + (line + after) == out + line + after;
  }

  /** A live long-name record feeds the parser and leaves nothing to show. */
  lemma ListFeedsOne(q: Parser, buf: seq<byte>, i: nat, showDeleted: bool, conv: Converter)
    requires Sane(q) && i < Count(buf) && IsLfn(Rec(buf, i)) && !IsDeleted(Rec(buf, i))
    ensures ListFrom(q, buf, i, showDeleted, conv)
         == ListFrom(Add(q, Rec(buf, i), i), buf, i + 1, showDeleted, conv)
  {
    ListedLfn(q, Rec(buf, i), i, showDeleted, conv);
    ListUnfold(q, buf, i, showDeleted, conv, [], Add(q, Rec(buf, i), i));
  }

  lemma ListedLfn(q: Parser, r: Record, i: nat, showDeleted: bool, conv: Converter)
    requires Sane(q) && IsLfn(r) && !IsDeleted(r)
    ensures Listed(q, r, i, showDeleted, conv) == ([], Add(q, r, i))
  {
  }

  /** `lfn_get` is never called with a long-name record. */
  lemma AsksNotLfn(r: Record)
    requires Asks(r)
    ensures !IsLfn(r)
  {
  }

  lemma ListedAsks(q: Parser, r: Record, i: nat, showDeleted: bool, conv: Converter, name: Option<seq<byte>>)
    requires Sane(q) && Listable(r, showDeleted) && !IsLfn(r) && name == Name(q, conv)
    ensures Listed(q, r, i, showDeleted, conv) == ([(i, name)], Idle)
  {
    assert Fed(q, r, i) == q;
  }

  /** `rs` is in the directory from record `i` on. */
  predicate StoredAt(rs: seq<Record>, buf: seq<byte>, i: nat) {
    i + |rs| <= Count(buf) && forall k :: 0 <= k < |rs| ==> rs[k] == Rec(buf, i + k)
  }

  predicate AreLiveLfn(rs: seq<Record>) {
    forall r :: r in rs ==> IsLfn(r) && !IsDeleted(r)
  }

  lemma CarriersAreLive(p: seq<Unit>, rs: seq<Record>)
    requires Carries(p, rs) && |p| <= 31 * CHARS
    ensures AreLiveLfn(rs)
  {
    forall r | r in rs
      ensures IsLfn(r) && !IsDeleted(r)
    {
      var j :| 0 <= j < |rs| && rs[j] == r;
      assert CarriesPart(p, rs[j], j);
    }
  }

  lemma LiveTail(rs: seq<Record>, buf: seq<byte>, i: nat)
    requires rs != [] && AreLiveLfn(rs) && StoredAt(rs, buf, i)
    ensures i < Count(buf) && Rec(buf, i) == rs[0] && IsLfn(rs[0]) && !IsDeleted(rs[0])
    ensures AreLiveLfn(rs[1..]) && StoredAt(rs[1..], buf, i + 1)
  {
    assert rs[0] in rs && rs[0] == Rec(buf, i + 0);
    forall k | 0 <= k < |rs[1..]|
      ensures rs[1..][k] == Rec(buf, i + 1 + k)
    {
      assert rs[k + 1] == Rec(buf, i + (k + 1));
    }
  }

  /** So does a sequence of them: what is shown from the first on is what is shown after the last. */
  lemma {:induction false} ListFeeds(q: Parser, rs: seq<Record>, buf: seq<byte>, i: nat, k: nat, showDeleted: bool,
                                     conv: Converter,
                                     shown: seq<Shown>)
    requires Sane(q) && AreLiveLfn(rs) && StoredAt(rs, buf, i) && k == i + |rs|
    requires shown == ListFrom(Feed(q, rs, i), buf, k, showDeleted, conv)
    ensures ListFrom(q, buf, i, showDeleted, conv) == shown
    decreases |rs|
  {
    if rs != [] {
      LiveTail(rs, buf, i);
      ListFeeds(Add(q, rs[0], i), rs[1..], buf, i + 1, k, showDeleted, conv, shown);
      ListFeedsOne(q, buf, i, showDeleted, conv);
    }
  }

  /** `list` passes over the record, and the parser does not see it. */
  predicate Silent(r: Record, showDeleted: bool) {
    if IsDeleted(r) then !showDeleted || !Asks(r) else !IsLfn(r) && !Asks(r)
  }

  lemma ListSilentOne(q: Parser, buf: seq<byte>, i: nat, showDeleted: bool, conv: Converter)
    requires Sane(q) && i < Count(buf) && Silent(Rec(buf, i), showDeleted)
    ensures ListFrom(q, buf, i, showDeleted, conv) == ListFrom(q, buf, i + 1, showDeleted, conv)
  {
    ListedSilent(q, Rec(buf, i), i, showDeleted, conv);
    ListUnfold(q, buf, i, showDeleted, conv, [], q);
  }

  lemma ListedSilent(q: Parser, r: Record, i: nat, showDeleted: bool, conv: Converter)
    requires Sane(q) && Silent(r, showDeleted)
    ensures Listed(q, r, i, showDeleted, conv) == ([], q)
  {
  }

  /** Records `j` to `k - 1` are passed over. */
  predicate AllSilent(buf: seq<byte>, j: nat, k: nat, showDeleted: bool) {
    k <= Count(buf) && forall m :: j <= m < k ==> Silent(Rec(buf, m), showDeleted)
  }

  lemma SilentTail(buf: seq<byte>, j: nat, k: nat, showDeleted: bool)
    requires AllSilent(buf, j, k, showDeleted) && j < k
    ensures j < Count(buf) && Silent(Rec(buf, j), showDeleted) && AllSilent(buf, j + 1, k, showDeleted)
  {
  }

  lemma {:induction false} ListSilent(q: Parser, buf: seq<byte>, j: nat, k: nat, showDeleted: bool, conv: Converter,
                                      shown: seq<Shown>)
    requires Sane(q) && j <= k && AllSilent(buf, j, k, showDeleted) && shown == ListFrom(q, buf, k, showDeleted, conv)
    ensures ListFrom(q, buf, j, showDeleted, conv) == shown
    decreases k - j
  {
    if j < k {
      SilentTail(buf, j, k, showDeleted);
      ListSilent(q, buf, j + 1, k, showDeleted, conv, shown);
      ListSilentOne(q, buf, j, showDeleted, conv);
    }
  }

  /** `list` shows a record: it asks for a name, and is live or wanted all the same. */
  predicate Listable(r: Record, showDeleted: bool) {
    Asks(r) && (showDeleted || !IsDeleted(r))
  }

  /**
   * A directory that holds the records of a long name: `list` shows that name, whatever the parser
   * held before, for the first record after them that is not passed over, if that one asks
   * for a name; and goes on with an idle parser. The record need not be the one they belong to.
   */
  lemma ListShowsNext(q: Parser, us: seq<Unit>, pad: seq<Unit>, rs: seq<Record>, buf: seq<byte>, i: nat, j: nat, k: nat,
                      showDeleted: bool, conv: Converter, after: seq<Shown>)
    requires Sane(q) && Padded(us, pad) && Carries(us + pad, rs)
    requires StoredAt(rs, buf, i) && j == i + |rs| <= k < Count(buf)
    requires AllSilent(buf, j, k, showDeleted) && Listable(Rec(buf, k), showDeleted)
    requires after == ListFrom(Idle, buf, k + 1, showDeleted, conv)
    ensures ListFrom(q, buf, i, showDeleted, conv) == [(k, Some(Convert(conv, us)))] + after
  {
    Reassembly(q, us, pad, rs, i, conv);
    CarriersAreLive(us + pad, rs);
    var s, name := Feed(q, rs, i), Some(Convert(conv, us));
    ListAsks(s, buf, k, showDeleted, conv, name, after);
    ListSilent(s, buf, j, k, showDeleted, conv, [(k, name)] + after);
    ListFeeds(q, rs, buf, i, j, showDeleted, conv, [(k, name)] + after);
  }

  /**
   * So the record right behind them, which is the one they belong to, is shown with its own name if
   * it is shown at all.
   */
  lemma ListShowsLongName(q: Parser, us: seq<Unit>, pad: seq<Unit>, rs: seq<Record>, buf: seq<byte>, i: nat, k: nat,
                          showDeleted: bool, conv: Converter, after: seq<Shown>)
    requires Sane(q) && Padded(us, pad) && Carries(us + pad, rs)
    requires StoredAt(rs, buf, i) && k == i + |rs| < Count(buf) && Listable(Rec(buf, k), showDeleted)
    requires after == ListFrom(Idle, buf, k + 1, showDeleted, conv)
    ensures ListFrom(q, buf, i, showDeleted, conv) == [(k, Some(Convert(conv, us)))] + after
  {
    ListShowsNext(q, us, pad, rs, buf, i, k, k, showDeleted, conv, after);
  }

  /**
   * A deleted record that is not shown leaves its long name, whose records stay live, to the
   * next record that is shown.
   */
  lemma DeletedNameGoesOn(q: Parser, us: seq<Unit>, pad: seq<Unit>, rs: seq<Record>, buf: seq<byte>, i: nat, k: nat,
                          conv: Converter, after: seq<Shown>)
    requires Sane(q) && Padded(us, pad) && Carries(us + pad, rs)
    requires StoredAt(rs, buf, i) && k == i + |rs| && k + 1 < Count(buf)
    requires IsDeleted(Rec(buf, k)) && Listable(Rec(buf, k + 1), false)
    requires after == ListFrom(Idle, buf, k + 2, false, conv)
    ensures ListFrom(q, buf, i, false, conv) == [(k + 1, Some(Convert(conv, us)))] + after
  {
    ListShowsNext(q, us, pad, rs, buf, i, k, k + 1, false, conv, after);
  }

  /** Nothing is shown for the records passed. */
  lemma {:induction false} IndicesFrom(q: Parser, buf: seq<byte>, i: nat, showDeleted: bool, conv: Converter,
                                       shown: seq<Shown>)
    requires Sane(q) && shown == ListFrom(q, buf, i, showDeleted, conv)
    ensures AreFrom(shown, i)
    decreases Count(buf) - i
  {
    if i >= Count(buf) {
      NothingLeft(q, buf, i, showDeleted, conv);
    } else {
      var head, q', rest := ShownTurn(q, buf, i, showDeleted, conv, shown);
      IndicesFrom(q', buf, i + 1, showDeleted, conv, rest);
      FromTurn(head, rest, i);
    }
  }

  predicate AreFrom(shown: seq<Shown>, i: nat) {
    forall line :: line in shown ==> line.0 >= i
  }

  lemma NothingLeft(q: Parser, buf: seq<byte>, i: nat, showDeleted: bool, conv: Converter)
    requires Sane(q) && i >= Count(buf)
    ensures ListFrom(q, buf, i, showDeleted, conv) == []
  {
  }

  lemma FromTurn(head: seq<Shown>, rest: seq<Shown>, i: nat)
    requires AreFrom(rest, i + 1) && forall line :: line in head ==> line.0 == i
    ensures AreFrom(head + rest, i)
  {
  }

  /**
   * The record that a long name belongs to is shown with it if and only if it is live, or deleted
   * records are shown.
   */
  lemma OwnNameIff(q: Parser, us: seq<Unit>, pad: seq<Unit>, rs: seq<Record>, buf: seq<byte>, i: nat, k: nat,
                   showDeleted: bool, conv: Converter)
    requires Sane(q) && Padded(us, pad) && Carries(us + pad, rs)
    requires StoredAt(rs, buf, i) && k == i + |rs| < Count(buf) && Asks(Rec(buf, k))
    ensures (k, Some(Convert(conv, us))) in ListFrom(q, buf, i, showDeleted, conv) <==>
            showDeleted || !IsDeleted(Rec(buf, k))
  {
    var line := (k, Some(Convert(conv, us)));
    if Listable(Rec(buf, k), showDeleted) {
      var after := ListFrom(Idle, buf, k + 1, showDeleted, conv);
      ListShowsLongName(q, us, pad, rs, buf, i, k, showDeleted, conv, after);
      assert ([line] + after)[0] == line;
    } else {
      var s := Feed(q, rs, i);
      CarriersAreLive(us + pad, rs);
      ListSilentOne(s, buf, k, showDeleted, conv);
      ListFeeds(q, rs, buf, i, k, showDeleted, conv, ListFrom(s, buf, k + 1, showDeleted, conv));
      IndicesFrom(s, buf, k + 1, showDeleted, conv, ListFrom(s, buf, k + 1, showDeleted, conv));
    }
  }

  /** `k` is among the records shown. */
  ghost predicate IsShown(shown: seq<Shown>, k: nat) {
    exists line :: line in shown && line.0 == k
  }

  lemma ListedShows(q: Parser, r: Record, i: nat, showDeleted: bool, conv: Converter, line: seq<Shown>)
    requires Sane(q) && line == Listed(q, r, i, showDeleted, conv).0
    ensures line != [] <==> Listable(r, showDeleted)
    ensures forall l :: l in line ==> l.0 == i
  {
  }

  /** `list` shows exactly the records that ask for a name and are live, or are wanted all the same. */
  lemma {:induction false} ShownIff(q: Parser, buf: seq<byte>, i: nat, k: nat, showDeleted: bool, conv: Converter,
                                    shown: seq<Shown>)
    requires Sane(q) && i <= k < Count(buf) && shown == ListFrom(q, buf, i, showDeleted, conv)
    ensures IsShown(shown, k) <==> Listable(Rec(buf, k), showDeleted)
    decreases k - i
  {
    var line, q', rest := ShownTurn(q, buf, i, showDeleted, conv, shown);
    if i < k {
      ShownIff(q', buf, i + 1, k, showDeleted, conv, rest);
      ShownBehind(line, rest, i, k);
    } else {
      FirstShown(line, rest, i);
      NoneBefore(q', buf, i, showDeleted, conv, rest);
    }
  }

  /** One turn of the loop and what is shown behind it. */
  lemma ShownTurn(q: Parser, buf: seq<byte>, i: nat, showDeleted: bool, conv: Converter, shown: seq<Shown>)
    returns (line: seq<Shown>, q': Parser, rest: seq<Shown>)
    requires Sane(q) && i < Count(buf) && shown == ListFrom(q, buf, i, showDeleted, conv)
    ensures Sane(q') && rest == ListFrom(q', buf, i + 1, showDeleted, conv) && shown == line + rest
    ensures line != [] <==> Listable(Rec(buf, i), showDeleted)
    ensures forall l :: l in line ==> l.0 == i
  {
    var turn := Listed(q, Rec(buf, i), i, showDeleted, conv);
    line, q' := turn.0, turn.1;
    ListedShows(q, Rec(buf, i), i, showDeleted, conv, line);
    ListUnfold(q, buf, i, showDeleted, conv, line, q');
    rest := ListFrom(q', buf, i + 1, showDeleted, conv);
  }

  lemma NoneBefore(q: Parser, buf: seq<byte>, i: nat, showDeleted: bool, conv: Converter, rest: seq<Shown>)
    requires Sane(q) && rest == ListFrom(q, buf, i + 1, showDeleted, conv)
    ensures !IsShown(rest, i)
  {
    IndicesFrom(q, buf, i + 1, showDeleted, conv, rest);
  }

  lemma ShownBehind(head: seq<Shown>, rest: seq<Shown>, i: nat, k: nat)
    requires i != k && forall line :: line in head ==> line.0 == i
    ensures IsShown(head + rest, k) <==> IsShown(rest, k)
  {
    if line :| line in head + rest && line.0 == k {
      assert line in rest;
    }
    if line :| line in rest && line.0 == k {
      assert line in head + rest;
    }
  }

  lemma FirstShown(head: seq<Shown>, rest: seq<Shown>, i: nat)
    requires forall line :: line in head ==> line.0 == i
    ensures IsShown(head + rest, i) <==> head != [] || IsShown(rest, i)
  {
    if head != [] {
      assert head[0] in head + rest;
    } else {
      assert head + rest == rest;
    }
  }

  lemma ListAsks(q: Parser, buf: seq<byte>, i: nat, showDeleted: bool, conv: Converter, name: Option<seq<byte>>,
                 after: seq<Shown>)
    requires Sane(q) && i < Count(buf) && Listable(Rec(buf, i), showDeleted) && name == Name(q, conv)
    requires after == ListFrom(Idle, buf, i + 1, showDeleted, conv)
    ensures ListFrom(q, buf, i, showDeleted, conv) == [(i, name)] + after
  {
    AsksNotLfn(Rec(buf, i));
    ListedAsks(q, Rec(buf, i), i, showDeleted, conv, name);
    ListUnfold(q, buf, i, showDeleted, conv, [(i, name)], Idle);
  }
}
