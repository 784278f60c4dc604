/**
 * Paths as the user types them and as the tool stores them: `get_parent_path`,
 * `fix_deleted_char` (src/fs.c) and `address_convertor` (src/user.c), and what they mean on
 * token lists.
 */
module Paths {
  import opened Bytes
  import opened Records

  type Token = seq<byte>

  // ----- tokens: the strings strtok(path, "/") yields -----

  /** Length of the leading run without a slash. */
  function SegmentLength(s: seq<byte>): (n: nat)
    ensures n <= |s| && (n < |s| ==> s[n] == SLASH)
    ensures forall i :: 0 <= i < n ==> s[i] != SLASH
  {
    if s == [] || s[0] == SLASH then 0 else 1 + SegmentLength(s[1..])
  }

  function Tokens(s: seq<byte>): seq<Token>
    decreases |s|
  {
    if s == [] then []
    else if s[0] == SLASH then Tokens(s[1..])
    else var n := SegmentLength(s); [s[..n]] + Tokens(s[n..])
  }

  /** `strtok(.., "/")`: skip slashes, then take everything up to the next one. */
  method StrTok(s: seq<byte>) returns (token: Option<Token>, rest: seq<byte>)
    ensures Tokens(s) == (if token.Some? then [token.value] else []) + Tokens(rest)
    ensures token.None? ==> Tokens(s) == []
    ensures token.Some? ==> |rest| < |s|
  {
    var i := SkipSlashes(s);
    if i == |s| {
      return None, [];
    }
    var j := i;
    while j < |s| && s[j] != SLASH
      invariant i <= j <= |s|
      invariant forall k :: i <= k < j ==> s[k] != SLASH
    {
      j := j + 1;
    }
    FirstToken(s, i, j);
    return Some(s[i..j]), s[j..];
  }

  method SkipSlashes(s: seq<byte>) returns (i: nat)
    ensures i <= |s| && (i < |s| ==> s[i] != SLASH)
    ensures Tokens(s) == Tokens(s[i..])
  {
    i := 0;
    while i < |s| && s[i] == SLASH
      invariant i <= |s|
      invariant Tokens(s) == Tokens(s[i..])
    {
      assert s[i..][1..] == s[i + 1..];
      i := i + 1;
    }
  }

  lemma FirstToken(s: seq<byte>, i: nat, j: nat)
    requires i < j <= |s| && (j < |s| ==> s[j] == SLASH) && forall k :: i <= k < j ==> s[k] != SLASH
    ensures Tokens(s[i..]) == [s[i..j]] + Tokens(s[j..])
  {
    SegmentOf(s[i..], j - i);
    assert s[i..][..j - i] == s[i..j] && s[i..][j - i..] == s[j..];
  }

  predicate IsToken(x: Token) {
    x != [] && SLASH !in x
  }

  predicate AreTokens(ts: seq<Token>) {
    forall x :: x in ts ==> IsToken(x)
  }

  lemma SegmentOf(s: seq<byte>, n: nat)
    requires n <= |s| && (n < |s| ==> s[n] == SLASH)
    requires forall i :: 0 <= i < n ==> s[i] != SLASH
    ensures SegmentLength(s) == n
  {
  }

  /** A slash separates tokens. */
  lemma {:induction false} TokensSplit(a: seq<byte>, b: seq<byte>)
    ensures Tokens(a + [SLASH] + b) == Tokens(a) + Tokens(b)
    decreases |a|
  {
    if a == [] {
      assert (a + [SLASH] + b)[1..] == b;
    } else if a[0] == SLASH {
      assert (a + [SLASH] + b)[1..] == a[1..] + [SLASH] + b;
      TokensSplit(a[1..], b);
    } else {
      var n := SegmentSplit(a, b);
      TokensSplit(a[n..], b);
    }
  }

  /** What precedes a slash starts with the same token, alone and with more behind the slash. */
  lemma SegmentSplit(a: seq<byte>, b: seq<byte>) returns (n: nat)
    requires a != [] && a[0] != SLASH
    ensures 0 < n <= |a| && Tokens(a) == [a[..n]] + Tokens(a[n..])
    ensures Tokens(a + [SLASH] + b) == [a[..n]] + Tokens(a[n..] + [SLASH] + b)
  {
    var s := a + [SLASH] + b;
    n := SegmentLength(a);
    SegmentOf(s, n);
    assert s[..n] == a[..n] && s[n..] == a[n..] + [SLASH] + b;
  }

  /** Tokens have no slash in them and are not empty. */
  lemma {:induction false} TokensAre(s: seq<byte>)
    ensures AreTokens(Tokens(s))
    decreases |s|
  {
    if s != [] && s[0] == SLASH {
      TokensAre(s[1..]);
    } else if s != [] {
      var n := SegmentLength(s);
      assert SLASH !in s[..n];
      TokensAre(s[n..]);
    }
  }

  lemma LastIs(ts: seq<Token>, init: seq<Token>, x: Token)
    requires AreTokens(ts) && ts == init + [x]
    ensures IsToken(x)
  {
    assert x in ts;
  }

  lemma TokensOfToken(x: Token)
    requires IsToken(x)
    ensures Tokens(x) == [x]
  {
    assert x[..|x|] == x;
    SegmentOf(x, |x|);
  }

  /** `a/x/` with `x` a token. */
  lemma TokensSnoc(a: seq<byte>, x: Token)
    requires IsToken(x)
    ensures Tokens(a + [SLASH] + x + [SLASH]) == Tokens(a) + [x]
  {
    TokensSplit(a + [SLASH] + x, []);
    assert a + [SLASH] + x + [SLASH] + [] == a + [SLASH] + x + [SLASH];
    TokensSplit(a, x);
    TokensOfToken(x);
  }

  /** Only slashes have no tokens. */
  lemma {:induction false} NoTokensNoName(s: seq<byte>)
    ensures Tokens(s) == [] <==> forall i :: 0 <= i < |s| ==> s[i] == SLASH
  {
    if s != [] && s[0] == SLASH {
      NoTokensNoName(s[1..]);
      assert forall i :: 1 <= i < |s| ==> s[i] == s[1..][i - 1];
      assert forall i :: 0 <= i < |s| - 1 ==> s[1..][i] == s[i + 1];
    }
  }

  lemma TokensOfSlash()
    ensures Tokens([SLASH]) == []
  {
    NoTokensNoName([SLASH]);
  }

  lemma TokensUnder(b: seq<byte>, x: Token)
    requires EndsWithSlash(b) && IsToken(x)
    ensures Tokens(b + x + [SLASH]) == Tokens(b) + [x]
  {
    var a := b[..|b| - 1];
    assert b == a + [SLASH] && b == a + [SLASH] + [];
    TokensSplit(a, []);
    TokensSnoc(a, x);
  }

  // ----- canonical paths: "/a/b/" -----

  function Render(ts: seq<Token>): (s: seq<byte>)
    ensures s != [] && s[0] == SLASH && s[|s| - 1] == SLASH
  {
    if ts == [] then [SLASH] else Render(ts[..|ts| - 1]) + ts[|ts| - 1] + [SLASH]
  }

  lemma RenderSnoc(ts: seq<Token>, x: Token)
    ensures Render(ts + [x]) == Render(ts) + x + [SLASH]
  {
    assert (ts + [x])[..|ts|] == ts;
  }

  lemma {:induction false} TokensRender(ts: seq<Token>)
    requires AreTokens(ts)
    ensures Tokens(Render(ts)) == ts
  {
    if ts == [] {
      TokensOfSlash();
    } else {
      var init, x := ts[..|ts| - 1], ts[|ts| - 1];
      TokensRender(init);
      TokensUnder(Render(init), x);
      assert ts == init + [x];
    }
  }

  // ----- get_parent_path -----

  function StripSlash(s: seq<byte>): seq<byte> {
    if s != [] && s[|s| - 1] == SLASH then s[..|s| - 1] else s
  }

  /** The last slash at or before `len`, or 0; the position past the end holds the terminator. */
  function LastSlash(s: seq<byte>, len: nat): (n: nat)
    requires len <= |s|
    ensures n <= len && (n != 0 ==> n < |s| && s[n] == SLASH)
    ensures forall i :: n < i <= len && i < |s| ==> s[i] != SLASH
  {
    if len == 0 then 0
    else if len < |s| && s[len] == SLASH then len
    else LastSlash(s, len - 1)
  }

  lemma LastSlashIs(s: seq<byte>, n: nat)
    requires n < |s| && s[n] == SLASH
    requires forall i :: n < i < |s| ==> s[i] != SLASH
    ensures LastSlash(s, |s|) == n
  {
  }

  function ParentPath(path: seq<byte>): seq<byte> {
    var s := StripSlash(path);
    s[..LastSlash(s, |s|)] + [SLASH]
  }

  /** A fresh NUL-terminated copy of a string. */
  method StrCpy(s: seq<byte>) returns (ret: array<byte>)
    ensures fresh(ret) && ret[..] == s + [0]
  {
    ret := new byte[|s| + 1];
    forall i | 0 <= i < |s| {
      ret[i] := s[i];
    }
    ret[|s|] := 0;
  }

  lemma CStrOf(buffer: seq<byte>, s: seq<byte>)
    requires 0 !in s && |s| < |buffer| && buffer[..|s|] == s && buffer[|s|] == 0
    ensures CStr(buffer) == s
  {
    CStrCut(buffer, |s|);
  }

  /** The common start of `get_parent_path` and `fix_deleted_char`: strip a slash, look back for one. */
  method StripAndSeek(path: seq<byte>) returns (ret: array<byte>, len: nat)
    requires path != [] && 0 !in path
    ensures fresh(ret)
    ensures ret[..] == StripSlash(path) + seq(|path| + 1 - |StripSlash(path)|, _ => 0)
    ensures len == LastSlash(StripSlash(path), |StripSlash(path)|)
  {
    ret := StrCpy(path);
    ghost var s := StripSlash(path);
    if ret[|path| - 1] == SLASH {
      ret[|path| - 1] := 0;
    }
    assert ret[..] == s + seq(|path| + 1 - |s|, _ => 0);
    CStrOf(ret[..], s);
    len := |CStr(ret[..])|;
    while ret[len] != SLASH && len != 0
      invariant len <= |s|
      invariant ret[..] == s + seq(|path| + 1 - |s|, _ => 0)
      invariant LastSlash(s, len) == LastSlash(s, |s|)
      decreases len
    {
      len := len - 1;
    }
  }

  method GetParentPath(path: seq<byte>) returns (r: seq<byte>)
    requires path != [] && 0 !in path
    ensures r == ParentPath(path)
  {
    var ret, len := StripAndSeek(path);
    ret[len] := SLASH;
    ret[len + 1] := 0;
    ghost var s := StripSlash(path);
    forall i | 0 <= i < len
      ensures s[..len][i] in path
    {
      assert s[i] == path[i];
    }
    CStrOf(ret[..], s[..len] + [SLASH]);
    return CStr(ret[..]);
  }

  predicate EndsWithSlash(s: seq<byte>) {
    s != [] && s[|s| - 1] == SLASH
  }

  predicate EndsWithTwoSlashes(s: seq<byte>) {
    |s| >= 2 && s[|s| - 1] == SLASH == s[|s| - 2]
  }

  /** A path without its trailing slash, cut at its last slash: `a + "/" + x`, or just `x`. */
  lemma CutAtLastSlash(path: seq<byte>) returns (a: seq<byte>, x: Token)
    requires StripSlash(path) != [] && !EndsWithSlash(StripSlash(path))
    ensures IsToken(x) && ParentPath(path) == a + [SLASH]
    ensures StripSlash(path) == (if SLASH in StripSlash(path) then a + [SLASH] + x else x)
    ensures SLASH !in StripSlash(path) ==> a == []
    ensures Tokens(path) == Tokens(a) + [x]
  {
    var s := StripSlash(path);
    var n := LastSlash(s, |s|);
    a := s[..n];
    if s[n] == SLASH {
      x := s[n + 1..];
      assert s == a + [SLASH] + x;
      TokensSplit(a, x);
    } else {
      x := s;
    }
    TokensOfToken(x);
    if path != s {
      TokensSplit(s, []);
      assert path == s + [SLASH] + [];
    }
  }

  lemma ParentOfDoubled(path: seq<byte>)
    requires EndsWithTwoSlashes(path)
    ensures Tokens(ParentPath(path)) == Tokens(path)
  {
    var s := StripSlash(path);
    assert path == s + [SLASH] + [];
    TokensSplit(s, []);
    if |s| == 1 {
      assert s == [SLASH] == ParentPath(path);
    } else {
      LastSlashIs(s, |s| - 1);
      assert ParentPath(path) == s;
    }
  }

  /**
   * The parent of a path drops its last token exactly when the path does not end in two
   * slashes; when it does, the "parent" still names the same file.
   */
  lemma ParentTokens(path: seq<byte>)
    requires EndsWithSlash(path) && Tokens(path) != []
    ensures Tokens(ParentPath(path)) == Tokens(path)[..|Tokens(path)| - 1] <==> !EndsWithTwoSlashes(path)
    ensures EndsWithTwoSlashes(path) ==> Tokens(ParentPath(path)) == Tokens(path)
  {
    if EndsWithTwoSlashes(path) {
      ParentOfDoubled(path);
    } else {
      assert path != [SLASH];
      var a, x := CutAtLastSlash(path);
      TokensSplit(a, []);
      assert a + [SLASH] + [] == a + [SLASH];
      assert (Tokens(a) + [x])[..|Tokens(a)|] == Tokens(a);
    }
  }

  lemma ParentOfRender(ts: seq<Token>, x: Token)
    requires IsToken(x)
    ensures ParentPath(Render(ts + [x])) == Render(ts)
  {
    RenderSnoc(ts, x);
    var r, path := Render(ts), Render(ts + [x]);
    var s := StripSlash(path);
    assert s == r + x;
    LastSlashIs(s, |r| - 1);
    assert s[..|r| - 1] == r[..|r| - 1];
  }

  /** The parent of a directory part and a name is the directory part. */
  lemma ParentUnder(b: seq<byte>, x: Token)
    requires EndsWithSlash(b) && IsToken(x)
    ensures ParentPath(b + x + [SLASH]) == b
  {
    var s := StripSlash(b + x + [SLASH]);
    assert s == b + x;
    LastSlashIs(s, |b| - 1);
    assert s[..|b| - 1] == b[..|b| - 1];
  }

  // ----- fix_deleted_char -----

  /** The position `fix_deleted_char` overwrites. */
  function FixAt(path: seq<byte>): nat {
    var s := StripSlash(path);
    var n := LastSlash(s, |s|);
    if n != 0 then n + 1 else 0
  }

  function FixedPath(path: seq<byte>): seq<byte> {
    var s := StripSlash(path);
    var k := FixAt(path);
    if k < |s| then s[k := QUESTION] else s + [QUESTION]
  }

  function FixedChar(path: seq<byte>): byte {
    var s := StripSlash(path);
    var k := FixAt(path);
    if k < |s| then s[k] else 0
  }

  method FixDeletedChar(path: seq<byte>) returns (r: seq<byte>, c: byte)
    requires path != [] && 0 !in path
    ensures r == FixedPath(path) && c == FixedChar(path)
  {
    var ret, len := StripAndSeek(path);
    ghost var s := StripSlash(path);
    ghost var before := ret[..];
    var k := if len != 0 then len + 1 else 0;
    c := ret[k];
    ret[k] := QUESTION;
    assert ret[..] == before[k := QUESTION];
    FixedHasNoNul(path);
    assert k <= |s| by {
      if len != 0 { assert len < |s|; }
    }
    assert |FixedPath(path)| <= |path|;
    CStrOf(ret[..], FixedPath(path));
    return CStr(ret[..]), c;
  }

  lemma FixedHasNoNul(path: seq<byte>)
    requires path != [] && 0 !in path
    ensures 0 !in FixedPath(path)
    ensures FixAt(path) == |StripSlash(path)| ==> StripSlash(path) != path
  {
    var s := StripSlash(path);
    forall b | b in FixedPath(path)
      ensures b == QUESTION || b in path
    {
    }
  }

  /** A token with its first character replaced. */
  function WithFirst(x: Token, c: byte): Token
    requires x != []
  {
    x[0 := c]
  }

  /** The last token directly under an absolute root: "/x" or "/x/". */
  predicate RootedSingle(path: seq<byte>) {
    var s := StripSlash(path);
    s != [] && s[0] == SLASH && forall i :: 1 <= i < |s| ==> s[i] != SLASH
  }

  /** What masking is for: the first character of the last component is masked and reported. */
  predicate MasksLast(path: seq<byte>)
    requires Tokens(path) != []
  {
    var ts := Tokens(path);
    var init, last := ts[..|ts| - 1], ts[|ts| - 1];
    last != [] && FixedChar(path) == last[0] && Tokens(FixedPath(path)) == init + [WithFirst(last, QUESTION)]
  }

  /**
   * `fix_deleted_char` does that exactly when the path is not a single component under an
   * absolute root, where the slash itself is taken for the character, and does not end in two
   * slashes, where a new component "?" is appended and NUL reported.
   */
  lemma FixMasksLast(path: seq<byte>)
    requires Tokens(path) != []
    ensures MasksLast(path) <==> !RootedSingle(path) && !EndsWithSlash(StripSlash(path))
    ensures RootedSingle(path) && !EndsWithSlash(StripSlash(path)) ==> FixedChar(path) == SLASH
    ensures EndsWithSlash(StripSlash(path)) ==>
              FixedChar(path) == 0 && Tokens(FixedPath(path)) == Tokens(path) + [[QUESTION]]
  {
    StripTokens(path);
    if EndsWithSlash(StripSlash(path)) {
      FixAppends(path);
    } else {
      FixMasksName(path);
    }
  }

  lemma StripTokens(path: seq<byte>)
    ensures Tokens(StripSlash(path)) == Tokens(path)
  {
    var s := StripSlash(path);
    TokensSplit(s, []);
    assert path == s || path == s + [SLASH] + [];
  }

  lemma NotOnlySlash(path: seq<byte>)
    requires Tokens(path) != [] && EndsWithSlash(StripSlash(path))
    ensures |StripSlash(path)| >= 2
  {
    StripTokens(path);
    TokensOfSlash();
    assert |StripSlash(path)| == 1 ==> StripSlash(path) == [SLASH];
  }

  lemma FixAppends(path: seq<byte>)
    requires Tokens(path) != [] && EndsWithSlash(StripSlash(path))
    ensures FixedPath(path) == StripSlash(path) + [QUESTION] && FixedChar(path) == 0
    ensures Tokens(FixedPath(path)) == Tokens(path) + [[QUESTION]]
  {
    var s := StripSlash(path);
    NotOnlySlash(path);
    LastSlashIs(s, |s| - 1);
    StripTokens(path);
    OneMore(s, s, 0);
    assert (s + [QUESTION])[0..] == s + [QUESTION] && s[0..] == s;
  }

  lemma FixMasksName(path: seq<byte>)
    requires StripSlash(path) != [] && !EndsWithSlash(StripSlash(path))
    ensures Tokens(path) != [] && (MasksLast(path) <==> !RootedSingle(path))
    ensures RootedSingle(path) ==> FixedChar(path) == SLASH
  {
    var a, x := CutAtLastSlash(path);
    assert (Tokens(a) + [x])[..|Tokens(a)|] == Tokens(a);
    assert x[0] in x;
    if RootedSingle(path) {
      assert LastSlash(StripSlash(path), |StripSlash(path)|) == 0;
    } else {
      MasksCut(path, a, x);
    }
  }

  lemma MasksCut(path: seq<byte>, a: seq<byte>, x: Token)
    requires IsToken(x) && !RootedSingle(path)
    requires StripSlash(path) == (if SLASH in StripSlash(path) then a + [SLASH] + x else x)
    requires SLASH !in StripSlash(path) ==> a == []
    ensures FixedChar(path) == x[0] && Tokens(FixedPath(path)) == Tokens(a) + [WithFirst(x, QUESTION)]
  {
    var q := WithFirst(x, QUESTION);
    TokensOfToken(q);
    if SLASH in StripSlash(path) {
      SlashInside(path, a, x);
      TokensSplit(a, q);
    } else {
      assert LastSlash(x, |x|) == 0;
    }
  }

  lemma FixCut(s: seq<byte>, a: seq<byte>, x: Token)
    requires s == a + [SLASH] + x && IsToken(x) && a != []
    ensures LastSlash(s, |s|) == |a|
    ensures s[|a| + 1 := QUESTION] == a + [SLASH] + WithFirst(x, QUESTION)
  {
    LastSlashIs(s, |a|);
  }

  // ----- address_convertor -----

  /** Reading a C string at an index: the terminator counts as 0. */
  function CharAt(s: seq<byte>, i: nat): byte {
    if i < |s| then s[i] else 0
  }

  function EnsureSlash(s: seq<byte>): seq<byte> {
    if EndsWithSlash(s) then s else s + [SLASH]
  }

  /** The absolute path for what the user typed; `None` when nothing was typed. */
  function Convert(cwd: seq<byte>, path: Option<seq<byte>>): seq<byte> {
    match path
    case None => cwd
    case Some(p) =>
      if CharAt(p, 0) == DOT && CharAt(p, 1) == DOT then
        EnsureSlash(ParentPath(cwd) + p[if CharAt(p, 2) == SLASH then 3 else 2..])
      else if CharAt(p, 0) == DOT then
        EnsureSlash(cwd + p[if CharAt(p, 1) == SLASH then 2 else 1..])
      else if CharAt(p, 0) != SLASH then
        EnsureSlash(cwd + p)
      else
        EnsureSlash(p)
  }

  /** The size of the block it asks for. */
  function Asked(cwd: seq<byte>, path: Option<seq<byte>>): nat {
    match path
    case None => |cwd| + 1
    case Some(p) =>
      if CharAt(p, 0) == DOT && CharAt(p, 1) == DOT then |ParentPath(cwd)| + |p|
      else if CharAt(p, 0) == DOT then |cwd| + |p|
      else if CharAt(p, 0) != SLASH then |cwd| + |p| + 2
      else |p| + 2
  }

  /** The string and its terminator fit into that block. */
  predicate Roomy(cwd: seq<byte>, path: Option<seq<byte>>) {
    |Convert(cwd, path)| + 1 <= Asked(cwd, path)
  }

  /** A dot with a name right behind it, and no slash at the end. */
  predicate Hidden(p: seq<byte>) {
    |p| >= 2 && p[0] == DOT && p[1] !in {DOT, SLASH} && !EndsWithSlash(p)
  }

  /** The block is one byte short exactly for such a path: the dot goes, the name stays, and a slash is added. */
  lemma RoomyIff(cwd: seq<byte>, path: Option<seq<byte>>)
    requires IsCwd(cwd)
    ensures Roomy(cwd, path) <==> path.None? || !Hidden(path.value)
    ensures |Convert(cwd, path)| <= Asked(cwd, path)
  {
    if path.Some? && path.value != [] {
      var p := path.value;
      assert p[|p| - 1..] == [p[|p| - 1]];
    }
  }

  /** The buffer holds the C string `s`. */
  predicate HasStr(buffer: seq<byte>, s: seq<byte>) {
    0 !in s && |s| < |buffer| && buffer[..|s|] == s && buffer[|s|] == 0
  }

  /** `realloc` */
  method Realloc(was: array<byte>, size: nat, ghost s: seq<byte>) returns (ret: array<byte>)
    requires HasStr(was[..], s) && |s| < size
    ensures fresh(ret) && ret.Length == size && HasStr(ret[..], s)
  {
    ret := new byte[size];
    forall i | 0 <= i < size && i < was.Length {
      ret[i] := was[i];
    }
    assert ret[..|s|] == was[..][..|s|];
  }

  /** `strcat` */
  method StrCat(ret: array<byte>, t: seq<byte>, ghost s: seq<byte>)
    requires HasStr(ret[..], s) && 0 !in t && |s| + |t| < ret.Length
    modifies ret
    ensures HasStr(ret[..], s + t)
  {
    CStrOf(ret[..], s);
    var n := |CStr(ret[..])|;
    forall i | 0 <= i < |t| {
      ret[n + i] := t[i];
    }
    ret[n + |t|] := 0;
    assert ret[..|s + t|] == s + t;
  }

  /** The slash at the end, if it is not there. */
  method AddSlash(ret: array<byte>, ghost s: seq<byte>)
    requires HasStr(ret[..], s) && s != [] && |EnsureSlash(s)| < ret.Length
    modifies ret
    ensures HasStr(ret[..], EnsureSlash(s))
  {
    CStrOf(ret[..], s);
    var n := |CStr(ret[..])|;
    if ret[n - 1] != SLASH {
      ret[n + 1] := 0;
      ret[n] := SLASH;
      assert ret[..n + 1] == s + [SLASH];
    }
  }

  /** The string code itself, in a block of the size asked for. */
  method AddressConvertor(cwd: seq<byte>, path: Option<seq<byte>>) returns (r: seq<byte>)
    requires IsCwd(cwd) && 0 !in cwd && (path.Some? ==> 0 !in path.value)
    requires Roomy(cwd, path)
    ensures r == Convert(cwd, path)
  {
    if path.None? {
      var copy := StrCpy(cwd);
      CStrOf(copy[..], cwd);
      return CStr(copy[..]);
    }
    var p := path.value;
    if CharAt(p, 0) == DOT && CharAt(p, 1) == DOT {
      var seek := if CharAt(p, 2) == SLASH then 3 else 2;
      ParentNoNul(cwd);
      var parent := GetParentPath(cwd);
      r := Joined(parent, p[seek..], |parent| + |p|);
    } else if CharAt(p, 0) == DOT {
      var seek := if CharAt(p, 1) == SLASH then 2 else 1;
      r := Joined(cwd, p[seek..], |cwd| + |p|);
    } else if CharAt(p, 0) != SLASH {
      r := Joined(cwd, p, |cwd| + |p| + 2);
    } else {
      r := Joined(p, [], |p| + 2);
      assert p + [] == p;
    }
  }

  /** Copy, grow, append and end with a slash, in `size` bytes. */
  method Joined(a: seq<byte>, b: seq<byte>, size: nat) returns (r: seq<byte>)
    requires a != [] && 0 !in a && 0 !in b && |EnsureSlash(a + b)| < size
    ensures r == EnsureSlash(a + b)
  {
    var copy := StrCpy(a);
    assert copy[..|a|] == a;
    var ret := Realloc(copy, size, a);
    StrCat(ret, b, a);
    AddSlash(ret, a + b);
    CStrOf(ret[..], EnsureSlash(a + b));
    return CStr(ret[..]);
  }

  /** The shape `cd` keeps: starts and ends with a slash. */
  predicate IsCwd(s: seq<byte>) {
    s != [] && s[0] == SLASH && s[|s| - 1] == SLASH
  }

  lemma ParentIsCwd(cwd: seq<byte>)
    requires IsCwd(cwd)
    ensures IsCwd(ParentPath(cwd))
  {
  }

  lemma EnsureNoNul(a: seq<byte>, p: seq<byte>, k: nat)
    requires 0 !in a && 0 !in p && k <= |p|
    ensures 0 !in EnsureSlash(a + p[k..])
  {
  }

  lemma ParentNoNul(cwd: seq<byte>)
    requires 0 !in cwd
    ensures 0 !in ParentPath(cwd)
  {
  }

  lemma ConvertHasNoNul(cwd: seq<byte>, path: Option<seq<byte>>)
    requires IsCwd(cwd) && 0 !in cwd && (path.Some? ==> 0 !in path.value)
    ensures 0 !in Convert(cwd, path) && Convert(cwd, path) != []
  {
    if path.Some? {
      var p := path.value;
      ParentNoNul(cwd);
      if CharAt(p, 0) == DOT == CharAt(p, 1) {
        EnsureNoNul(ParentPath(cwd), p, if CharAt(p, 2) == SLASH then 3 else 2);
      } else if CharAt(p, 0) == DOT {
        EnsureNoNul(cwd, p, if CharAt(p, 1) == SLASH then 2 else 1);
      } else {
        EnsureNoNul(cwd, p, 0);
        EnsureNoNul([], p, 0);
        assert p[0..] == p && [] + p == p;
      }
    }
  }

  lemma EnsureCwd(a: seq<byte>, b: seq<byte>)
    requires a != [] && a[0] == SLASH
    ensures IsCwd(EnsureSlash(a + b))
  {
  }

  lemma ConvertIsCwd(cwd: seq<byte>, path: Option<seq<byte>>)
    requires IsCwd(cwd)
    ensures IsCwd(Convert(cwd, path))
  {
    if path.Some? {
      var p := path.value;
      if CharAt(p, 0) == DOT == CharAt(p, 1) {
        ParentIsCwd(cwd);
        EnsureCwd(ParentPath(cwd), p[if CharAt(p, 2) == SLASH then 3 else 2..]);
      } else if CharAt(p, 0) == DOT {
        EnsureCwd(cwd, p[if CharAt(p, 1) == SLASH then 2 else 1..]);
      } else if CharAt(p, 0) != SLASH {
        EnsureCwd(cwd, p);
      } else {
        EnsureCwd(p, []);
        assert p + [] == p;
      }
    }
  }

  lemma EnsureSlashTokens(s: seq<byte>)
    ensures Tokens(EnsureSlash(s)) == Tokens(s)
  {
    TokensSplit(s, []);
    assert s + [SLASH] + [] == s + [SLASH];
  }

  lemma AppendTokens(cwd: seq<byte>, rest: seq<byte>)
    requires IsCwd(cwd)
    ensures Tokens(EnsureSlash(cwd + rest)) == Tokens(cwd) + Tokens(rest)
  {
    var a := cwd[..|cwd| - 1];
    assert cwd == a + [SLASH] && cwd == a + [SLASH] + [];
    TokensSplit(a, rest);
    TokensSplit(a, []);
    EnsureSlashTokens(cwd + rest);
    assert cwd + rest == a + [SLASH] + rest;
  }

  /**
   * Meaning of the four forms on token lists: an absolute path replaces, a relative one
   * appends, "." keeps and ".." takes the parent's tokens before appending the rest.
   */
  lemma ConvertTokens(cwd: seq<byte>, p: seq<byte>)
    requires IsCwd(cwd)
    ensures Convert(cwd, None) == cwd
    ensures CharAt(p, 0) == SLASH ==> Tokens(Convert(cwd, Some(p))) == Tokens(p)
    ensures CharAt(p, 0) != SLASH && CharAt(p, 0) != DOT ==>
              Tokens(Convert(cwd, Some(p))) == Tokens(cwd) + Tokens(p)
    ensures CharAt(p, 0) == DOT && CharAt(p, 1) != DOT ==>
              Tokens(Convert(cwd, Some(p))) == Tokens(cwd) + Tokens(p[1..])
    ensures CharAt(p, 0) == DOT == CharAt(p, 1) ==>
              Tokens(Convert(cwd, Some(p))) == Tokens(ParentPath(cwd)) + Tokens(p[2..])
  {
    EnsureSlashTokens(p);
    if CharAt(p, 0) == DOT && CharAt(p, 1) == DOT {
      ParentIsCwd(cwd);
      var seek := if CharAt(p, 2) == SLASH then 3 else 2;
      AppendTokens(ParentPath(cwd), p[seek..]);
      if seek == 3 { assert p[2..][1..] == p[3..]; }
    } else if CharAt(p, 0) == DOT {
      var seek := if CharAt(p, 1) == SLASH then 2 else 1;
      AppendTokens(cwd, p[seek..]);
      if seek == 2 { assert p[1..][1..] == p[2..]; }
    } else {
      AppendTokens(cwd, p);
    }
  }

  /** Entering one component and then ".." restores the path string, whatever the current path is. */
  lemma DownAndUp(cwd: seq<byte>, x: Token)
    requires IsCwd(cwd) && IsToken(x) && x[0] != DOT
    ensures Convert(Convert(cwd, Some(x)), Some([DOT, DOT])) == cwd
  {
    var down := Convert(cwd, Some(x));
    assert x[|x| - 1] in x;
    assert down == cwd + x + [SLASH];
    var s := StripSlash(down);
    assert s == cwd + x;
    LastSlashIs(s, |cwd| - 1);
    assert s[..|cwd| - 1] == cwd[..|cwd| - 1];
    assert ParentPath(down) == cwd;
    assert [DOT, DOT][2..] == [];
    assert cwd + [] == cwd;
  }

  /** ".." on a canonical path drops the last token; the root stays. */
  lemma UpFromCanonical(ts: seq<Token>)
    requires AreTokens(ts)
    ensures Convert(Render(ts), Some([DOT, DOT])) == Render(if ts == [] then [] else ts[..|ts| - 1])
  {
    assert [DOT, DOT][2..] == [];
    if ts != [] {
      var init, x := ts[..|ts| - 1], ts[|ts| - 1];
      assert ts == init + [x];
      ParentOfRender(init, x);
      assert ParentPath(Render(ts)) + [] == Render(init);
    }
  }

  // ----- the same path with its last name masked -----

  /** What `address_convertor` puts before the last name of `head` + name; `head` ends in a slash or is empty. */
  function Before(cwd: seq<byte>, head: seq<byte>): seq<byte> {
    if CharAt(head, 0) == DOT && CharAt(head, 1) == DOT then
      ParentPath(cwd) + head[if CharAt(head, 2) == SLASH then 3 else 2..]
    else if CharAt(head, 0) == DOT then cwd + head[if CharAt(head, 1) == SLASH then 2 else 1..]
    else if CharAt(head, 0) != SLASH then cwd + head
    else head
  }

  lemma ConvertHead(cwd: seq<byte>, head: seq<byte>, z: seq<byte>)
    requires EndsWithSlash(head)
    ensures Convert(cwd, Some(head + z)) == EnsureSlash(Before(cwd, head) + z)
  {
    var p := head + z;
    assert CharAt(p, 0) == CharAt(head, 0);
    if CharAt(head, 0) == DOT {
      assert CharAt(p, 1) == CharAt(head, 1);
      if CharAt(head, 1) == DOT {
        assert CharAt(p, 2) == CharAt(head, 2);
        var seek := if CharAt(head, 2) == SLASH then 3 else 2;
        assert p[seek..] == head[seek..] + z;
        assert ParentPath(cwd) + (head[seek..] + z) == ParentPath(cwd) + head[seek..] + z;
      } else {
        var seek := if CharAt(head, 1) == SLASH then 2 else 1;
        assert p[seek..] == head[seek..] + z;
        assert cwd + (head[seek..] + z) == cwd + head[seek..] + z;
      }
    } else {
      assert cwd + (head + z) == cwd + head + z;
    }
  }

  lemma TailSlash(a: seq<byte>, head: seq<byte>, k: nat)
    requires EndsWithSlash(a) && (EndsWithSlash(head) || head == []) && k <= |head|
    ensures EndsWithSlash(a + head[k..])
  {
  }

  lemma BeforeEndsWithSlash(cwd: seq<byte>, head: seq<byte>)
    requires IsCwd(cwd) && (EndsWithSlash(head) || head == [])
    ensures EndsWithSlash(Before(cwd, head))
  {
    if CharAt(head, 0) == DOT == CharAt(head, 1) {
      ParentIsCwd(cwd);
      TailSlash(ParentPath(cwd), head, if CharAt(head, 2) == SLASH then 3 else 2);
    } else if CharAt(head, 0) == DOT {
      TailSlash(cwd, head, if CharAt(head, 1) == SLASH then 2 else 1);
    } else if CharAt(head, 0) != SLASH {
      TailSlash(cwd, head, 0);
    }
  }

  /** Paths whose last name `fix_deleted_char` masks properly. */
  predicate Maskable(d: seq<byte>) {
    var s := StripSlash(d);
    s != [] && !EndsWithSlash(s) && !RootedSingle(d) && (SLASH !in s ==> s[0] != DOT)
  }

  lemma ConvertUnder(cwd: seq<byte>, a: seq<byte>, z: Token)
    requires IsToken(z)
    ensures Convert(cwd, Some(a + [SLASH] + z)) == Before(cwd, a + [SLASH]) + z + [SLASH]
    ensures Convert(cwd, Some(a + [SLASH] + z + [SLASH])) == Before(cwd, a + [SLASH]) + z + [SLASH]
  {
    var head := a + [SLASH];
    assert z[|z| - 1] in z;
    ConvertHead(cwd, head, z);
    ConvertHead(cwd, head, z + [SLASH]);
    assert head + z + [SLASH] == head + (z + [SLASH]);
    assert Before(cwd, head) + (z + [SLASH]) == Before(cwd, head) + z + [SLASH];
  }

  lemma ConvertPlain(cwd: seq<byte>, z: Token)
    requires IsToken(z) && z[0] != DOT
    ensures Convert(cwd, Some(z)) == cwd + z + [SLASH]
    ensures Convert(cwd, Some(z + [SLASH])) == cwd + z + [SLASH]
  {
    assert z[0] in z && z[|z| - 1] in z;
    assert cwd + (z + [SLASH]) == cwd + z + [SLASH];
  }

  lemma MaskedToken(x: Token)
    requires IsToken(x)
    ensures IsToken(WithFirst(x, QUESTION)) && WithFirst(x, QUESTION)[0] == QUESTION
  {
  }

  /** Converting such a path, and its masked form: the same directory, then the name, or the name masked. */
  lemma ConvertMasked(cwd: seq<byte>, d: seq<byte>) returns (b: seq<byte>, x: Token)
    requires IsCwd(cwd) && Maskable(d)
    ensures IsToken(x) && EndsWithSlash(b) && FixedChar(d) == x[0]
    ensures Convert(cwd, Some(d)) == b + x + [SLASH]
    ensures Convert(cwd, Some(FixedPath(d))) == b + WithFirst(x, QUESTION) + [SLASH]
  {
    var s := StripSlash(d);
    var a;
    a, x := CutAtLastSlash(d);
    MaskedToken(x);
    assert d == s || d == s + [SLASH];
    if SLASH in s {
      SlashInside(d, a, x);
      b := Before(cwd, a + [SLASH]);
      BeforeEndsWithSlash(cwd, a + [SLASH]);
      ConvertUnder(cwd, a, x);
      ConvertUnder(cwd, a, WithFirst(x, QUESTION));
    } else {
      assert LastSlash(s, |s|) == 0;
      b := cwd;
      ConvertPlain(cwd, x);
      ConvertPlain(cwd, WithFirst(x, QUESTION));
    }
  }

  lemma SlashInside(d: seq<byte>, a: seq<byte>, x: Token)
    requires StripSlash(d) == a + [SLASH] + x && IsToken(x) && !RootedSingle(d)
    ensures FixedPath(d) == a + [SLASH] + WithFirst(x, QUESTION) && FixedChar(d) == x[0]
  {
    if a != [] {
      FixCut(StripSlash(d), a, x);
    }
  }

  /** A dot with a name right behind it, and a slash inside. */
  predicate HiddenDir(d: seq<byte>) {
    |d| >= 2 && d[0] == DOT && d[1] !in {DOT, SLASH} && SLASH in StripSlash(d)
  }

  /** The masked form of a typed path does not fit its block exactly then. */
  lemma FixedHiddenIff(d: seq<byte>)
    ensures Hidden(FixedPath(d)) <==> HiddenDir(d)
  {
    var s, k := StripSlash(d), FixAt(d);
    if SLASH !in s {
      assert LastSlash(s, |s|) == 0;
    }
  }

  /** The masked form of a typed path stands for the same directory and the masked name. */
  predicate MasksTyped(cwd: seq<byte>, d: seq<byte>)
    requires Tokens(Convert(cwd, Some(d))) != []
  {
    MasksTokens(Tokens(Convert(cwd, Some(d))), Tokens(Convert(cwd, Some(FixedPath(d)))), FixedChar(d))
  }

  /** `fs` is `ts` with the first character `c` of the last name masked. */
  predicate MasksTokens(ts: seq<Token>, fs: seq<Token>, c: byte)
    requires ts != []
  {
    var init, x := ts[..|ts| - 1], ts[|ts| - 1];
    x != [] && c == x[0] && fs == init + [WithFirst(x, QUESTION)]
  }

  lemma NotMaskedLonger(ts: seq<Token>, fs: seq<Token>, c: byte)
    requires ts != [] && |fs| > |ts|
    ensures !MasksTokens(ts, fs, c)
  {
  }

  lemma NotMasked(ts: seq<Token>, fs: seq<Token>, c: byte, a: seq<Token>, y: Token, b: seq<Token>, f: Token)
    requires ts == a + [y] && fs == b + [f] && |y| < |f|
    ensures !MasksTokens(ts, fs, c)
  {
    assert ts[|ts| - 1] == y && fs[|fs| - 1] == f;
  }

  lemma MaskableMasks(cwd: seq<byte>, d: seq<byte>)
    requires IsCwd(cwd) && Maskable(d)
    ensures Tokens(Convert(cwd, Some(d))) != [] && MasksTyped(cwd, d)
  {
    var b, x := ConvertMasked(cwd, d);
    TokensUnder(b, x);
    MaskedToken(x);
    TokensUnder(b, WithFirst(x, QUESTION));
    assert (Tokens(b) + [x])[..|Tokens(b)|] == Tokens(b);
  }

  /** That is so exactly for the paths that are `Maskable`. */
  lemma MaskedIff(cwd: seq<byte>, d: seq<byte>)
    requires IsCwd(cwd) && d != [] && Tokens(Convert(cwd, Some(d))) != []
    ensures MasksTyped(cwd, d) <==> Maskable(d)
  {
    var s := StripSlash(d);
    ConvertTokens(cwd, d);
    StripTokens(d);
    if Maskable(d) {
      MaskableMasks(cwd, d);
    } else if s == [] {
    } else if EndsWithSlash(s) {
      NoTokensNoName(d);
      UnmaskedDoubled(cwd, d);
    } else if RootedSingle(d) {
      FixMasksName(d);
      var a, x := CutAtLastSlash(d);
      assert x[0] in x;
    } else {
      UnmaskedDots(cwd, d);
    }
  }

  /** Leading dots that `address_convertor` interprets. */
  function Dots(p: seq<byte>): (k: nat)
    ensures k <= |p|
  {
    if CharAt(p, 0) != DOT then 0 else if CharAt(p, 1) != DOT then 1 else 2
  }

  function Base(cwd: seq<byte>, p: seq<byte>): seq<byte> {
    if CharAt(p, 0) == SLASH then [] else if Dots(p) == 2 then ParentPath(cwd) else cwd
  }

  lemma TypedForm(cwd: seq<byte>, p: seq<byte>)
    requires IsCwd(cwd)
    ensures Tokens(Convert(cwd, Some(p))) == Tokens(Base(cwd, p)) + Tokens(p[Dots(p)..])
  {
    ConvertTokens(cwd, p);
    assert p[0..] == p;
  }

  /** Two slashes at the end: the masked form has one component more. */
  lemma UnmaskedDoubled(cwd: seq<byte>, d: seq<byte>)
    requires IsCwd(cwd) && EndsWithSlash(StripSlash(d)) && Tokens(d) != []
    ensures |Tokens(Convert(cwd, Some(FixedPath(d))))| == |Tokens(Convert(cwd, Some(d)))| + 1
  {
    var s := StripSlash(d);
    FixAppends(d);
    NotOnlySlash(d);
    SameForm(cwd, d, s);
    OneMore(d, s, Dots(d));
    TypedForm(cwd, d);
    TypedForm(cwd, s + [QUESTION]);
  }

  lemma SameForm(cwd: seq<byte>, d: seq<byte>, s: seq<byte>)
    requires EndsWithSlash(s) && |s| >= 2 && (d == s || d == s + [SLASH])
    ensures Dots(s + [QUESTION]) == Dots(d) < |s| && Base(cwd, s + [QUESTION]) == Base(cwd, d)
  {
    var f := s + [QUESTION];
    assert CharAt(f, 0) == CharAt(d, 0) == s[0] && CharAt(f, 1) == CharAt(d, 1) == s[1];
  }

  lemma OneMore(d: seq<byte>, s: seq<byte>, k: nat)
    requires EndsWithSlash(s) && k < |s| && (d == s || d == s + [SLASH])
    ensures Tokens((s + [QUESTION])[k..]) == Tokens(d[k..]) + [[QUESTION]]
  {
    var a := s[k..|s| - 1];
    assert s[k..] == a + [SLASH] && a + [SLASH] + [] == a + [SLASH];
    assert (s + [QUESTION])[k..] == a + [SLASH] + [QUESTION];
    assert d[k..] == a + [SLASH] || d[k..] == a + [SLASH] + [SLASH];
    TokensSplit(a, []);
    TokensSplit(a, [SLASH]);
    TokensSplit(a, [QUESTION]);
    TokensOfSlash();
    TokensOfToken([QUESTION]);
  }

  /** A name without slashes that starts with a dot: the dot is masked, and no longer interpreted. */
  lemma UnmaskedDots(cwd: seq<byte>, d: seq<byte>)
    requires IsCwd(cwd) && StripSlash(d) != [] && SLASH !in StripSlash(d) && StripSlash(d)[0] == DOT
    requires Tokens(Convert(cwd, Some(d))) != []
    ensures !MasksTyped(cwd, d)
  {
    if |StripSlash(d)| > Dots(d) {
      UnmaskedDotName(cwd, d);
    } else {
      UnmaskedDotsOnly(cwd, d);
    }
  }

  lemma UnmaskedBy(cwd: seq<byte>, d: seq<byte>, a: seq<Token>, y: Token, b: seq<Token>, f: Token)
    requires Tokens(Convert(cwd, Some(d))) == a + [y] && Tokens(Convert(cwd, Some(FixedPath(d)))) == b + [f]
    requires |y| < |f|
    ensures !MasksTyped(cwd, d)
  {
    NotMasked(Tokens(Convert(cwd, Some(d))), Tokens(Convert(cwd, Some(FixedPath(d)))), FixedChar(d), a, y, b, f);
  }

  lemma UnmaskedDotName(cwd: seq<byte>, d: seq<byte>)
    requires IsCwd(cwd) && StripSlash(d) != [] && SLASH !in StripSlash(d) && StripSlash(d)[0] == DOT
    requires Tokens(Convert(cwd, Some(d))) != []
    requires |StripSlash(d)| > Dots(d)
    ensures !MasksTyped(cwd, d)
  {
    var a, y := DotNameTokens(cwd, d);
    DotMasked(cwd, d);
    UnmaskedBy(cwd, d, a, y, Tokens(cwd), StripSlash(d)[0 := QUESTION]);
  }

  lemma DotNameTokens(cwd: seq<byte>, d: seq<byte>) returns (a: seq<Token>, y: Token)
    requires IsCwd(cwd) && SLASH !in StripSlash(d) && CharAt(d, 0) == DOT && |StripSlash(d)| > Dots(d)
    ensures Tokens(Convert(cwd, Some(d))) == a + [y] && |y| < |StripSlash(d)|
  {
    a, y := Tokens(Base(cwd, d)), StripSlash(d)[Dots(d)..];
    DotName(d, Dots(d), y);
    TypedForm(cwd, d);
  }

  lemma UnmaskedDotsOnly(cwd: seq<byte>, d: seq<byte>)
    requires IsCwd(cwd) && StripSlash(d) != [] && SLASH !in StripSlash(d) && StripSlash(d)[0] == DOT
    requires Tokens(Convert(cwd, Some(d))) != []
    requires |StripSlash(d)| <= Dots(d)
    ensures !MasksTyped(cwd, d)
  {
    DotMasked(cwd, d);
    TypedForm(cwd, d);
    DotsOnly(cwd, d);
    NotMaskedLonger(Tokens(Convert(cwd, Some(d))), Tokens(Convert(cwd, Some(FixedPath(d)))), FixedChar(d));
  }

  lemma DotMasked(cwd: seq<byte>, d: seq<byte>)
    requires IsCwd(cwd) && StripSlash(d) != [] && SLASH !in StripSlash(d) && StripSlash(d)[0] == DOT
    ensures Tokens(Convert(cwd, Some(FixedPath(d)))) == Tokens(cwd) + [StripSlash(d)[0 := QUESTION]]
  {
    var s := StripSlash(d);
    var f := s[0 := QUESTION];
    assert LastSlash(s, |s|) == 0;
    TokensOfToken(f);
    ConvertTokens(cwd, f);
  }

  lemma DotsOnly(cwd: seq<byte>, d: seq<byte>)
    requires IsCwd(cwd) && CharAt(d, 0) == DOT && |StripSlash(d)| <= Dots(d)
    ensures Tokens(d[Dots(d)..]) == [] && |Tokens(Base(cwd, d))| <= |Tokens(cwd)|
  {
    assert d[Dots(d)..] == [] || d[Dots(d)..] == [SLASH];
    TokensOfSlash();
    ParentShorter(cwd);
  }

  lemma DotName(d: seq<byte>, k: nat, y: Token)
    requires SLASH !in StripSlash(d) && k < |StripSlash(d)| && y == StripSlash(d)[k..]
    ensures Tokens(d[k..]) == [y]
  {
    assert d[k..] == y || d[k..] == y + [SLASH];
    TokensOfToken(y);
    TokensSplit(y, []);
    assert y + [SLASH] + [] == y + [SLASH];
  }

  lemma ParentShorter(cwd: seq<byte>)
    requires IsCwd(cwd)
    ensures |Tokens(ParentPath(cwd))| <= |Tokens(cwd)|
  {
    if Tokens(cwd) != [] {
      ParentTokens(cwd);
    } else {
      ParentBlank(cwd);
    }
  }

  lemma ParentBlank(cwd: seq<byte>)
    requires Tokens(cwd) == []
    ensures Tokens(ParentPath(cwd)) == []
  {
    NoTokensNoName(cwd);
    NoTokensNoName(ParentPath(cwd));
  }

  /** What `fix_deleted_char` returns: a directory part, and a name that starts with '?'. */
  lemma FixedForm(d: seq<byte>) returns (h: seq<byte>, z: Token)
    ensures FixedPath(d) == h + z && IsToken(z) && z[0] == QUESTION && (h == [] || EndsWithSlash(h))
  {
    var s, k := StripSlash(d), FixAt(d);
    h := s[..k];
    if k < |s| {
      z := s[k := QUESTION][k..];
      assert forall i :: k < i < |s| ==> s[i] != SLASH;
    } else {
      z := [QUESTION];
      assert h == s;
    }
  }

  /** So the path that undelete looks up ends in such a name, and in one slash. */
  lemma MaskedPath(cwd: seq<byte>, d: seq<byte>) returns (z: Token)
    requires IsCwd(cwd)
    ensures var p := Convert(cwd, Some(FixedPath(d)));
            && Tokens(p) != [] && Tokens(p)[|Tokens(p)| - 1] == z && z != [] && z[0] == QUESTION
            && EndsWithSlash(p) && !EndsWithTwoSlashes(p)
  {
    var h;
    h, z := FixedForm(d);
    assert z[|z| - 1] in z;
    var b := cwd;
    if h == [] {
      assert h + z == z;
      ConvertPlain(cwd, z);
    } else {
      b := Before(cwd, h);
      BeforeEndsWithSlash(cwd, h);
      ConvertHead(cwd, h, z);
    }
    assert Convert(cwd, Some(FixedPath(d))) == b + z + [SLASH];
    TokensUnder(b, z);
  }
}
