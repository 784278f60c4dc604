/**
 * What a successful lookup says about the directories on the way, on any volume: the parent
 * that `delete` looks up a second time (src/user.c), and `cd` down and up again.
 */
module Lookups {
  import opened Bytes
  import opened Records
  import opened Paths
  import opened Volumes

  /** The path stands for the name `x` in the directory `init`, and so does its parent path for `init`. */
  predicate Names(path: seq<byte>, init: seq<Token>, x: Token) {
    && path != [] && Tokens(path) == init + [x]
    && (if init == [] then ParentPath(path) == [SLASH] else Tokens(ParentPath(path)) == init)
  }

  /** No two slashes at the end, and nothing but "/" before a single name. */
  predicate ParentSafe(path: seq<byte>) {
    !EndsWithTwoSlashes(path) && (|Tokens(path)| == 1 ==> ParentPath(path) == [SLASH])
  }

  /** `get_parent_path` gives the directory's path exactly for those paths. */
  lemma NamesIff(path: seq<byte>)
    requires EndsWithSlash(path) && Tokens(path) != []
    ensures var ts := Tokens(path);
            Names(path, ts[..|ts| - 1], ts[|ts| - 1]) <==> ParentSafe(path)
  {
    var ts := Tokens(path);
    ParentTokens(path);
    TokensOfSlash();
    assert ts == ts[..|ts| - 1] + [ts[|ts| - 1]];
  }

  /** In particular for canonical paths. */
  lemma RenderNames(init: seq<Token>, x: Token)
    requires AreTokens(init) && IsToken(x)
    ensures Names(Render(init + [x]), init, x) && IsCwd(Render(init + [x]))
  {
    TokensRender(init);
    TokensRender(init + [x]);
    ParentOfRender(init, x);
  }

  /** A file found in directory buffers: its last directory is found, readable, and lists its record. */
  lemma FoundInside(v: Vol, ts: seq<Token>, x: Token)
    requires ts != [] && Resolve(v, v.root, ts + [x]).Found?
    ensures Resolve(v, v.root, ts).Found?
    ensures var p, e := Resolve(v, v.root, ts).rec, Resolve(v, v.root, ts + [x]).rec;
            && IsDirectory(p) && Readable(v, First(v, p)) && First(v, p) != 0
            && Lists(Content(v, First(v, p)), e)
  {
    ResolveSplit(v, v.root, ts, x);
    var p := Resolve(v, v.root, ts).rec;
    var buf := Content(v, First(v, p));
    FoundHere(v, buf, x);
  }

  lemma FoundHere(v: Vol, buf: seq<byte>, x: Token)
    requires Resolve(v, buf, [x]).Found?
    ensures Lists(buf, Resolve(v, buf, [x]).rec)
  {
    assert Rec(buf, Search(buf, x).value) == Resolve(v, buf, [x]).rec;
  }

  /**
   * The second lookup of the parent succeeds: the root, or a directory that can be read, and its
   * buffer holds a record byte-equal to the file's, so the marking loop has one to mark.
   */
  ghost predicate ParentLists(v: Vol, path: seq<byte>)
    requires Tokens(path) != [] && Find(v, path).Found?
  {
    && ParentKnown(v, ParentPath(path))
    && var p := FindParent(v, ParentPath(path));
    && !p.NoParent?
    && (p.SubDir? ==> IsDirectory(p.dir) && Readable(v, First(v, p.dir)))
    && Lists(Folder(v, p), Find(v, path).rec)
  }

  /** A directory that lists a record byte-equal to its own. */
  ghost predicate ListsItself(v: Vol, e: Record) {
    IsDirectory(e) && First(v, e) != 0 && Readable(v, First(v, e)) && Lists(Content(v, First(v, e)), e)
  }

  lemma ParentOfNamed(v: Vol, path: seq<byte>, init: seq<Token>, x: Token)
    requires Names(path, init, x) && Find(v, path).Found?
    ensures ParentLists(v, path)
  {
    if init == [] {
      assert [] + [x] == [x];
      FoundHere(v, v.root, x);
    } else {
      TokensOfSlash();
      FoundInside(v, init, x);
    }
  }

  /** With two slashes at the end the "parent" is the file itself. */
  lemma ParentOfDoubledPath(v: Vol, path: seq<byte>)
    requires EndsWithTwoSlashes(path) && Tokens(path) != []
    ensures ParentPath(path) != [SLASH] && Tokens(ParentPath(path)) == Tokens(path)
    ensures Find(v, ParentPath(path)) == Find(v, path)
  {
    ParentOfDoubled(path);
    TokensOfSlash();
  }

  /**
   * Of a path that is found, on any volume, the parent is found and lists the record exactly when
   * the path is safe, or when it ends in two slashes and the record lists itself, like a ".".
   */
  lemma ParentOfFoundIff(v: Vol, path: seq<byte>)
    requires EndsWithSlash(path) && Tokens(path) != [] && Find(v, path).Found?
    ensures ParentLists(v, path) <==>
            ParentSafe(path) || (EndsWithTwoSlashes(path) && ListsItself(v, Find(v, path).rec))
  {
    var ts := Tokens(path);
    if ParentSafe(path) {
      NamesIff(path);
      ParentOfNamed(v, path, ts[..|ts| - 1], ts[|ts| - 1]);
    } else if EndsWithTwoSlashes(path) {
      ParentOfDoubledPath(v, path);
    } else {
      ParentTokens(path);
    }
  }

  /** `cd x` either fails and keeps the current path, or `cd ..` afterwards restores it. */
  lemma CdDownAndUp(v: Vol, cwd: seq<byte>, x: Token)
    requires IsCwd(cwd) && Named(cwd) && IsToken(x) && x[0] != DOT
    ensures Named(Convert(cwd, Some(x)))
    ensures var down := NextPath(v, cwd, Some(x));
            || down == cwd
            || (down == cwd + x + [SLASH]
                && Named(Convert(down, Some([DOT, DOT]))) && NextPath(v, down, Some([DOT, DOT])) == cwd)
  {
    ConvertPlain(cwd, x);
    DownAndUp(cwd, x);
    TokensUnder(cwd, x);
    assert |cwd + x + [SLASH]| > |cwd|;
    if cwd != [SLASH] && NextPath(v, cwd, Some(x)) == cwd + x + [SLASH] {
      FoundInside(v, Tokens(cwd), x);
    }
  }
}
