/**
 * Cluster chains of an abstract table: the walk every loop of the tool makes
 * (`while (cluster) { ...; cluster = next_cluster(cluster); }`), when it ends, and what the
 * table looks like after delete has zeroed the links it followed.
 */
module Chains {
  import opened FatCells

  // ----- walks -----

  /** `s` is the sequence of clusters visited from `c` until link 0, all inside the table. */
  ghost predicate IsWalk(t: seq<Cell>, c: nat, s: seq<nat>)
    decreases |s|
  {
    if c == 0 then s == []
    else s != [] && s[0] == c && c < |t| && IsWalk(t, Next(t, c), s[1..])
  }

  /** The walk from `c` stays inside the table and comes to an end. */
  ghost predicate Walkable(t: seq<Cell>, c: nat) {
    exists s :: IsWalk(t, c, s)
  }

  ghost function Walk(t: seq<Cell>, c: nat): (s: seq<nat>)
    requires Walkable(t, c)
    ensures IsWalk(t, c, s)
  {
    var s :| IsWalk(t, c, s);
    s
  }

  lemma {:induction false} WalkUnique(t: seq<Cell>, c: nat, s: seq<nat>, s': seq<nat>)
    requires IsWalk(t, c, s) && IsWalk(t, c, s')
    ensures s == s'
    decreases |s|
  {
    if c != 0 {
      WalkUnique(t, Next(t, c), s[1..], s'[1..]);
      assert s == [c] + s[1..] && s' == [c] + s'[1..];
    }
  }

  lemma WalkIs(t: seq<Cell>, c: nat, s: seq<nat>)
    requires IsWalk(t, c, s)
    ensures Walkable(t, c) && Walk(t, c) == s
  {
    WalkUnique(t, c, s, Walk(t, c));
  }

  /** Unfolding one step of the walk. */
  lemma WalkStep(t: seq<Cell>, c: nat)
    requires Walkable(t, c) && c != 0
    ensures c < |t| && Walkable(t, Next(t, c))
    ensures Walk(t, c) == [c] + Walk(t, Next(t, c))
  {
    var s := Walk(t, c);
    WalkIs(t, Next(t, c), s[1..]);
    assert s == [c] + s[1..];
  }

  /** A loop over a chain has visited `seen` of `all` and stands at `c`, with `rest` to go. */
  ghost predicate Visiting(t: seq<Cell>, c: nat, seen: seq<nat>, rest: seq<nat>, all: seq<nat>) {
    IsWalk(t, c, rest) && seen + rest == all
  }

  lemma VisitStep(t: seq<Cell>, c: nat, seen: seq<nat>, rest: seq<nat>, all: seq<nat>)
    requires Visiting(t, c, seen, rest, all) && c != 0
    ensures c < |t| && rest != [] && Visiting(t, Next(t, c), seen + [c], rest[1..], all)
  {
    assert rest == [c] + rest[1..];
  }

  /** Only the cells on the walk matter. */
  lemma {:induction false} WalkFrame(t: seq<Cell>, t': seq<Cell>, c: nat, s: seq<nat>)
    requires IsWalk(t, c, s) && |t'| == |t|
    requires forall x :: x in s && x < |t| ==> Next(t', x) == Next(t, x)
    ensures IsWalk(t', c, s)
    decreases |s|
  {
    if c != 0 {
      assert s[0] in s;
      WalkFrame(t, t', Next(t, c), s[1..]);
    }
  }

  /** Cutting links shortens a walk. */
  lemma {:induction false} WalkCut(t: seq<Cell>, t': seq<Cell>, c: nat, s: seq<nat>)
    requires IsWalk(t, c, s) && |t'| == |t|
    requires forall x :: x in s && x < |t| ==> Next(t', x) == Next(t, x) || Next(t', x) == 0
    ensures Walkable(t', c) && Walk(t', c) <= s
    decreases |s|
  {
    if c == 0 {
      WalkIs(t', c, []);
    } else {
      assert s[0] in s && s == [c] + s[1..];
      var n := Next(t', c);
      if n == 0 {
        WalkIs(t', n, []);
      } else {
        WalkCut(t, t', n, s[1..]);
      }
      var cut := [c] + Walk(t', n);
      assert cut[1..] == Walk(t', n);
      WalkIs(t', c, cut);
    }
  }

  // ----- iterates, and when the walk ends -----

  /** The cluster reached after `k` links; a walk that has ended or left the table stays put. */
  ghost function At(t: seq<Cell>, c: nat, k: nat): nat {
    if k == 0 then c
    else var p := At(t, c, k - 1); if 0 < p < |t| then Next(t, p) else p
  }

  ghost predicate InRange(t: seq<Cell>, c: nat) {
    forall k: nat :: At(t, c, k) < |t|
  }

  /** No cluster other than 0 is visited twice. */
  ghost predicate NoRepeat(t: seq<Cell>, c: nat) {
    forall i: nat, j: nat :: i < j && At(t, c, i) != 0 ==> At(t, c, i) != At(t, c, j)
  }

  lemma {:induction false} AtShift(t: seq<Cell>, c: nat, k: nat)
    requires 0 < c < |t|
    ensures At(t, c, k + 1) == At(t, Next(t, c), k)
  {
    if k != 0 {
      AtShift(t, c, k - 1);
    }
  }

  /** The walk lists the iterates. */
  lemma {:induction false} WalkAt(t: seq<Cell>, c: nat, s: seq<nat>, k: nat)
    requires IsWalk(t, c, s)
    ensures At(t, c, k) == if k < |s| then s[k] else 0
    ensures k < |s| ==> 0 < s[k] < |t|
    decreases |s|, k
  {
    if c == 0 {
      if k != 0 {
        WalkAt(t, c, s, k - 1);
      }
    } else if k != 0 {
      AtShift(t, c, k - 1);
      WalkAt(t, Next(t, c), s[1..], k - 1);
    }
  }

  /** Once the iterate is 0, the walk exists. */
  lemma {:induction false} WalkFromEnd(t: seq<Cell>, c: nat, k: nat)
    requires InRange(t, c) && At(t, c, k) == 0
    ensures Walkable(t, c)
    decreases k
  {
    assert At(t, c, 0) == c;
    if c == 0 {
      WalkIs(t, c, []);
    } else {
      forall j: nat
        ensures At(t, Next(t, c), j) < |t|
      {
        AtShift(t, c, j);
      }
      AtShift(t, c, k - 1);
      WalkFromEnd(t, Next(t, c), k - 1);
      var s := [c] + Walk(t, Next(t, c));
      assert s[1..] == Walk(t, Next(t, c));
      WalkIs(t, c, s);
    }
  }

  /** A repeated cluster repeats for ever, so the loop never sees 0. */
  lemma {:induction false} RepeatForever(t: seq<Cell>, c: nat, i: nat, j: nat, k: nat)
    requires InRange(t, c) && i < j && At(t, c, i) == At(t, c, j) != 0
    ensures At(t, c, k) != 0
  {
    if At(t, c, k) == 0 {
      WalkFromEnd(t, c, k);
      var s := Walk(t, c);
      WalkAt(t, c, s, i);
      WalkAt(t, c, s, j);
      NoCycleInWalk(t, c, s, i, j);
    }
  }

  /** Two positions of a finite walk hold different clusters: otherwise both tails would be equal. */
  lemma NoCycleInWalk(t: seq<Cell>, c: nat, s: seq<nat>, i: nat, j: nat)
    requires IsWalk(t, c, s) && i < j < |s|
    ensures s[i] != s[j]
  {
    if s[i] == s[j] {
      TailIsWalk(t, c, s, i);
      TailIsWalk(t, c, s, j);
      WalkUnique(t, s[i], s[i..], s[j..]);
    }
  }

  lemma {:induction false} TailIsWalk(t: seq<Cell>, c: nat, s: seq<nat>, i: nat)
    requires IsWalk(t, c, s) && i < |s|
    ensures IsWalk(t, s[i], s[i..])
    decreases i
  {
    if i == 0 {
      assert s[0..] == s;
    } else {
      TailIsWalk(t, Next(t, c), s[1..], i - 1);
      assert s[1..][i - 1..] == s[i..];
    }
  }

  /** Distinct numbers below `n` number at most `n`. */
  lemma {:induction false} Pigeonhole(s: seq<nat>, n: nat)
    requires forall i :: 0 <= i < |s| ==> s[i] < n
    requires forall i, j :: 0 <= i < j < |s| ==> s[i] != s[j]
    ensures |s| <= n
  {
    if s != [] {
      assert s[0] < n;
      if n - 1 in s {
        var k :| 0 <= k < |s| && s[k] == n - 1;
        Pigeonhole(s[..k] + s[k + 1..], n - 1);
      } else {
        Pigeonhole(s, n - 1);
      }
    }
  }

  /** The clusters of a walk are distinct, in the table, and fewer than its entries. */
  lemma WalkDistinct(t: seq<Cell>, c: nat, s: seq<nat>)
    requires IsWalk(t, c, s)
    ensures forall i, j :: 0 <= i < j < |s| ==> s[i] != s[j]
    ensures forall x :: x in s ==> 0 < x < |t|
    ensures s != [] ==> |s| < |t|
  {
    forall i, j | 0 <= i < j < |s|
      ensures s[i] != s[j]
    {
      NoCycleInWalk(t, c, s, i, j);
    }
    forall x | x in s
      ensures 0 < x < |t|
    {
      var k :| 0 <= k < |s| && s[k] == x;
      WalkAt(t, c, s, k);
    }
    if s != [] {
      var r := s + [0];
      forall i | 0 <= i < |s|
        ensures 0 < r[i] < |t|
      {
        assert s[i] in s;
      }
      Pigeonhole(r, |t|);
    }
  }

  /**
   * When links stay inside the table, the walk ends if and only if no cluster repeats, and
   * then it visits fewer clusters than the table has entries.
   */
  lemma EndsIffNoRepeat(t: seq<Cell>, c: nat)
    requires InRange(t, c)
    ensures Walkable(t, c) <==> NoRepeat(t, c)
    ensures Walkable(t, c) <==> exists k: nat :: At(t, c, k) == 0
    ensures Walkable(t, c) && c != 0 ==> |Walk(t, c)| < |t|
  {
    if Walkable(t, c) {
      var s := Walk(t, c);
      WalkDistinct(t, c, s);
      WalkAt(t, c, s, |s|);
      forall i: nat, j: nat | i < j && At(t, c, i) != 0
        ensures At(t, c, i) != At(t, c, j)
      {
        if At(t, c, i) == At(t, c, j) {
          RepeatForever(t, c, i, j, |s|);
        }
      }
    }
    if k: nat :| At(t, c, k) == 0 {
      WalkFromEnd(t, c, k);
    } else if NoRepeat(t, c) {
      var r := seq(|t| + 1, k requires 0 <= k => At(t, c, k));
      Pigeonhole(r, |t|);
    }
  }

  // ----- what a walk reaches, and clearing it -----

  /** `x` is a cluster some number of links away from `c`. */
  ghost predicate Reached(t: seq<Cell>, c: nat, x: nat) {
    x != 0 && exists k: nat :: At(t, c, k) == x
  }

  lemma ReachedStep(t: seq<Cell>, c: nat, x: nat)
    requires Reached(t, c, x) && x < |t| && Next(t, x) != 0
    ensures Reached(t, c, Next(t, x))
  {
    var k: nat :| At(t, c, k) == x;
    assert At(t, c, k + 1) == Next(t, x);
  }

  /** A set closed under links that contains the start contains everything reached. */
  lemma {:induction false} ClosedContains(t: seq<Cell>, c: nat, z: set<nat>, k: nat)
    requires c == 0 || c in z
    requires forall x :: x in z ==> x < |t|
    requires forall x {:trigger LeadsInto(t, x, z, 0)} :: x in z ==> LeadsInto(t, x, z, 0)
    ensures At(t, c, k) == 0 || At(t, c, k) in z
  {
    if k != 0 {
      ClosedContains(t, c, z, k - 1);
      assert At(t, c, k - 1) in z ==> LeadsInto(t, At(t, c, k - 1), z, 0);
    }
  }

  /** On a walk that ends, what is reached is exactly what is visited. */
  lemma ReachedIsWalk(t: seq<Cell>, c: nat, s: seq<nat>, x: nat)
    requires IsWalk(t, c, s)
    ensures Reached(t, c, x) <==> x in s
  {
    if Reached(t, c, x) {
      var k: nat :| At(t, c, k) == x;
      WalkAt(t, c, s, k);
    }
    if x in s {
      var k :| 0 <= k < |s| && s[k] == x;
      WalkAt(t, c, s, k);
    }
  }

  lemma {:induction false} WalkInRange(t: seq<Cell>, c: nat, s: seq<nat>)
    requires IsWalk(t, c, s) && |t| > 0
    ensures InRange(t, c)
  {
    forall k: nat
      ensures At(t, c, k) < |t|
    {
      WalkAt(t, c, s, k);
    }
  }

  ghost predicate LeadsInto(t: seq<Cell>, x: nat, z: set<nat>, cluster: nat) {
    x < |t| ==> Next(t, x) == 0 || Next(t, x) == cluster || Next(t, x) in z
  }

  /**
   * Progress of a loop that zeroes what it follows: `z` are the clusters zeroed so far, all
   * reached from `c`, and every link out of them leads into `z`, to 0 or to the cluster the
   * loop is about to handle.
   */
  ghost predicate Follows(t: seq<Cell>, c: nat, z: set<nat>, cluster: nat) {
    && (cluster != 0 ==> Reached(t, c, cluster))
    && (forall x {:trigger Reached(t, c, x)} :: x in z ==> Reached(t, c, x))
    && (forall x :: x in z ==> x < |t|)
    && (forall x {:trigger LeadsInto(t, x, z, cluster)} :: x in z ==> LeadsInto(t, x, z, cluster))
    && (c == cluster || c in z)
  }

  lemma FollowStart(t: seq<Cell>, c: nat)
    ensures Follows(t, c, {}, c)
  {
    assert At(t, c, 0) == c;
  }

  /** A step reads 0 from a cluster already zeroed, and the link of the table otherwise. */
  lemma FollowStep(t: seq<Cell>, c: nat, z: set<nat>, cluster: nat)
    requires InRange(t, c) && Follows(t, c, z, cluster) && cluster != 0
    ensures cluster < |t|
    ensures Follows(t, c, z + {cluster}, if cluster in z then 0 else Next(t, cluster))
    ensures |z + {cluster}| <= |t|
    ensures cluster !in z ==> |z + {cluster}| == |z| + 1
    ensures cluster in z ==> z + {cluster} == z
  {
    var k: nat :| At(t, c, k) == cluster;
    assert cluster < |t|;
    if Next(t, cluster) != 0 {
      ReachedStep(t, c, cluster);
    }
    IndexSetBound(z + {cluster}, |t|);
    var next := if cluster in z then 0 else Next(t, cluster);
    assert LeadsInto(t, cluster, z, cluster) || cluster !in z;
    forall x | x in z + {cluster}
      ensures LeadsInto(t, x, z + {cluster}, next)
    {
      assert x == cluster || LeadsInto(t, x, z, cluster);
    }
  }

  /** When the loop ends, exactly what is reached has been zeroed. */
  lemma FollowDone(t: seq<Cell>, c: nat, z: set<nat>)
    requires Follows(t, c, z, 0)
    ensures forall x: nat :: Reached(t, c, x) <==> x in z
  {
    forall x: nat | Reached(t, c, x)
      ensures x in z
    {
      var k: nat :| At(t, c, k) == x;
      forall y | y in z
        ensures LeadsInto(t, y, z, 0)
      {
      }
      ClosedContains(t, c, z, k);
    }
  }

  /** Sets of table indices are bounded by the table size. */
  lemma {:induction false} IndexSetBound(z: set<nat>, n: nat)
    requires forall x :: x in z ==> x < n
    ensures |z| <= n
  {
    if n != 0 {
      IndexSetBound(z - {n - 1}, n - 1);
    } else {
      assert z == {};
    }
  }
}
