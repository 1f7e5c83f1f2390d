/**
 The Merkle root of a manifest (codebase.rs 1434-1452). Leaves and inner nodes are hashed alike, so
 a root alone does not fix the leaves: `OddLastRepeats` gives leaf lists of different lengths with
 one root. Together with the event count it does, unless SHA-256 has a collision, which
 `RootAndCountFixLeaves` then exhibits.
 */
module Merkle {
  import opened Utf8

  /** The hash the tree is built with: any function to 32 bytes. */
  ghost predicate Hash(h: Bytes -> Bytes) {
    forall b :: |h(b)| == 32
  }

  function Leaves(leaves: seq<Bytes>, h: Bytes -> Bytes): (r: seq<Bytes>)
    ensures |r| == |leaves| && forall i :: 0 <= i < |r| ==> r[i] == h(leaves[i])
  {
    seq(|leaves|, i requires 0 <= i < |leaves| => h(leaves[i]))
  }

  /** The next level: neighbours hashed together, an odd last one with itself. */
  function NextLevel(level: seq<Bytes>, h: Bytes -> Bytes): (r: seq<Bytes>)
    ensures |r| == (|level| + 1) / 2
  {
    if level == [] then []
    else if |level| == 1 then [h(level[0] + level[0])]
    else [h(level[0] + level[1])] + NextLevel(level[2..], h)
  }

  function Top(level: seq<Bytes>, h: Bytes -> Bytes): Bytes
    requires level != []
    decreases |level|
  {
    if |level| == 1 then level[0] else Top(NextLevel(level, h), h)
  }

  function Root(leaves: seq<Bytes>, h: Bytes -> Bytes): Bytes {
    if leaves == [] then h([]) else Top(Leaves(leaves, h), h)
  }

  lemma Associate(a: seq<Bytes>, b: seq<Bytes>, c: seq<Bytes>)
    ensures a + (b + c) == a + b + c
  {
  }

  /** The first pair of what is left of a level, and the rest of it. */
  lemma FirstPair(level: seq<Bytes>, i: nat, h: Bytes -> Bytes)
    requires i < |level|
    ensures var right := if i + 1 < |level| then level[i + 1] else level[i];
      var end := if i + 2 <= |level| then i + 2 else |level|;
      NextLevel(level[i..], h) == [h(level[i] + right)] + NextLevel(level[end..], h)
  {
    var rest := level[i..];
    if i + 1 < |level| {
      assert rest[0] == level[i] && rest[1] == level[i + 1] && rest[2..] == level[i + 2..];
    } else {
      assert rest == [level[i]] && level[|level|..] == [];
    }
  }

  /** `merkle_root`: the level loop ends because every level is shorter than the one before. */
  method MerkleRoot(leaves: seq<Bytes>, h: Bytes -> Bytes) returns (root: Bytes)
    ensures root == Root(leaves, h)
  {
    if leaves == [] {
      return h([]);
    }
    var level := Leaves(leaves, h);
    while |level| > 1
      invariant level != [] && Top(level, h) == Root(leaves, h)
      decreases |level|
    {
      var next: seq<Bytes> := [];
      var i := 0;
      while i < |level|
        invariant 0 <= i <= |level| && next + NextLevel(level[i..], h) == NextLevel(level, h)
      {
        var left := level[i];
        var right := if i + 1 < |level| then level[i + 1] else left;
        FirstPair(level, i, h);
        Associate(next, [h(left + right)], NextLevel(level[if i + 2 <= |level| then i + 2 else |level|..], h));
        next := next + [h(left + right)];
        i := if i + 2 <= |level| then i + 2 else |level|;
      }
      assert next + [] == next;
      level := next;
    }
    root := level[0];
  }

  predicate Digests(level: seq<Bytes>) {
    forall i :: 0 <= i < |level| ==> |level[i]| == 32
  }

  lemma {:induction false} NextDigests(level: seq<Bytes>, h: Bytes -> Bytes)
    requires Hash(h)
    ensures Digests(NextLevel(level, h))
  {
    if |level| > 1 {
      NextDigests(level[2..], h);
    }
  }

  lemma SplitDigests(a: Bytes, b: Bytes, x: Bytes, y: Bytes)
    requires |a| == 32 && |x| == 32 && a + b == x + y
    ensures a == x && b == y
  {
    assert a == (a + b)[..32] && x == (x + y)[..32] && b == (a + b)[32..] && y == (x + y)[32..];
  }

  /** Two byte strings with one digest. */
  predicate Collision(x: Bytes, y: Bytes, h: Bytes -> Bytes) {
    x != y && h(x) == h(y)
  }

  lemma {:induction false} NextFixesLevel(a: seq<Bytes>, b: seq<Bytes>, h: Bytes -> Bytes) returns (x: Bytes, y: Bytes)
    requires Hash(h) && |a| == |b| && Digests(a) && Digests(b) && NextLevel(a, h) == NextLevel(b, h)
    ensures a == b || Collision(x, y, h)
  {
    if a == [] {
      return [], [];
    }
    x := a[0] + (if |a| == 1 then a[0] else a[1]);
    y := b[0] + (if |b| == 1 then b[0] else b[1]);
    assert NextLevel(a, h)[0] == h(x) && NextLevel(b, h)[0] == h(y);
    if x == y {
      SplitDigests(a[0], if |a| == 1 then a[0] else a[1], b[0], if |b| == 1 then b[0] else b[1]);
      if |a| > 1 {
        assert NextLevel(a, h)[1..] == NextLevel(a[2..], h) && NextLevel(b, h)[1..] == NextLevel(b[2..], h);
        x, y := NextFixesLevel(a[2..], b[2..], h);
        if !Collision(x, y, h) {
          assert a == [a[0], a[1]] + a[2..] && b == [b[0], b[1]] + b[2..];
        }
      }
    }
  }

  lemma {:induction false} TopFixesLevel(a: seq<Bytes>, b: seq<Bytes>, h: Bytes -> Bytes) returns (x: Bytes, y: Bytes)
    requires Hash(h) && |a| == |b| > 0 && Digests(a) && Digests(b) && Top(a, h) == Top(b, h)
    ensures a == b || Collision(x, y, h)
    decreases |a|
  {
    if |a| == 1 {
      return [], [];
    }
    NextDigests(a, h);
    NextDigests(b, h);
    x, y := TopFixesLevel(NextLevel(a, h), NextLevel(b, h), h);
    if !Collision(x, y, h) {
      x, y := NextFixesLevel(a, b, h);
    }
  }

  /** The event count and the root fix the events in order, unless the hash collides: then the two
      inputs that collide are found. */
  lemma RootAndCountFixLeaves(a: seq<Bytes>, b: seq<Bytes>, h: Bytes -> Bytes) returns (x: Bytes, y: Bytes)
    requires Hash(h) && |a| == |b| && Root(a, h) == Root(b, h)
    ensures a == b || Collision(x, y, h)
  {
    if a == [] {
      return [], [];
    }
    x, y := TopFixesLevel(Leaves(a, h), Leaves(b, h), h);
    if !Collision(x, y, h) && a != b {
      var i :| 0 <= i < |a| && a[i] != b[i];
      assert Leaves(a, h)[i] == Leaves(b, h)[i];
      return a[i], b[i];
    }
  }

  lemma {:induction false} OddLevelRepeats(level: seq<Bytes>, h: Bytes -> Bytes)
    requires |level| % 2 == 1
    ensures NextLevel(level + [level[|level| - 1]], h) == NextLevel(level, h)
  {
    var more := level + [level[|level| - 1]];
    if |level| == 1 {
      assert more == [level[0], level[0]] && more[2..] == [];
    } else {
      OddLevelRepeats(level[2..], h);
      assert more[2..] == level[2..] + [level[2..][|level| - 3]];
    }
  }

  /** Without the count the root does not fix the leaves: an odd last leaf may be there twice. */
  lemma OddLastRepeats(leaves: seq<Bytes>, h: Bytes -> Bytes)
    requires |leaves| % 2 == 1 && |leaves| > 1
    ensures Root(leaves + [leaves[|leaves| - 1]], h) == Root(leaves, h)
  {
    var more := leaves + [leaves[|leaves| - 1]];
    var level := Leaves(leaves, h);
    assert Leaves(more, h) == level + [level[|level| - 1]];
    OddLevelRepeats(level, h);
  }

  // ----- the tree, from the top -----

  function Pow(k: nat): (n: nat)
    ensures n > 0
  {
    if k == 0 then 1 else 2 * Pow(k - 1)
  }

  /** The tree of height `k` over at most 2^k digests: two halves hashed together; when they fit in the
      left half, that half with itself. */
  function Tree(level: seq<Bytes>, k: nat, h: Bytes -> Bytes): Bytes
    requires 0 < |level| <= Pow(k)
  {
    if k == 0 then level[0]
    else
      var half := Pow(k - 1);
      if |level| <= half then h(Tree(level, k - 1, h) + Tree(level, k - 1, h))
      else h(Tree(level[..half], k - 1, h) + Tree(level[half..], k - 1, h))
  }

  lemma {:induction false} NextConcat(a: seq<Bytes>, b: seq<Bytes>, h: Bytes -> Bytes)
    requires |a| % 2 == 0
    ensures NextLevel(a + b, h) == NextLevel(a, h) + NextLevel(b, h)
  {
    if a == [] {
      assert a + b == b;
    } else {
      assert (a + b)[2..] == a[2..] + b;
      NextConcat(a[2..], b, h);
      Associate([h(a[0] + a[1])], NextLevel(a[2..], h), NextLevel(b, h));
    }
  }

  lemma TreeOfLow(level: seq<Bytes>, k: nat, h: Bytes -> Bytes)
    requires 0 < |level| <= Pow(k)
    ensures Pow(k) <= Pow(k + 1)
    ensures Tree(level, k + 1, h) == h(Tree(level, k, h) + Tree(level, k, h))
  {
  }

  lemma TreeOfTwo(a: seq<Bytes>, b: seq<Bytes>, k: nat, h: Bytes -> Bytes)
    requires |a| == Pow(k) && 0 < |b| <= Pow(k)
    ensures |a + b| <= Pow(k + 1)
    ensures Tree(a + b, k + 1, h) == h(Tree(a, k, h) + Tree(b, k, h))
  {
    assert (a + b)[..|a|] == a && (a + b)[|a|..] == b;
  }

  lemma TreeOfPair(level: seq<Bytes>, h: Bytes -> Bytes)
    requires 0 < |level| <= 2
    ensures |NextLevel(level, h)| == 1 && Pow(1) == 2 && Tree(level, 1, h) == NextLevel(level, h)[0]
  {
    assert |level| == 2 ==> level[..1] == [level[0]] && level[1..] == [level[1]];
  }

  /** Halves that are one level up from the halves make the tree one level up from the tree. */
  lemma HalvesOfNext(a: seq<Bytes>, b: seq<Bytes>, x: seq<Bytes>, y: seq<Bytes>, k: nat, h: Bytes -> Bytes)
    requires |a| == Pow(k + 1) && 0 < |b| <= Pow(k + 1) && |x| == Pow(k) && 0 < |y| <= Pow(k)
    requires Tree(a, k + 1, h) == Tree(x, k, h) && Tree(b, k + 1, h) == Tree(y, k, h)
    ensures |a + b| <= Pow(k + 2) && |x + y| <= Pow(k + 1)
    ensures Tree(a + b, k + 2, h) == Tree(x + y, k + 1, h)
  {
    hide Tree;
    TreeOfTwo(a, b, k + 1, h);
    TreeOfTwo(x, y, k, h);
  }

  lemma NextSize(level: seq<Bytes>, k: nat, h: Bytes -> Bytes)
    requires 0 < |level| <= Pow(k + 1)
    ensures 0 < |NextLevel(level, h)| <= Pow(k) && (|level| == Pow(k + 1) ==> |NextLevel(level, h)| == Pow(k))
  {
  }

  /** One level up is one height less. */
  lemma {:induction false} TreeOfNext(level: seq<Bytes>, k: nat, h: Bytes -> Bytes)
    requires 0 < |level| <= Pow(k + 1)
    ensures |NextLevel(level, h)| <= Pow(k) && Tree(level, k + 1, h) == Tree(NextLevel(level, h), k, h)
    decreases k
  {
    if k == 0 {
      TreeOfPair(level, h);
    } else {
      hide Tree, NextLevel;
      var half := Pow(k);
      NextSize(level, k, h);
      if |level| <= half {
        TreeOfNext(level, k - 1, h);
        TreeOfLow(level, k, h);
        TreeOfLow(NextLevel(level, h), k - 1, h);
      } else {
        TreeOfBoth(level, level[..half], level[half..], k, h);
      }
    }
  }

  lemma TreeOfBoth(level: seq<Bytes>, a: seq<Bytes>, b: seq<Bytes>, k: nat, h: Bytes -> Bytes)
    requires k > 0 && |a| == Pow(k) && 0 < |b| <= Pow(k) && level == a + b
    ensures 0 < |level| <= Pow(k + 1) && |NextLevel(level, h)| <= Pow(k)
    ensures Tree(level, k + 1, h) == Tree(NextLevel(level, h), k, h)
    decreases k, 0
  {
    hide Tree, NextLevel;
    NextConcat(a, b, h);
    NextSize(a, k - 1, h);
    NextSize(b, k - 1, h);
    TreeOfNext(a, k - 1, h);
    TreeOfNext(b, k - 1, h);
    HalvesOfNext(a, b, NextLevel(a, h), NextLevel(b, h), k - 1, h);
  }

  lemma {:induction false} TopIsTree(level: seq<Bytes>, k: nat, h: Bytes -> Bytes)
    requires 0 < |level| <= Pow(k) && (k > 0 ==> |level| > Pow(k - 1))
    ensures Top(level, h) == Tree(level, k, h)
    decreases k
  {
    if k > 0 {
      TreeOfNext(level, k - 1, h);
      TopIsTree(NextLevel(level, h), k - 1, h);
    }
  }

  /** The root is the least tree that holds the leaves' digests, hashed as often as it is high. */
  lemma RootIsTree(leaves: seq<Bytes>, k: nat, h: Bytes -> Bytes)
    requires 0 < |leaves| <= Pow(k) && (k > 0 ==> |leaves| > Pow(k - 1))
    ensures Root(leaves, h) == Tree(Leaves(leaves, h), k, h) && Root([], h) == h([])
  {
    TopIsTree(Leaves(leaves, h), k, h);
  }
}
