/**
 * Weighted union-by-size with full path compression over one integer array
 * (DisjointSets.java). Entry `p[i] < 0` marks `i` as the representative (root)
 * of a set of `-p[i]` elements; entry `p[i] >= 0` is the parent of `i`.
 *
 * The first part states the structure on sequences: a ghost rank that grows
 * strictly along every parent pointer witnesses that the pointers are acyclic
 * and gives the termination measure of `Root`; `Compressed` and `Linked` are
 * the two ways the source rewrites the array. The second part is the class.
 */
module UnionFind {
  import opened Results

  // ---------------------------------------------------------------------------
  // The parent array as a forest
  // ---------------------------------------------------------------------------

  /** Every parent pointer is in range and climbs to a strictly higher rank. */
  ghost predicate Forest(p: seq<int>, rank: seq<nat>) {
    |rank| == |p| &&
    forall i :: 0 <= i < |p| && p[i] >= 0 ==> p[i] < |p| && rank[i] < rank[p[i]]
  }

  /** The largest rank; it bounds every rank and so every climb. */
  function MaxRank(rank: seq<nat>): (m: nat)
    ensures forall i :: 0 <= i < |rank| ==> rank[i] <= m
  {
    if rank == [] then 0
    else
      var m := MaxRank(rank[..|rank| - 1]);
      assert forall i :: 0 <= i < |rank| - 1 ==> rank[i] == rank[..|rank| - 1][i];
      if rank[|rank| - 1] > m then rank[|rank| - 1] else m
  }

  /** The root reached from `x` by following parent pointers. */
  ghost function Root(p: seq<int>, rank: seq<nat>, x: int): (r: nat)
    requires Forest(p, rank) && 0 <= x < |p|
    ensures r < |p| && p[r] < 0
    ensures p[x] < 0 ==> r == x
    ensures p[x] >= 0 ==> rank[x] < rank[r]
    decreases MaxRank(rank) - rank[x]
  {
    if p[x] < 0 then x else Root(p, rank, p[x])
  }

  /** `k` parent steps from `x`, standing still once a root is reached. */
  function Follow(p: seq<int>, x: nat, k: nat): int
    requires x < |p| && forall i :: 0 <= i < |p| ==> p[i] < |p|
    decreases k
  {
    if k == 0 || p[x] < 0 then x else Follow(p, p[x], k - 1)
  }

  lemma {:induction false} FollowClimbs(p: seq<int>, rank: seq<nat>, x: nat, k: nat)
    requires Forest(p, rank) && x < |p|
    ensures 0 <= Follow(p, x, k) < |p| && rank[x] <= rank[Follow(p, x, k)]
    decreases k
  {
    if k > 0 && p[x] >= 0 {
      FollowClimbs(p, rank, p[x], k - 1);
    }
  }

  /** Parent pointers are acyclic: no non-root element is its own proper ancestor. */
  lemma Acyclic(p: seq<int>, rank: seq<nat>, x: nat, k: nat)
    requires Forest(p, rank) && x < |p| && p[x] >= 0 && k >= 1
    ensures Follow(p, x, k) != x
  {
    FollowClimbs(p, rank, p[x], k - 1);
  }

  /** The sequence of the roots of all elements: the partition the array stands for. */
  ghost function Roots(p: seq<int>, rank: seq<nat>): seq<nat>
    requires Forest(p, rank)
  {
    seq(|p|, i requires 0 <= i < |p| => Root(p, rank, i))
  }

  /** The distinct roots, one per set. */
  ghost function RootSet(p: seq<int>, rank: seq<nat>): set<nat>
    requires Forest(p, rank)
  {
    set y | 0 <= y < |p| :: Root(p, rank, y)
  }

  /** The elements whose root is `r`. */
  ghost function Class(p: seq<int>, rank: seq<nat>, r: int): set<int>
    requires Forest(p, rank)
  {
    set i | 0 <= i < |p| && Root(p, rank, i) == r
  }

  // ---------------------------------------------------------------------------
  // Sums over the array: number of roots, total of the stored sizes
  // ---------------------------------------------------------------------------

  /** What an entry contributes to a sum: one per root, or the size a root stores. */
  datatype Weight = PerRoot | StoredSize

  function Contribution(w: Weight, v: int): nat {
    if v >= 0 then 0 else if w == PerRoot then 1 else -v
  }

  /** The sum of the contributions of the entries of `p`. */
  function Tally(p: seq<int>, w: Weight): nat {
    if p == [] then 0 else Tally(p[..|p| - 1], w) + Contribution(w, p[|p| - 1])
  }

  /** The number of negative entries, which is what `count()` returns. */
  function CountRoots(p: seq<int>): nat {
    Tally(p, PerRoot)
  }

  lemma {:induction false} TallyUpdate(p: seq<int>, i: int, v: int, w: Weight)
    requires 0 <= i < |p|
    ensures Tally(p[i := v], w) == Tally(p, w) - Contribution(w, p[i]) + Contribution(w, v)
  {
    var q := p[i := v];
    assert q[..|q| - 1] == if i == |p| - 1 then p[..|p| - 1] else p[..|p| - 1][i := v];
    if i < |p| - 1 {
      TallyUpdate(p[..|p| - 1], i, v, w);
    }
  }

  /** Two arrays with the same roots holding the same values have the same tallies. */
  lemma {:induction false} TallySameRoots(p: seq<int>, q: seq<int>, w: Weight)
    requires |p| == |q|
    requires forall i :: 0 <= i < |p| ==> p[i] == q[i] || (p[i] >= 0 && q[i] >= 0)
    ensures Tally(p, w) == Tally(q, w)
  {
    if p != [] {
      TallySameRoots(p[..|p| - 1], q[..|q| - 1], w);
    }
  }

  /** The entries below `|p|` that are negative. */
  ghost function NegativeAt(p: seq<int>): set<nat> {
    set i: nat | i < |p| && p[i] < 0
  }

  lemma {:induction false} CountRootsIsCardinality(p: seq<int>)
    ensures CountRoots(p) == |NegativeAt(p)|
  {
    if p != [] {
      var q := p[..|p| - 1];
      CountRootsIsCardinality(q);
      var last := if p[|p| - 1] < 0 then {|q|} else {};
      assert NegativeAt(p) == NegativeAt(q) + last;
      assert NegativeAt(q) !! last;
    }
  }

  /**
   * `count()` is the number of distinct sets: the number of negative entries
   * equals the number of distinct roots.
   */
  lemma CountIsNumberOfSets(p: seq<int>, rank: seq<nat>)
    requires Forest(p, rank)
    ensures CountRoots(p) == |RootSet(p, rank)|
  {
    CountRootsIsCardinality(p);
    var roots := RootSet(p, rank);
    forall r | r in NegativeAt(p) ensures r in roots {
      assert Root(p, rank, r) == r;
    }
    forall r | r in roots ensures r in NegativeAt(p) {
      var y :| 0 <= y < |p| && Root(p, rank, y) == r;
    }
    assert roots == NegativeAt(p);
  }

  // ---------------------------------------------------------------------------
  // The class invariant
  // ---------------------------------------------------------------------------

  /**
   * The invariant of `DisjointSets`: the pointers form a forest, each root
   * holds minus the number of elements in its set, and so the negated values
   * at the roots add up to the number of elements.
   */
  ghost predicate Sized(p: seq<int>, rank: seq<nat>) {
    Forest(p, rank) &&
    (forall r {:trigger Class(p, rank, r)} :: 0 <= r < |p| && p[r] < 0 ==> -p[r] == |Class(p, rank, r)|) &&
    Tally(p, StoredSize) == |p|
  }

  lemma {:induction false} TallyAllMinusOne(p: seq<int>)
    requires forall i :: 0 <= i < |p| ==> p[i] == -1
    ensures Tally(p, StoredSize) == |p| && CountRoots(p) == |p|
  {
    if p != [] {
      TallyAllMinusOne(p[..|p| - 1]);
    }
  }

  /** `n` singletons: every element is its own root and the invariant holds. */
  lemma Singletons(p: seq<int>, rank: seq<nat>)
    requires |rank| == |p| && forall i :: 0 <= i < |p| ==> p[i] == -1
    ensures Sized(p, rank)
    ensures Roots(p, rank) == seq(|p|, i => i)
    ensures CountRoots(p) == |p|
  {
    TallyAllMinusOne(p);
    forall r | 0 <= r < |p| ensures Class(p, rank, r) == {r} {
      assert Root(p, rank, r) == r;
    }
  }

  // ---------------------------------------------------------------------------
  // Path compression
  // ---------------------------------------------------------------------------

  /** `y` is a non-root element on the path from `x` to its root (`x` included). */
  ghost predicate OnPath(p: seq<int>, rank: seq<nat>, x: int, y: int)
    requires Forest(p, rank) && 0 <= x < |p|
    decreases MaxRank(rank) - rank[x]
  {
    p[x] >= 0 && (y == x || OnPath(p, rank, p[x], y))
  }

  lemma {:induction false} OnPathFacts(p: seq<int>, rank: seq<nat>, x: int, y: int)
    requires Forest(p, rank) && 0 <= x < |p| && OnPath(p, rank, x, y)
    ensures 0 <= y < |p| && p[y] >= 0 && Root(p, rank, y) == Root(p, rank, x)
    decreases MaxRank(rank) - rank[x]
  {
    if y != x {
      OnPathFacts(p, rank, p[x], y);
    }
  }

  lemma RootNotOnPath(p: seq<int>, rank: seq<nat>, x: int, r: int)
    requires Forest(p, rank) && 0 <= x < |p| && 0 <= r < |p| && p[r] < 0
    ensures !OnPath(p, rank, x, r)
  {
    if OnPath(p, rank, x, r) {
      OnPathFacts(p, rank, x, r);
    }
  }

  /** The array after `find(x)`: every element on x's path points at x's root. */
  ghost function Compressed(p: seq<int>, rank: seq<nat>, x: int): seq<int>
    requires Forest(p, rank) && 0 <= x < |p|
  {
    seq(|p|, y requires 0 <= y < |p| => if OnPath(p, rank, x, y) then Root(p, rank, x) else p[y])
  }

  /** `find` writes `s[x]` after the recursive call has compressed the rest of the path. */
  lemma CompressStep(p: seq<int>, rank: seq<nat>, x: int)
    requires Forest(p, rank) && 0 <= x < |p| && p[x] >= 0
    ensures Compressed(p, rank, p[x])[x := Root(p, rank, x)] == Compressed(p, rank, x)
  {
  }

  /** At a root there is nothing to compress. */
  lemma CompressedAtRoot(p: seq<int>, rank: seq<nat>, x: int)
    requires Forest(p, rank) && 0 <= x < |p| && p[x] < 0
    ensures Compressed(p, rank, x) == p
  {
  }

  lemma CompressedForest(p: seq<int>, rank: seq<nat>, x: int)
    requires Forest(p, rank) && 0 <= x < |p|
    ensures Forest(Compressed(p, rank, x), rank)
  {
    var q := Compressed(p, rank, x);
    forall i | 0 <= i < |q| && q[i] >= 0 ensures q[i] < |q| && rank[i] < rank[q[i]] {
      if OnPath(p, rank, x, i) {
        OnPathFacts(p, rank, x, i);
      }
    }
  }

  /** Compression keeps every element's root. */
  lemma {:induction false} CompressedRoot(p: seq<int>, rank: seq<nat>, x: int, y: int)
    requires Forest(p, rank) && 0 <= x < |p| && 0 <= y < |p|
    ensures Forest(Compressed(p, rank, x), rank)
    ensures Root(Compressed(p, rank, x), rank, y) == Root(p, rank, y)
    decreases MaxRank(rank) - rank[y]
  {
    CompressedForest(p, rank, x);
    var q := Compressed(p, rank, x);
    if OnPath(p, rank, x, y) {
      OnPathFacts(p, rank, x, y);
      var r := Root(p, rank, x);
      RootNotOnPath(p, rank, x, r);
      assert q[r] == p[r];
      assert Root(q, rank, r) == r;
    } else if p[y] >= 0 {
      CompressedRoot(p, rank, x, p[y]);
    }
  }

  /**
   * Compression keeps the partition, every root and every root's stored size,
   * and with them the class invariant.
   */
  lemma CompressedSized(p: seq<int>, rank: seq<nat>, x: int)
    requires Sized(p, rank) && 0 <= x < |p|
    ensures Sized(Compressed(p, rank, x), rank)
    ensures Roots(Compressed(p, rank, x), rank) == Roots(p, rank)
    ensures forall r :: 0 <= r < |p| ==>
              (Compressed(p, rank, x)[r] < 0 <==> p[r] < 0) &&
              (p[r] < 0 ==> Compressed(p, rank, x)[r] == p[r])
  {
    var q := Compressed(p, rank, x);
    CompressedForest(p, rank, x);
    forall y | 0 <= y < |p| ensures Root(q, rank, y) == Root(p, rank, y) {
      CompressedRoot(p, rank, x, y);
    }
    forall r | 0 <= r < |p| ensures (q[r] < 0 <==> p[r] < 0) && (p[r] < 0 ==> q[r] == p[r]) {
      if p[r] < 0 {
        RootNotOnPath(p, rank, x, r);
      }
    }
    forall r | 0 <= r < |p| ensures Class(q, rank, r) == Class(p, rank, r) {
    }
    TallySameRoots(p, q, StoredSize);
  }

  /** The array after `find(x)` and then `find(y)`, the two calls that open `union(x, y)`. */
  ghost function CompressedBoth(p: seq<int>, rank: seq<nat>, x: int, y: int): (q: seq<int>)
    requires Sized(p, rank) && 0 <= x < |p| && 0 <= y < |p|
    ensures |q| == |p| && Sized(q, rank) && Roots(q, rank) == Roots(p, rank)
  {
    CompressedSized(p, rank, x);
    CompressedSized(Compressed(p, rank, x), rank, y);
    Compressed(Compressed(p, rank, x), rank, y)
  }

  /**
   * One step of `find`: when the rest of the path from a non-root `x` has been
   * compressed to `x`'s root `r`, writing `r` into `x` completes the compression.
   */
  lemma FindStep(p: seq<int>, rank: seq<nat>, x: int, mid: seq<int>, r: int)
    requires Sized(p, rank) && 0 <= x < |p| && p[x] >= 0
    requires mid == Compressed(p, rank, p[x]) && r == Roots(p, rank)[p[x]]
    ensures r == Roots(p, rank)[x]
    ensures mid[x := r] == Compressed(p, rank, x)
    ensures Sized(mid[x := r], rank) && Roots(mid[x := r], rank) == Roots(p, rank)
    ensures CountRoots(mid[x := r]) == CountRoots(p)
  {
    CompressStep(p, rank, x);
    CompressedSized(p, rank, x);
    SameRootsSameCount(p, mid[x := r], rank);
  }

  // ---------------------------------------------------------------------------
  // Linking two roots
  // ---------------------------------------------------------------------------

  /** The array after `union` hangs root `small` under root `big`. */
  function Linked(p: seq<int>, big: int, small: int): seq<int>
    requires 0 <= big < |p| && 0 <= small < |p|
  {
    Grown(p, big, small)[small := big]
  }

  /** The first write of the link: `big` takes on the size of both sets. */
  function Grown(p: seq<int>, big: int, small: int): seq<int>
    requires 0 <= big < |p| && 0 <= small < |p|
  {
    p[big := p[big] + p[small]]
  }

  /** The ghost rank after the link: `big` rises above `small` if it has to. */
  function Relinked(rank: seq<nat>, big: int, small: int): seq<nat>
    requires 0 <= big < |rank| && 0 <= small < |rank|
  {
    rank[big := if rank[big] > rank[small] then rank[big] else rank[small] + 1]
  }

  ghost predicate DistinctRoots(p: seq<int>, big: int, small: int) {
    0 <= big < |p| && 0 <= small < |p| && big != small && p[big] < 0 && p[small] < 0
  }

  lemma LinkedForest(p: seq<int>, rank: seq<nat>, big: int, small: int)
    requires Forest(p, rank) && DistinctRoots(p, big, small)
    ensures Forest(Linked(p, big, small), Relinked(rank, big, small))
  {
  }

  /** Linking sends the elements of `small`'s set to `big` and leaves all others alone. */
  lemma {:induction false} LinkedRoot(p: seq<int>, rank: seq<nat>, big: int, small: int, y: int)
    requires Forest(p, rank) && DistinctRoots(p, big, small) && 0 <= y < |p|
    ensures Forest(Linked(p, big, small), Relinked(rank, big, small))
    ensures Root(Linked(p, big, small), Relinked(rank, big, small), y)
            == if Root(p, rank, y) == small then big else Root(p, rank, y)
    decreases MaxRank(rank) - rank[y]
  {
    LinkedForest(p, rank, big, small);
    var q, rank' := Linked(p, big, small), Relinked(rank, big, small);
    if y == small {
      assert Root(q, rank', big) == big;
    } else if p[y] >= 0 {
      LinkedRoot(p, rank, big, small, p[y]);
    }
  }

  /** The partition `rep` with the set of root `small` merged into that of root `big`. */
  function Merge(rep: seq<nat>, small: nat, big: nat): seq<nat> {
    seq(|rep|, i requires 0 <= i < |rep| => if rep[i] == small then big else rep[i])
  }

  /** Linking sends exactly the elements of `small`'s set to `big`. */
  lemma LinkedRoots(p: seq<int>, rank: seq<nat>, big: int, small: int)
    requires Forest(p, rank) && DistinctRoots(p, big, small)
    ensures Forest(Linked(p, big, small), Relinked(rank, big, small))
    ensures Roots(Linked(p, big, small), Relinked(rank, big, small)) == Merge(Roots(p, rank), small, big)
  {
    LinkedForest(p, rank, big, small);
    forall y | 0 <= y < |p|
      ensures Root(Linked(p, big, small), Relinked(rank, big, small), y)
              == if Root(p, rank, y) == small then big else Root(p, rank, y)
    {
      LinkedRoot(p, rank, big, small, y);
    }
  }

  /** After linking, `big`'s set is the union of the two sets and every other set is as before. */
  lemma LinkedClasses(p: seq<int>, rank: seq<nat>, big: int, small: int)
    requires Forest(p, rank) && DistinctRoots(p, big, small)
    ensures Forest(Linked(p, big, small), Relinked(rank, big, small))
    ensures Class(Linked(p, big, small), Relinked(rank, big, small), big)
            == Class(p, rank, big) + Class(p, rank, small)
    ensures Class(p, rank, big) !! Class(p, rank, small)
    ensures forall r :: r != big && r != small ==>
              Class(Linked(p, big, small), Relinked(rank, big, small), r) == Class(p, rank, r)
  {
    var q, rank' := Linked(p, big, small), Relinked(rank, big, small);
    LinkedRoots(p, rank, big, small);
    assert forall y :: 0 <= y < |p| ==> Root(q, rank', y) == Roots(q, rank')[y];
    assert forall y :: 0 <= y < |p| ==> Root(p, rank, y) == Roots(p, rank)[y];
  }

  /** Linking moves `small`'s size onto `big`, so the total is unchanged and one root fewer remains. */
  lemma LinkedTallies(p: seq<int>, big: int, small: int)
    requires 0 <= big < |p| && 0 <= small < |p| && big != small && p[big] < 0 && p[small] < 0
    ensures Tally(Linked(p, big, small), StoredSize) == Tally(p, StoredSize)
    ensures CountRoots(Linked(p, big, small)) == CountRoots(p) - 1
  {
    LinkedTally(p, big, small, StoredSize);
    LinkedTally(p, big, small, PerRoot);
  }

  lemma LinkedTally(p: seq<int>, big: int, small: int, w: Weight)
    requires 0 <= big < |p| && 0 <= small < |p| && big != small
    ensures Tally(Linked(p, big, small), w)
            == Tally(p, w) - Contribution(w, p[big]) + Contribution(w, p[big] + p[small])
               - Contribution(w, p[small]) + Contribution(w, big)
  {
    var mid := p[big := p[big] + p[small]];
    TallyUpdate(p, big, p[big] + p[small], w);
    TallyUpdate(mid, small, big, w);
  }

  /**
   * Linking keeps the class invariant: the merged set's size is the sum of the
   * two sizes, every other root keeps its set, and one root fewer remains.
   */
  lemma LinkedSized(p: seq<int>, rank: seq<nat>, big: int, small: int)
    requires Sized(p, rank) && DistinctRoots(p, big, small)
    ensures Sized(Linked(p, big, small), Relinked(rank, big, small))
    ensures Roots(Linked(p, big, small), Relinked(rank, big, small)) == Merge(Roots(p, rank), small, big)
    ensures |Class(p, rank, big)| + |Class(p, rank, small)| == -Linked(p, big, small)[big]
    ensures CountRoots(Linked(p, big, small)) == CountRoots(p) - 1
  {
    var q, rank' := Linked(p, big, small), Relinked(rank, big, small);
    LinkedRoots(p, rank, big, small);
    LinkedClasses(p, rank, big, small);
    LinkedTallies(p, big, small);
    assert |Class(q, rank', big)| == |Class(p, rank, big)| + |Class(p, rank, small)|;
    forall r | 0 <= r < |q| && q[r] < 0 ensures -q[r] == |Class(q, rank', r)| {
      if r != big {
        assert q[r] == p[r];
      }
    }
  }

  /** Two arrays standing for the same partition have the same sets and the same number of roots. */
  lemma SameRootsSameCount(p: seq<int>, q: seq<int>, rank: seq<nat>)
    requires Forest(p, rank) && Forest(q, rank) && Roots(p, rank) == Roots(q, rank)
    ensures forall r :: Class(p, rank, r) == Class(q, rank, r)
    ensures CountRoots(p) == CountRoots(q)
  {
    assert forall y :: 0 <= y < |p| ==> Root(p, rank, y) == Roots(p, rank)[y];
    assert forall y :: 0 <= y < |q| ==> Root(q, rank, y) == Roots(q, rank)[y];
    assert RootSet(p, rank) == RootSet(q, rank);
    CountIsNumberOfSets(p, rank);
    CountIsNumberOfSets(q, rank);
  }

  /**
   * The comparison of `union` on the array `p` left by the two finds: the
   * roots of `x` and `y` are distinct roots, and the stored value at `x`'s
   * root is the smaller exactly when that root is the one to keep.
   */
  lemma UnionOrder(p0: seq<int>, p: seq<int>, rank: seq<nat>, x: int, y: int)
    requires Sized(p0, rank) && Sized(p, rank) && Roots(p, rank) == Roots(p0, rank)
    requires 0 <= x < |p| && 0 <= y < |p| && Roots(p0, rank)[x] != Roots(p0, rank)[y]
    ensures
      var a, b := Roots(p0, rank)[x], Roots(p0, rank)[y];
      && DistinctRoots(p, a, b)
      && Absorber(p0, rank, x, y) == (if p[a] < p[b] then a else b)
      && Absorbed(p0, rank, x, y) == (if p[a] < p[b] then b else a)
  {
    var a, b := Roots(p0, rank)[x], Roots(p0, rank)[y];
    assert a == Root(p, rank, x) && b == Root(p, rank, y);
    assert a == Root(p0, rank, x) && b == Root(p0, rank, y);
    SameRootsSameCount(p0, p, rank);
  }

  /**
   * The link step of `union`, stated against the array `p0` before the two
   * finds: hanging `small` under `big` merges their sets, `big` stores the sum
   * of the two sizes and one root fewer remains.
   */
  lemma UnionStep(p0: seq<int>, p: seq<int>, rank: seq<nat>, big: int, small: int)
    requires Sized(p0, rank) && Sized(p, rank) && Roots(p, rank) == Roots(p0, rank)
    requires DistinctRoots(p, big, small)
    ensures Sized(Linked(p, big, small), Relinked(rank, big, small))
    ensures Roots(Linked(p, big, small), Relinked(rank, big, small)) == Merge(Roots(p0, rank), small, big)
    ensures -Linked(p, big, small)[big] == |Class(p0, rank, big)| + |Class(p0, rank, small)|
    ensures CountRoots(Linked(p, big, small)) == CountRoots(p0) - 1
  {
    SameRootsSameCount(p0, p, rank);
    LinkedSized(p, rank, big, small);
  }

  /**
   * What `union(x, y)` does, from the array and rank `p0, rank0` before it to
   * `p1, rank1` after it: an index out of range raises an error; two elements
   * already in one set give -1; otherwise the root of the smaller set (of x's
   * on a tie) is hung under the other root, the two sets become one and the
   * result is their total size. The partition changes only in the last case.
   */
  ghost predicate UnionSpec(p0: seq<int>, rank0: seq<nat>, p1: seq<int>, rank1: seq<nat>,
                            x: int, y: int, res: Result<int, IndexError>)
    requires Sized(p0, rank0) && Sized(p1, rank1) && |p1| == |p0|
  {
    if !(0 <= x < |p0| && 0 <= y < |p0|) then
      res == Err(IndexOutOfBounds) && Roots(p1, rank1) == Roots(p0, rank0) && CountRoots(p1) == CountRoots(p0)
    else
      var a, b := Roots(p0, rank0)[x], Roots(p0, rank0)[y];
      if a == b then
        res == Ok(-1) && Roots(p1, rank1) == Roots(p0, rank0) && CountRoots(p1) == CountRoots(p0)
      else
        var big, small := Absorber(p0, rank0, x, y), Absorbed(p0, rank0, x, y);
        && res == Ok(|Class(p0, rank0, a)| + |Class(p0, rank0, b)|)
        && p1[small] == big
        && Roots(p1, rank1) == Merge(Roots(p0, rank0), small, big)
        && CountRoots(p1) == CountRoots(p0) - 1
  }

  /** The root that `union(x, y)` keeps: that of the larger set, of `y`'s on a tie. */
  ghost function Absorber(p: seq<int>, rank: seq<nat>, x: int, y: int): nat
    requires Forest(p, rank) && 0 <= x < |p| && 0 <= y < |p|
  {
    var a, b := Root(p, rank, x), Root(p, rank, y);
    if |Class(p, rank, a)| > |Class(p, rank, b)| then a else b
  }

  /** The root that `union(x, y)` hangs under the other. */
  ghost function Absorbed(p: seq<int>, rank: seq<nat>, x: int, y: int): nat
    requires Forest(p, rank) && 0 <= x < |p| && 0 <= y < |p|
  {
    var a, b := Root(p, rank, x), Root(p, rank, y);
    if |Class(p, rank, a)| > |Class(p, rank, b)| then b else a
  }

  /**
   * After a `union(x, y)` with both in range, `x` and `y` are in one set, and
   * two elements are in one set exactly when they were before or each of them
   * was in the set of `x` or in the set of `y`.
   */
  lemma UnionJoins(p0: seq<int>, rank0: seq<nat>, p1: seq<int>, rank1: seq<nat>,
                   x: int, y: int, res: Result<int, IndexError>)
    requires Sized(p0, rank0) && Sized(p1, rank1) && |p1| == |p0|
    requires UnionSpec(p0, rank0, p1, rank1, x, y, res) && 0 <= x < |p0| && 0 <= y < |p0|
    ensures res.Ok? && Roots(p1, rank1)[x] == Roots(p1, rank1)[y]
    ensures forall i, j :: 0 <= i < |p0| && 0 <= j < |p0| ==>
              (Roots(p1, rank1)[i] == Roots(p1, rank1)[j] <==>
                 || Roots(p0, rank0)[i] == Roots(p0, rank0)[j]
                 || (Roots(p0, rank0)[i] in {Roots(p0, rank0)[x], Roots(p0, rank0)[y]} &&
                     Roots(p0, rank0)[j] in {Roots(p0, rank0)[x], Roots(p0, rank0)[y]}))
  {
    var r0 := Roots(p0, rank0);
    var a, b := r0[x], r0[y];
    assert a == Root(p0, rank0, x) && b == Root(p0, rank0, y);
    if a != b {
      var big, small := Absorber(p0, rank0, x, y), Absorbed(p0, rank0, x, y);
      assert {big, small} == {a, b};
      assert forall i :: 0 <= i < |p0| ==> r0[i] == Root(p0, rank0, r0[i]) by {
        forall i | 0 <= i < |p0| ensures r0[i] == Root(p0, rank0, r0[i]) {
          assert r0[i] == Root(p0, rank0, i);
        }
      }
    }
  }

  /** The two outcomes of `union` that leave the partition alone meet its specification. */
  lemma UnionKeeps(p0: seq<int>, p: seq<int>, rank: seq<nat>, x: int, y: int, res: Result<int, IndexError>)
    requires Sized(p0, rank) && Sized(p, rank) && Roots(p, rank) == Roots(p0, rank)
    requires
      || (!(0 <= x < |p| && 0 <= y < |p|) && res == Err(IndexOutOfBounds))
      || (0 <= x < |p| && 0 <= y < |p| && Roots(p0, rank)[x] == Roots(p0, rank)[y] && res == Ok(-1))
    ensures UnionSpec(p0, rank, p, rank, x, y, res)
  {
    SameRootsSameCount(p0, p, rank);
  }

  /** The linking outcome of `union` meets its specification. */
  lemma UnionLinks(p0: seq<int>, p: seq<int>, rank0: seq<nat>, x: int, y: int, big: int, small: int,
                   q: seq<int>, rank: seq<nat>, res: Result<int, IndexError>)
    requires Sized(p0, rank0) && Sized(p, rank0) && Roots(p, rank0) == Roots(p0, rank0)
    requires 0 <= x < |p| && 0 <= y < |p| && Roots(p0, rank0)[x] != Roots(p0, rank0)[y]
    requires big == Absorber(p0, rank0, x, y) && small == Absorbed(p0, rank0, x, y)
    requires DistinctRoots(p, big, small)
    requires q == Linked(p, big, small) && rank == Relinked(rank0, big, small)
    requires res.Ok? && res.value == -q[big]
    ensures Sized(q, rank) && UnionSpec(p0, rank0, q, rank, x, y, res)
  {
    assert {big, small} == {Roots(p0, rank0)[x], Roots(p0, rank0)[y]};
    UnionStep(p0, p, rank0, big, small);
  }

  // ---------------------------------------------------------------------------
  // The class
  // ---------------------------------------------------------------------------

  class DisjointSets {
    /** Parent pointers, and minus the set size at each root. */
    const s: array<int>
    /** Proof-only rank that grows along every parent pointer. */
    ghost var rank: seq<nat>

    ghost predicate Valid()
      reads this, s
    {
      Sized(s[..], rank)
    }

    /** The partition: the root of every element. */
    ghost function Rep(): seq<nat>
      reads this, s
      requires Valid()
    {
      Roots(s[..], rank)
    }

    ghost function NumSets(): nat
      reads this, s
    {
      CountRoots(s[..])
    }

    /** `n` singleton sets. */
    constructor (n: int)
      requires n >= 0
      ensures Valid() && fresh(s)
      ensures Size() == n
      ensures forall i :: 0 <= i < n ==> s[i] == -1
      ensures Rep() == seq(n, i => i)
      ensures NumSets() == n
    {
      s := new int[n];
      rank := seq(n, i => 0);
      new;
      for i := 0 to n
        invariant rank == seq(n, i => 0)
        invariant forall j :: 0 <= j < i ==> s[j] == -1
      {
        s[i] := -1;
      }
      Singletons(s[..], rank);
    }

    /** `size()`: the number of elements, fixed at construction since `s` is never replaced. */
    function Size(): (n: int)
      ensures n >= 0
    {
      s.Length
    }

    /** The sizes stored at the roots add up to `size()`. */
    lemma SizesAddUp()
      requires Valid()
      ensures Tally(s[..], StoredSize) == Size()
      ensures forall r :: 0 <= r < Size() && s[r] < 0 ==> -s[r] == |Class(s[..], rank, r)|
    {
    }

    /**
     * The root of `x`'s set, compressing the path from `x`: afterwards every
     * element on that path points directly at the root; the partition and
     * every root's size are unchanged.
     */
    method Find(x: int) returns (res: Result<nat, IndexError>)
      requires Valid()
      modifies s
      ensures Valid()
      ensures !(0 <= x < s.Length) ==> res == Err(IndexOutOfBounds) && s[..] == old(s[..])
      ensures 0 <= x < s.Length ==>
                res == Ok(old(Rep())[x]) && s[..] == Compressed(old(s[..]), rank, x)
      ensures Rep() == old(Rep()) && NumSets() == old(NumSets())
      decreases if 0 <= x < s.Length then MaxRank(rank) - rank[x] else 0
    {
      if x < 0 || x >= s.Length {
        return Err(IndexOutOfBounds);
      }
      ghost var p := s[..];
      if s[x] < 0 {
        CompressedAtRoot(p, rank, x);
        return Ok(x);
      }
      var sub := Find(s[x]);
      ghost var mid := s[..];
      s[x] := sub.value;
      FindStep(p, rank, x, mid, sub.value);
      assert s[..] == mid[x := sub.value];
      res := sub;
    }

    /**
     * Joins the sets of `x` and `y`. Returns -1 if they are already one set;
     * otherwise hangs the root of the smaller set under the root of the larger
     * (on equal sizes x's root under y's) and returns the merged size.
     */
    method Union(x: int, y: int) returns (res: Result<int, IndexError>)
      requires Valid()
      modifies this, s
      ensures Valid()
      ensures UnionSpec(old(s[..]), old(rank), s[..], rank, x, y, res)
      ensures res.Ok? ==> 0 <= x < s.Length && 0 <= y < s.Length
      ensures res.Err? && !(0 <= x < s.Length) ==> s[..] == old(s[..])
      ensures res.Err? && 0 <= x < s.Length ==> s[..] == Compressed(old(s[..]), old(rank), x)
      ensures res == Ok(-1) ==> s[..] == CompressedBoth(old(s[..]), old(rank), x, y)
      ensures res.Ok? && res != Ok(-1) ==>
                s[..] == Linked(CompressedBoth(old(s[..]), old(rank), x, y),
                                Absorber(old(s[..]), old(rank), x, y), Absorbed(old(s[..]), old(rank), x, y))
    {
      ghost var p0 := s[..];
      var fx := Find(x);
      if fx.Err? {
        UnionKeeps(p0, s[..], rank, x, y, Err(IndexOutOfBounds));
        return Err(IndexOutOfBounds);
      }
      ghost var px := s[..];
      var fy := Find(y);
      ghost var p := s[..];
      assert fy.Err? ==> p == px;
      assert fy.Ok? ==> p == CompressedBoth(p0, rank, x, y);
      if fy.Err? {
        UnionKeeps(p0, p, rank, x, y, Err(IndexOutOfBounds));
        return Err(IndexOutOfBounds);
      }
      var r := [fx.value, fy.value];
      if r[0] == r[1] {
        UnionKeeps(p0, p, rank, x, y, Ok(-1));
        return Ok(-1);
      }
      UnionOrder(p0, p, rank, x, y);
      ghost var rank0 := rank;
      ghost var big, small := Absorber(p0, rank, x, y), Absorbed(p0, rank, x, y);
      var l := if s[r[0]] < s[r[1]] then 0 else 1;
      assert r[l] == big && r[1 - l] == small;
      rank := Relinked(rank, big, small);
      Link(r[l], r[1 - l]);
      ghost var q := s[..];
      res := Ok(-s[r[l]]);
      UnionLinks(p0, p, rank0, x, y, big, small, q, rank, res);
    }

    /** The two writes of `union`: `big` takes on both sizes, then `small` points at `big`. */
    method Link(big: int, small: int)
      requires 0 <= big < s.Length && 0 <= small < s.Length && big != small
      modifies s
      ensures s[..] == Linked(old(s[..]), big, small)
    {
      s[big] := s[big] + s[small];
      s[small] := big;
    }

    /** The number of sets: a scan counting the negative entries. */
    method Count() returns (c: nat)
      requires Valid()
      ensures c == NumSets()
      ensures c == |RootSet(s[..], rank)|
    {
      c := 0;
      for i := 0 to s.Length
        invariant c == CountRoots(s[..i])
      {
        assert s[..i + 1][..i] == s[..i];
        if s[i] < 0 {
          c := c + 1;
        }
      }
      assert s[..s.Length] == s[..];
      CountIsNumberOfSets(s[..], rank);
    }
  }

  /** The first union of the example, `union(1, 3)`, on five singletons. */
  method ExampleFirstUnion(d: DisjointSets)
    requires d.Valid() && d.Size() == 5 && d.Rep() == seq(5, i => i) && d.NumSets() == 5
    modifies d, d.s
    ensures d.Valid() && d.NumSets() == 4
    ensures d.Rep()[1] == d.Rep()[3]
    ensures d.Rep()[2] != d.Rep()[3] && d.Rep()[2] != d.Rep()[4] && d.Rep()[3] != d.Rep()[4]
  {
    ghost var p0, rank0 := d.s[..], d.rank;
    var u := d.Union(1, 3);
    UnionJoins(p0, rank0, d.s[..], d.rank, 1, 3, u);
  }

  /** The second union of the example, `union(3, 4)`, which leaves 1 and 3 together and 2 apart. */
  method ExampleSecondUnion(d: DisjointSets)
    requires d.Valid() && d.Size() == 5 && d.NumSets() == 4
    requires d.Rep()[1] == d.Rep()[3]
    requires d.Rep()[2] != d.Rep()[3] && d.Rep()[2] != d.Rep()[4] && d.Rep()[3] != d.Rep()[4]
    modifies d, d.s
    ensures d.Valid() && d.NumSets() == 3
    ensures d.Rep()[1] == d.Rep()[3] && d.Rep()[1] != d.Rep()[2]
  {
    ghost var p0, rank0 := d.s[..], d.rank;
    var u := d.Union(3, 4);
    UnionJoins(p0, rank0, d.s[..], d.rank, 3, 4, u);
  }

  /**
   * The example of the class documentation: on five elements, `union(1, 3)`
   * then `union(3, 4)` leave three sets, 1 and 3 together, 2 apart; a repeated
   * union reports -1.
   */
  method DocumentationExample() returns (c: nat, n: int, x: nat, y: nat, z: nat, again: int)
    ensures c == 3 && n == 5 && x == z && x != y && again == -1
  {
    var d := new DisjointSets(5);
    ExampleFirstUnion(d);
    ExampleSecondUnion(d);
    var fx := d.Find(1);
    var fy := d.Find(2);
    var fz := d.Find(3);
    x, y, z := fx.value, fy.value, fz.value;
    c := d.Count();
    n := d.Size();
    var u3 := d.Union(1, 3);
    again := u3.value;
  }
}
