/**
 * Collision grouping. Each moving entity is identified by its index; the
 * union-find fields `root` and `rank` of the source's collision entities
 * are two arrays indexed the same way. The floating-point contact test is
 * abstracted as a given predicate on pairs of indices.
 */
module Physics {

  /** A bound on every rank, used to measure the height of a root path. */
  ghost function MaxRank(rank: seq<nat>): (m: nat)
    ensures forall i :: 0 <= i < |rank| ==> rank[i] <= m
  {
    if rank == [] then 0
    else
      var m := MaxRank(rank[1..]);
      assert forall i :: 1 <= i < |rank| ==> rank[i] == rank[1..][i - 1];
      if rank[0] > m then rank[0] else m
  }

  /**
   * The union-find invariant: every root link stays inside the array and,
   * unless it is a self-link, leads to an entity of strictly larger rank.
   * So the links form a forest.
   */
  ghost predicate Forest(root: seq<nat>, rank: seq<nat>) {
    |root| == |rank| &&
    forall i :: 0 <= i < |root| ==> root[i] < |root| && (root[i] != i ==> rank[i] < rank[root[i]])
  }

  /** The representative of `x`: the self-linked entity its root path ends at. */
  ghost function Find(root: seq<nat>, rank: seq<nat>, x: nat): (r: nat)
    requires Forest(root, rank) && x < |root|
    ensures r < |root| && root[r] == r
    decreases MaxRank(rank) - rank[x]
  {
    if root[x] == x then x else Find(root, rank, root[x])
  }

  /** An entity that is not a root has a representative of strictly larger rank. */
  lemma {:induction false} FindAbove(root: seq<nat>, rank: seq<nat>, x: nat)
    requires Forest(root, rank) && x < |root|
    ensures root[x] != x ==> rank[x] < rank[Find(root, rank, x)]
    ensures Find(root, rank, x) == x <==> root[x] == x
    decreases MaxRank(rank) - rank[x]
  {
    if root[x] != x {
      FindAbove(root, rank, root[x]);
    }
  }

  /** Ranks only bound the path lengths: they do not change any representative. */
  lemma {:induction false} FindRankFree(root: seq<nat>, rank1: seq<nat>, rank2: seq<nat>, x: nat)
    requires Forest(root, rank1) && Forest(root, rank2) && x < |root|
    ensures Find(root, rank1, x) == Find(root, rank2, x)
    decreases MaxRank(rank1) - rank1[x]
  {
    if root[x] != x {
      FindRankFree(root, rank1, rank2, root[x]);
    }
  }

  /** Pointing `x` straight at its representative keeps the forest. */
  lemma CompressForest(root: seq<nat>, rank: seq<nat>, x: nat)
    requires Forest(root, rank) && x < |root|
    ensures Forest(root[x := Find(root, rank, x)], rank)
  {
    FindAbove(root, rank, x);
  }

  /** Pointing `x` straight at its representative changes no representative. */
  lemma {:induction false} CompressFind(root: seq<nat>, rank: seq<nat>, x: nat, y: nat)
    requires Forest(root, rank) && x < |root| && y < |root|
    requires Forest(root[x := Find(root, rank, x)], rank)
    ensures Find(root[x := Find(root, rank, x)], rank, y) == Find(root, rank, y)
    decreases MaxRank(rank) - rank[y]
  {
    var r := Find(root, rank, x);
    var root' := root[x := r];
    if y == x {
      if r != x {
        assert root'[r] == r;
        assert Find(root', rank, r) == r;
      }
    } else if root[y] != y {
      CompressFind(root, rank, x, root[y]);
    }
  }

  /** Linking root `c` under root `p` sends exactly the members of `c`'s group to `p`. */
  lemma {:induction false} LinkFind(root: seq<nat>, rank: seq<nat>, c: nat, p: nat, y: nat)
    requires Forest(root, rank) && c < |root| && p < |root| && y < |root|
    requires root[c] == c && root[p] == p && rank[c] < rank[p]
    requires Forest(root[c := p], rank)
    ensures Find(root[c := p], rank, y) == if Find(root, rank, y) == c then p else Find(root, rank, y)
    decreases MaxRank(rank) - rank[y]
  {
    var root' := root[c := p];
    if y == c {
      assert root'[p] == p;
      assert Find(root', rank, p) == p;
    } else if root[y] != y {
      LinkFind(root, rank, c, p, root[y]);
    }
  }

  /**
   * The effect of the last two statements of `union` on roots `c` and `p`
   * with rank[c] <= rank[p]: `c` is linked under `p` and `p`'s rank grows
   * by one when the ranks were equal (also when c == p). The result is a
   * forest in which the groups of `c` and `p` are merged under `p`.
   */
  lemma LinkRoots(root: seq<nat>, rank: seq<nat>, c: nat, p: nat)
    requires Forest(root, rank) && c < |root| && p < |root|
    requires root[c] == c && root[p] == p && rank[c] <= rank[p]
    ensures var rank' := rank[p := if rank[c] == rank[p] then rank[p] + 1 else rank[p]];
      && Forest(root[c := p], rank')
      && forall y :: 0 <= y < |root| ==>
           Find(root[c := p], rank', y) == if Find(root, rank, y) == c then p else Find(root, rank, y)
  {
    var rank' := rank[p := if rank[c] == rank[p] then rank[p] + 1 else rank[p]];
    assert Forest(root, rank');
    forall y | 0 <= y < |root|
      ensures Find(root, rank', y) == Find(root, rank, y)
    {
      FindRankFree(root, rank', rank, y);
    }
    if c == p {
      assert root[c := p] == root;
    } else {
      forall y | 0 <= y < |root|
        ensures Find(root[c := p], rank', y) == if Find(root, rank', y) == c then p else Find(root, rank', y)
      {
        LinkFind(root, rank', c, p, y);
      }
    }
  }

  /** A root of rank 0 is the representative of no entity but itself. */
  lemma RankZeroRootAlone(root: seq<nat>, rank: seq<nat>, e: nat)
    requires Forest(root, rank) && e < |root| && root[e] == e && rank[e] == 0
    ensures forall y :: 0 <= y < |root| && Find(root, rank, y) == e ==> y == e
  {
    forall y | 0 <= y < |root| && Find(root, rank, y) == e
      ensures y == e
    {
      FindAbove(root, rank, y);
    }
  }

  /**
   * `findRoot`: returns the representative of `x` and, on the way back,
   * points every entity of the path straight at it (path compression).
   */
  method FindRoot(root: array<nat>, rank: array<nat>, x: nat) returns (r: nat)
    requires root != rank && Forest(root[..], rank[..]) && x < root.Length
    modifies root
    ensures Forest(root[..], rank[..])
    ensures r == Find(old(root[..]), rank[..], x) && root[x] == r
    ensures forall y :: 0 <= y < root.Length ==> Find(root[..], rank[..], y) == Find(old(root[..]), rank[..], y)
    ensures forall y :: 0 <= y < root.Length ==> root[y] == old(root[y]) || root[y] == Find(old(root[..]), rank[..], y)
    ensures forall y :: 0 <= y < root.Length ==> (root[y] == y <==> old(root[y]) == y)
    decreases MaxRank(rank[..]) - rank[x]
  {
    var parent := root[x];
    if parent == x {
      return x;
    }
    FindAbove(root[..], rank[..], x);
    r := FindRoot(root, rank, parent);
    ghost var mid := root[..];
    assert Find(mid, rank[..], x) == r;
    CompressForest(mid, rank[..], x);
    forall y | 0 <= y < root.Length
      ensures Find(mid[x := r], rank[..], y) == Find(mid, rank[..], y)
    {
      CompressFind(mid, rank[..], x, y);
    }
    root[x] := r;
    assert root[..] == mid[x := r];
  }

  /**
   * The link step of `union` on the representatives `a` and `b` found in a
   * forest `root1` that has the same representatives as `root0`.
   */
  lemma UnionRoots(root0: seq<nat>, rank0: seq<nat>, root1: seq<nat>, a: nat, b: nat)
    requires Forest(root0, rank0) && Forest(root1, rank0) && |root1| == |root0|
    requires a < |root0| && b < |root0| && root1[a] == a && root1[b] == b
    requires forall y :: 0 <= y < |root1| ==> Find(root1, rank0, y) == Find(root0, rank0, y)
    ensures var p := if rank0[a] < rank0[b] then b else a;
      var c := if rank0[a] < rank0[b] then a else b;
      var rank' := rank0[p := if rank0[a] == rank0[b] then rank0[p] + 1 else rank0[p]];
      && Forest(root1[c := p], rank')
      && forall y :: 0 <= y < |root1| ==>
           Find(root1[c := p], rank', y) ==
             if Find(root0, rank0, y) == a || Find(root0, rank0, y) == b then p else Find(root0, rank0, y)
  {
    var p := if rank0[a] < rank0[b] then b else a;
    var c := if rank0[a] < rank0[b] then a else b;
    LinkRoots(root1, rank0, c, p);
  }

  /**
   * What `union(e1, e2)` does to the forest: with `a` and `b` the old
   * representatives of `e1` and `e2`, the one of larger rank (`a` on a tie)
   * becomes the parent `p`, only `p`'s rank can change (it grows by one
   * exactly on a tie), and the groups of `a` and `b` merge under `p`.
   */
  ghost predicate Merged(root0: seq<nat>, rank0: seq<nat>, root1: seq<nat>, rank1: seq<nat>, e1: nat, e2: nat)
    requires Forest(root0, rank0) && Forest(root1, rank1) && |root1| == |root0|
    requires e1 < |root0| && e2 < |root0|
  {
    var a, b := Find(root0, rank0, e1), Find(root0, rank0, e2);
    var p := if rank0[a] < rank0[b] then b else a;
    && rank1 == rank0[p := if rank0[a] == rank0[b] then rank0[p] + 1 else rank0[p]]
    && forall y :: 0 <= y < |root1| ==>
         Find(root1, rank1, y) == if Find(root0, rank0, y) == a || Find(root0, rank0, y) == b then p else Find(root0, rank0, y)
  }

  /** Entity `e` touches no other entity: no pair j < i with `touching(i, j)` involves it. */
  ghost predicate Isolated(touching: (nat, nat) -> bool, n: nat, e: nat) {
    forall k :: 0 <= k < n ==> !(k < e && touching(e, k)) && !(e < k && touching(k, e))
  }

  /**
   * Every entity that touches nothing still has rank 0: ranks grow only at
   * the representative of two entities passed to `union`, which touch.
   */
  ghost predicate IsolatedUnranked(rank: seq<nat>, touching: (nat, nat) -> bool) {
    forall e :: 0 <= e < |rank| && Isolated(touching, |rank|, e) ==> rank[e] == 0
  }

  /** A tagging of the entities that gives every touching pair j < i one tag. */
  ghost predicate KeepsTouching(tag: nat -> nat, touching: (nat, nat) -> bool, n: nat) {
    forall i, j :: 0 <= j < i < n && touching(i, j) ==> tag(i) == tag(j)
  }

  /** Every entity carries the tag of its representative, so each group has a single tag. */
  ghost predicate SameLabels(root: seq<nat>, rank: seq<nat>, tag: nat -> nat)
    requires Forest(root, rank)
  {
    forall x :: 0 <= x < |root| ==> tag(x) == tag(Find(root, rank, x))
  }

  /** `union` of a touching pair keeps every entity that touches nothing at rank 0. */
  lemma UnionUnranked(root0: seq<nat>, rank0: seq<nat>, root1: seq<nat>, rank1: seq<nat>, e1: nat, e2: nat,
                      touching: (nat, nat) -> bool)
    requires Forest(root0, rank0) && Forest(root1, rank1) && |root1| == |root0|
    requires e2 < e1 < |root0| && touching(e1, e2)
    requires Merged(root0, rank0, root1, rank1, e1, e2) && IsolatedUnranked(rank0, touching)
    ensures IsolatedUnranked(rank1, touching)
  {
    var a, b := Find(root0, rank0, e1), Find(root0, rank0, e2);
    var p := if rank0[a] < rank0[b] then b else a;
    if rank0[p] == 0 {
      RankZeroRootAlone(root0, rank0, p);
      assert p == e1 || p == e2;
      assert !Isolated(touching, |rank1|, p);
    }
  }

  /** `union` of two entities with one tag keeps every group single-labelled. */
  lemma UnionLabels(root0: seq<nat>, rank0: seq<nat>, root1: seq<nat>, rank1: seq<nat>, e1: nat, e2: nat,
                    tag: nat -> nat)
    requires Forest(root0, rank0) && Forest(root1, rank1) && |root1| == |root0|
    requires e1 < |root0| && e2 < |root0|
    requires Merged(root0, rank0, root1, rank1, e1, e2)
    requires SameLabels(root0, rank0, tag) && tag(e1) == tag(e2)
    ensures SameLabels(root1, rank1, tag)
  {
    var a, b := Find(root0, rank0, e1), Find(root0, rank0, e2);
    var p := if rank0[a] < rank0[b] then b else a;
    assert tag(a) == tag(e1) && tag(b) == tag(e2);
    forall x | 0 <= x < |root1|
      ensures tag(x) == tag(Find(root1, rank1, x))
    {
      assert tag(x) == tag(Find(root0, rank0, x));
    }
  }

  /**
   * `union`: joins the groups of `e1` and `e2`. The representative of larger
   * rank becomes the parent (the first one on a tie); the parent's rank
   * grows by one exactly when the ranks were equal, and that includes the
   * case where both already share a representative.
   */
  method Union(root: array<nat>, rank: array<nat>, e1: nat, e2: nat)
    requires root != rank && Forest(root[..], rank[..]) && e1 < root.Length && e2 < root.Length
    modifies root, rank
    ensures Forest(root[..], rank[..])
    ensures Find(root[..], rank[..], e1) == Find(root[..], rank[..], e2)
    ensures var a, b := Find(old(root[..]), old(rank[..]), e1), Find(old(root[..]), old(rank[..]), e2);
      var p := if old(rank[a]) < old(rank[b]) then b else a;
      var c := if old(rank[a]) < old(rank[b]) then a else b;
      root[c] == p
    ensures Merged(old(root[..]), old(rank[..]), root[..], rank[..], e1, e2)
  {
    ghost var root0, rank0 := root[..], rank[..];
    var r1 := FindRoot(root, rank, e1);
    var r2 := FindRoot(root, rank, e2);
    ghost var root1 := root[..];
    UnionRoots(root0, rank0, root1, r1, r2);
    ghost var p := if rank0[r1] < rank0[r2] then r2 else r1;
    ghost var rank' := rank0[p := if rank0[r1] == rank0[r2] then rank0[p] + 1 else rank0[p]];
    if rank[r1] < rank[r2] {
      r1, r2 := r2, r1;
    }
    root[r2] := r1;
    if rank[r1] == rank[r2] {
      rank[r1] := rank[r1] + 1;
    }
    assert root[..] == root1[r2 := r1];
    assert rank[..] == rank';
  }

  /** Every two entities that share a representative in the first forest share one in the second. */
  ghost predicate Coarser(root: seq<nat>, rank: seq<nat>, root0: seq<nat>, rank0: seq<nat>)
    requires Forest(root, rank) && Forest(root0, rank0) && |root| == |root0|
  {
    forall x, y :: 0 <= x < |root| && 0 <= y < |root| && Find(root0, rank0, x) == Find(root0, rank0, y)
      ==> Find(root, rank, x) == Find(root, rank, y)
  }

  /** Coarsening is transitive. */
  lemma CoarserTrans(root2: seq<nat>, rank2: seq<nat>, root1: seq<nat>, rank1: seq<nat>, root0: seq<nat>, rank0: seq<nat>)
    requires Forest(root2, rank2) && Forest(root1, rank1) && Forest(root0, rank0)
    requires |root2| == |root1| == |root0|
    requires Coarser(root2, rank2, root1, rank1) && Coarser(root1, rank1, root0, rank0)
    ensures Coarser(root2, rank2, root0, rank0)
  {
    forall x, y | 0 <= x < |root2| && 0 <= y < |root2| && Find(root0, rank0, x) == Find(root0, rank0, y)
      ensures Find(root2, rank2, x) == Find(root2, rank2, y)
    {
      assert Find(root1, rank1, x) == Find(root1, rank1, y);
    }
  }

  /** After `union(i, j)`, the joins of `i` with the entities before `j` still hold. */
  lemma JoinedKeeps(root2: seq<nat>, rank2: seq<nat>, root1: seq<nat>, rank1: seq<nat>, root0: seq<nat>, rank0: seq<nat>,
                    touching: (nat, nat) -> bool, i: nat, j: nat)
    requires Forest(root2, rank2) && Forest(root1, rank1) && Forest(root0, rank0)
    requires |root2| == |root1| == |root0| && j < i < |root0|
    requires Coarser(root2, rank2, root1, rank1) && Coarser(root1, rank1, root0, rank0)
    requires forall j' :: 0 <= j' < j && touching(i, j') ==> Find(root1, rank1, i) == Find(root1, rank1, j')
    requires Find(root2, rank2, i) == Find(root2, rank2, j)
    ensures Coarser(root2, rank2, root0, rank0)
    ensures forall j' :: 0 <= j' <= j && touching(i, j') ==> Find(root2, rank2, i) == Find(root2, rank2, j')
  {
    CoarserTrans(root2, rank2, root1, rank1, root0, rank0);
    forall j' | 0 <= j' < j && touching(i, j')
      ensures Find(root2, rank2, i) == Find(root2, rank2, j')
    {
      assert Find(root1, rank1, i) == Find(root1, rank1, j');
    }
  }

  /**
   * A `union` of a touching pair j < i keeps the two facts that hold since
   * the start of the join: untouched entities at rank 0, and groups of one
   * tag for every tagging that gives touching entities one tag.
   */
  lemma MergedKeeps(root2: seq<nat>, rank2: seq<nat>, root1: seq<nat>, rank1: seq<nat>, root0: seq<nat>, rank0: seq<nat>,
                    touching: (nat, nat) -> bool, i: nat, j: nat)
    requires Forest(root2, rank2) && Forest(root1, rank1) && Forest(root0, rank0)
    requires |root2| == |root1| == |root0| && j < i < |root0| && touching(i, j)
    requires Merged(root1, rank1, root2, rank2, i, j)
    requires IsolatedUnranked(rank0, touching) ==> IsolatedUnranked(rank1, touching)
    requires forall tag :: KeepsTouching(tag, touching, |root0|) && SameLabels(root0, rank0, tag) ==> SameLabels(root1, rank1, tag)
    ensures IsolatedUnranked(rank0, touching) ==> IsolatedUnranked(rank2, touching)
    ensures forall tag :: KeepsTouching(tag, touching, |root0|) && SameLabels(root0, rank0, tag) ==> SameLabels(root2, rank2, tag)
  {
    if IsolatedUnranked(rank0, touching) {
      UnionUnranked(root1, rank1, root2, rank2, i, j, touching);
    }
    forall tag | KeepsTouching(tag, touching, |root0|) && SameLabels(root0, rank0, tag)
      ensures SameLabels(root2, rank2, tag)
    {
      assert tag(i) == tag(j);
      UnionLabels(root1, rank1, root2, rank2, i, j, tag);
    }
  }

  /** One iteration of the inner join loop that calls `union(i, j)` keeps all of the loop's invariants. */
  lemma JoinStep(root2: seq<nat>, rank2: seq<nat>, root1: seq<nat>, rank1: seq<nat>, root0: seq<nat>, rank0: seq<nat>,
                 touching: (nat, nat) -> bool, i: nat, j: nat)
    requires Forest(root2, rank2) && Forest(root1, rank1) && Forest(root0, rank0)
    requires |root2| == |root1| == |root0| && j < i < |root0| && touching(i, j)
    requires Merged(root1, rank1, root2, rank2, i, j)
    requires Coarser(root1, rank1, root0, rank0)
    requires forall j' :: 0 <= j' < j && touching(i, j') ==> Find(root1, rank1, i) == Find(root1, rank1, j')
    requires IsolatedUnranked(rank0, touching) ==> IsolatedUnranked(rank1, touching)
    requires forall tag :: KeepsTouching(tag, touching, |root0|) && SameLabels(root0, rank0, tag) ==> SameLabels(root1, rank1, tag)
    ensures Coarser(root2, rank2, root0, rank0)
    ensures forall j' :: 0 <= j' <= j && touching(i, j') ==> Find(root2, rank2, i) == Find(root2, rank2, j')
    ensures IsolatedUnranked(rank0, touching) ==> IsolatedUnranked(rank2, touching)
    ensures forall tag :: KeepsTouching(tag, touching, |root0|) && SameLabels(root0, rank0, tag) ==> SameLabels(root2, rank2, tag)
  {
    assert Coarser(root2, rank2, root1, rank1);
    JoinedKeeps(root2, rank2, root1, rank1, root0, rank0, touching, i, j);
    MergedKeeps(root2, rank2, root1, rank1, root0, rank0, touching, i, j);
  }

  /**
   * One pass of the inner join loop: entity i is joined with every earlier
   * entity j it touches.
   */
  method JoinEarlier(root: array<nat>, rank: array<nat>, touching: (nat, nat) -> bool, i: nat)
    requires root != rank && Forest(root[..], rank[..]) && i < root.Length
    modifies root, rank
    ensures Forest(root[..], rank[..]) && Coarser(root[..], rank[..], old(root[..]), old(rank[..]))
    ensures forall j :: 0 <= j < i && touching(i, j) ==> Find(root[..], rank[..], i) == Find(root[..], rank[..], j)
    ensures IsolatedUnranked(old(rank[..]), touching) ==> IsolatedUnranked(rank[..], touching)
    ensures forall tag :: KeepsTouching(tag, touching, root.Length) && SameLabels(old(root[..]), old(rank[..]), tag) ==>
      SameLabels(root[..], rank[..], tag)
  {
    ghost var root0, rank0 := root[..], rank[..];
    var j := 0;
    while j < i
      invariant 0 <= j <= i
      invariant Forest(root[..], rank[..]) && Coarser(root[..], rank[..], root0, rank0)
      invariant forall j' :: 0 <= j' < j && touching(i, j') ==> Find(root[..], rank[..], i) == Find(root[..], rank[..], j')
      invariant IsolatedUnranked(rank0, touching) ==> IsolatedUnranked(rank[..], touching)
      invariant forall tag :: KeepsTouching(tag, touching, root.Length) && SameLabels(root0, rank0, tag) ==>
        SameLabels(root[..], rank[..], tag)
    {
      if touching(i, j) {
        ghost var root1, rank1 := root[..], rank[..];
        Union(root, rank, i, j);
        JoinStep(root[..], rank[..], root1, rank1, root0, rank0, touching, i, j);
      }
      j := j + 1;
    }
  }

  /** After the pass for entity `i`, the joins of all earlier passes still hold. */
  lemma JoinedAllKeeps(root2: seq<nat>, rank2: seq<nat>, root1: seq<nat>, rank1: seq<nat>,
                       touching: (nat, nat) -> bool, i: nat)
    requires Forest(root2, rank2) && Forest(root1, rank1) && |root2| == |root1| && i < |root1|
    requires Coarser(root2, rank2, root1, rank1)
    requires forall i', j' :: 0 <= j' < i' < i && touching(i', j') ==> Find(root1, rank1, i') == Find(root1, rank1, j')
    requires forall j :: 0 <= j < i && touching(i, j) ==> Find(root2, rank2, i) == Find(root2, rank2, j)
    ensures forall i', j' :: 0 <= j' < i' <= i && touching(i', j') ==> Find(root2, rank2, i') == Find(root2, rank2, j')
  {
    forall i', j' | 0 <= j' < i' <= i && touching(i', j')
      ensures Find(root2, rank2, i') == Find(root2, rank2, j')
    {
      if i' < i {
        assert Find(root1, rank1, i') == Find(root1, rank1, j');
      } else {
        assert 0 <= j' < i && touching(i, j');
      }
    }
  }

  /**
   * The join loop of `updateColliders`: every pair j < i of touching
   * entities is passed to `union`. Afterwards every such pair shares a
   * representative, and entities that shared one before still do.
   */
  method JoinTouching(root: array<nat>, rank: array<nat>, touching: (nat, nat) -> bool)
    requires root != rank && Forest(root[..], rank[..])
    modifies root, rank
    ensures Forest(root[..], rank[..]) && Coarser(root[..], rank[..], old(root[..]), old(rank[..]))
    ensures forall i, j :: 0 <= j < i < root.Length && touching(i, j) ==>
      Find(root[..], rank[..], i) == Find(root[..], rank[..], j)
    ensures IsolatedUnranked(old(rank[..]), touching) ==> IsolatedUnranked(rank[..], touching)
    ensures forall tag :: KeepsTouching(tag, touching, root.Length) && SameLabels(old(root[..]), old(rank[..]), tag) ==>
      SameLabels(root[..], rank[..], tag)
  {
    ghost var root0, rank0 := root[..], rank[..];
    var i := 1;
    while i < root.Length
      invariant 1 <= i && (root.Length > 0 ==> i <= root.Length)
      invariant Forest(root[..], rank[..]) && Coarser(root[..], rank[..], root0, rank0)
      invariant forall i', j' :: 0 <= j' < i' < i && i' < root.Length && touching(i', j') ==>
        Find(root[..], rank[..], i') == Find(root[..], rank[..], j')
      invariant IsolatedUnranked(rank0, touching) ==> IsolatedUnranked(rank[..], touching)
      invariant forall tag :: KeepsTouching(tag, touching, root.Length) && SameLabels(root0, rank0, tag) ==>
        SameLabels(root[..], rank[..], tag)
    {
      ghost var root1, rank1 := root[..], rank[..];
      JoinEarlier(root, rank, touching, i);
      CoarserTrans(root[..], rank[..], root1, rank1, root0, rank0);
      JoinedAllKeeps(root[..], rank[..], root1, rank1, touching, i);
      i := i + 1;
    }
  }

  /** A sequence of indices in strictly increasing order (so without repeats). */
  predicate Ascending(s: seq<nat>) {
    forall i, j :: 0 <= i < j < |s| ==> s[i] < s[j]
  }

  /** The test `entity.root == entity && !entity.rank` that sends an entity to `singles`. */
  predicate IsSingle(root: seq<nat>, rank: seq<nat>, e: nat)
    requires e < |root| && e < |rank|
  {
    root[e] == e && rank[e] == 0
  }

  /**
   * The buckets after the partition loop has placed entities 0..e-1:
   * `singles` holds, in index order, the ones that pass the singles test;
   * every other one is in the group keyed by its representative, in index
   * order; group keys are listed once each in `order`, in the order the
   * groups were created (by their first, smallest member).
   */
  ghost predicate Buckets(root: seq<nat>, rank: seq<nat>, e: nat,
                          singles: seq<nat>, order: seq<nat>, groups: map<nat, seq<nat>>)
    requires Forest(root, rank) && e <= |root|
  {
    && Ascending(singles)
    && (forall x: nat :: x in singles <==> x < e && IsSingle(root, rank, x))
    && (forall g, h :: 0 <= g < h < |order| ==> order[g] != order[h])
    && (forall r :: r in groups <==> r in order)
    && (forall r :: r in groups ==> groups[r] != [] && Ascending(groups[r]))
    && (forall g, h :: 0 <= g < h < |order| ==> groups[order[g]][0] < groups[order[h]][0])
    && (forall r, x: nat :: r in groups && x in groups[r] ==> x < e)
    && (forall r, x: nat :: r in groups && x in groups[r] ==> x < |root| && !IsSingle(root, rank, x))
    && (forall r, x: nat :: r in groups && x in groups[r] ==> x < |root| && Find(root, rank, x) == r)
    && (forall x: nat :: x < e && !IsSingle(root, rank, x) ==>
          Find(root, rank, x) in groups && x in groups[Find(root, rank, x)])
  }

  /** Placing a single entity extends `singles`. */
  lemma PlaceSingle(root: seq<nat>, rank: seq<nat>, e: nat,
                    singles: seq<nat>, order: seq<nat>, groups: map<nat, seq<nat>>)
    requires Forest(root, rank) && e < |root| && IsSingle(root, rank, e)
    requires Buckets(root, rank, e, singles, order, groups)
    ensures Buckets(root, rank, e + 1, singles + [e], order, groups)
  {
    assert forall k :: 0 <= k < |singles| ==> singles[k] in singles;
  }

  /** Placing a grouped entity whose representative already has a group appends it to that group. */
  lemma PlaceInGroup(root: seq<nat>, rank: seq<nat>, e: nat, r: nat,
                     singles: seq<nat>, order: seq<nat>, groups: map<nat, seq<nat>>)
    requires Forest(root, rank) && e < |root| && !IsSingle(root, rank, e)
    requires r == Find(root, rank, e) && r in groups
    requires Buckets(root, rank, e, singles, order, groups)
    ensures Buckets(root, rank, e + 1, singles, order, groups[r := groups[r] + [e]])
  {
    var groups' := groups[r := groups[r] + [e]];
    forall k | 0 <= k < |groups[r]|
      ensures groups[r][k] < e
    {
      var x: nat := groups[r][k];
      assert x in groups[r];
    }
    assert Ascending(groups'[r]);
    forall q, x: nat | q in groups'
      ensures x in groups'[q] <==> x < e + 1 && !IsSingle(root, rank, x) && Find(root, rank, x) == q
    {
      if q == r {
        assert x in groups'[q] <==> x in groups[r] || x == e;
        assert x in groups[r] <==> x < e && !IsSingle(root, rank, x) && Find(root, rank, x) == q;
      } else {
        assert groups'[q] == groups[q];
      }
    }
  }

  /** Placing a grouped entity whose representative has no group yet creates the group `[e]`. */
  lemma PlaceNewGroup(root: seq<nat>, rank: seq<nat>, e: nat, r: nat,
                      singles: seq<nat>, order: seq<nat>, groups: map<nat, seq<nat>>)
    requires Forest(root, rank) && e < |root| && !IsSingle(root, rank, e)
    requires r == Find(root, rank, e) && r !in groups
    requires Buckets(root, rank, e, singles, order, groups)
    ensures Buckets(root, rank, e + 1, singles, order + [r], groups[r := [e]])
  {
    var groups' := groups[r := [e]];
    var order' := order + [r];
    assert r !in order;
    forall g, h | 0 <= g < h < |order'|
      ensures groups'[order'[g]][0] < groups'[order'[h]][0]
    {
      var q := order[g];
      assert groups[q][0] in groups[q];
      if h == |order| {
        assert groups'[order'[h]] == [e];
      }
    }
    forall q, x: nat | q in groups'
      ensures x in groups'[q] <==> x < e + 1 && !IsSingle(root, rank, x) && Find(root, rank, x) == q
    {
      if q == r && x < e && !IsSingle(root, rank, x) && Find(root, rank, x) == q {
        assert false;
      }
    }
  }

  /**
   * The partition loop of `updateColliders`: each entity goes to `singles`
   * when it is a root of rank 0, and otherwise to the group keyed by its
   * representative; `order` lists the group keys in the order the groups
   * were created, which is the iteration order of the source's Map.
   */
  method Partition(root: array<nat>, rank: array<nat>)
      returns (singles: seq<nat>, order: seq<nat>, groups: map<nat, seq<nat>>)
    requires root != rank && Forest(root[..], rank[..])
    modifies root
    ensures Forest(root[..], rank[..])
    ensures forall y :: 0 <= y < root.Length ==> Find(root[..], rank[..], y) == Find(old(root[..]), rank[..], y)
    ensures Buckets(old(root[..]), rank[..], root.Length, singles, order, groups)
  {
    ghost var root0, rank0 := root[..], rank[..];
    singles, order, groups := [], [], map[];
    var e := 0;
    while e < root.Length
      invariant 0 <= e <= root.Length
      invariant Forest(root[..], rank0)
      invariant forall y :: 0 <= y < root.Length ==> Find(root[..], rank0, y) == Find(root0, rank0, y)
      invariant forall y :: 0 <= y < root.Length ==> (root[y] == y <==> root0[y] == y)
      invariant Buckets(root0, rank0, e, singles, order, groups)
    {
      assert rank[..] == rank0;
      if root[e] == e && rank[e] == 0 {
        assert IsSingle(root0, rank0, e);
        PlaceSingle(root0, rank0, e, singles, order, groups);
        singles := singles + [e];
      } else {
        assert !IsSingle(root0, rank0, e) by { assert root[e] == e <==> root0[e] == e; }
        var r := FindRoot(root, rank, e);
        assert r == Find(root0, rank0, e);
        if r in groups {
          PlaceInGroup(root0, rank0, e, r, singles, order, groups);
          groups := groups[r := groups[r] + [e]];
        } else {
          PlaceNewGroup(root0, rank0, e, r, singles, order, groups);
          groups := groups[r := [e]];
          order := order + [r];
        }
      }
      e := e + 1;
    }
  }

  /** Two different entities that share a representative are both grouped, not single. */
  lemma JoinedNotSingle(root: seq<nat>, rank: seq<nat>, i: nat, j: nat)
    requires Forest(root, rank) && i < |root| && j < |root| && i != j
    requires Find(root, rank, i) == Find(root, rank, j)
    ensures !IsSingle(root, rank, i) && !IsSingle(root, rank, j)
  {
    if IsSingle(root, rank, i) {
      RankZeroRootAlone(root, rank, i);
      FindAbove(root, rank, i);
    }
    if IsSingle(root, rank, j) {
      RankZeroRootAlone(root, rank, j);
      FindAbove(root, rank, j);
    }
  }

  /** The loop `for (const entity of bucket) ent.pos = madd(ent.pos, ent.velocity, frameDT)`. */
  method AdvanceEach<P>(pos: array<P>, bucket: seq<nat>, advance: (nat, P) -> P)
    requires Ascending(bucket) && forall k :: 0 <= k < |bucket| ==> bucket[k] < pos.Length
    modifies pos
    ensures forall x :: 0 <= x < pos.Length ==> pos[x] == if x in bucket then advance(x, old(pos[x])) else old(pos[x])
  {
    var k := 0;
    while k < |bucket|
      invariant 0 <= k <= |bucket|
      invariant forall x :: 0 <= x < pos.Length ==> pos[x] == if x in bucket[..k] then advance(x, old(pos[x])) else old(pos[x])
    {
      var e := bucket[k];
      assert e !in bucket[..k];
      pos[e] := advance(e, pos[e]);
      assert bucket[..k + 1] == bucket[..k] + [e];
      k := k + 1;
    }
    assert bucket[..k] == bucket;
  }

  /**
   * What the partition promises once every entity is placed: entities
   * joined by the join loop are never singles and share a group, and every
   * entity is a single or a member of some group.
   */
  lemma PartitionShape(root: seq<nat>, rank: seq<nat>, touching: (nat, nat) -> bool,
                       singles: seq<nat>, order: seq<nat>, groups: map<nat, seq<nat>>)
    requires Forest(root, rank)
    requires forall i, j :: 0 <= j < i < |root| && touching(i, j) ==> Find(root, rank, i) == Find(root, rank, j)
    requires Buckets(root, rank, |root|, singles, order, groups)
    ensures forall i, j :: 0 <= j < i < |root| && touching(i, j) ==>
      i !in singles && j !in singles && exists r :: r in groups && i in groups[r] && j in groups[r]
    ensures forall e :: 0 <= e < |root| ==> (e in singles || exists r :: r in groups && e in groups[r])
    ensures forall r, e :: r in groups && e in groups[r] ==> e !in singles
    ensures forall r1, r2, e :: r1 in groups && r2 in groups && e in groups[r1] && e in groups[r2] ==> r1 == r2
  {
    forall i, j | 0 <= j < i < |root| && touching(i, j)
      ensures i !in singles && j !in singles && exists r :: r in groups && i in groups[r] && j in groups[r]
    {
      JoinedNotSingle(root, rank, i, j);
      var r := Find(root, rank, i);
      assert r in groups && i in groups[r] && j in groups[r];
    }
    forall e | 0 <= e < |root|
      ensures e in singles || exists r :: r in groups && e in groups[r]
    {
      if e !in singles {
        var r := Find(root, rank, e);
        assert r in groups && e in groups[r];
      }
    }
    forall r, e | r in groups && e in groups[r]
      ensures e !in singles
    {
      assert !IsSingle(root, rank, e);
    }
    forall r1, r2, e | r1 in groups && r2 in groups && e in groups[r1] && e in groups[r2]
      ensures r1 == r2
    {
      assert Find(root, rank, e) == r1 && Find(root, rank, e) == r2;
    }
  }

  /**
   * A group, given as the sequence `g` of the grouped entities with
   * representative `r`, has at least two members: a lone entity would be a
   * rank-0 root, which the singles test catches.
   */
  lemma GroupPaired(root: seq<nat>, rank: seq<nat>, touching: (nat, nat) -> bool, r: nat, g: seq<nat>)
    requires Forest(root, rank) && r < |root|
    requires forall i, j :: 0 <= j < i < |root| && touching(i, j) ==> Find(root, rank, i) == Find(root, rank, j)
    requires IsolatedUnranked(rank, touching)
    requires g != []
    requires forall x: nat :: x in g ==> x < |root| && !IsSingle(root, rank, x) && Find(root, rank, x) == r
    requires forall x: nat :: x < |root| && !IsSingle(root, rank, x) && Find(root, rank, x) == r ==> x in g
    ensures |g| >= 2
  {
    var x := g[0];
    assert x in g;
    var y: nat;
    if x != r {
      FindAbove(root, rank, x);
      y := r;
    } else {
      assert !Isolated(touching, |root|, r);
      var k :| 0 <= k < |root| && ((k < r && touching(r, k)) || (r < k && touching(k, r)));
      FindAbove(root, rank, k);
      y := k;
    }
    assert y in g;
    var iy :| 0 <= iy < |g| && g[iy] == y;
    assert iy != 0;
  }

  /** Every group of the partition has at least two members. */
  lemma GroupsPaired(root: seq<nat>, rank: seq<nat>, touching: (nat, nat) -> bool,
                     singles: seq<nat>, order: seq<nat>, groups: map<nat, seq<nat>>)
    requires Forest(root, rank)
    requires forall i, j :: 0 <= j < i < |root| && touching(i, j) ==> Find(root, rank, i) == Find(root, rank, j)
    requires IsolatedUnranked(rank, touching)
    requires Buckets(root, rank, |root|, singles, order, groups)
    ensures forall r :: r in groups ==> |groups[r]| >= 2
  {
    forall r | r in groups
      ensures |groups[r]| >= 2
    {
      var g := groups[r];
      assert forall x: nat :: x in g ==> x < |root| && !IsSingle(root, rank, x) && Find(root, rank, x) == r;
      assert g != [] && g[0] in g;
      assert r == Find(root, rank, g[0]) && r < |root|;
      forall x: nat | x < |root| && !IsSingle(root, rank, x) && Find(root, rank, x) == r
        ensures x in g
      {
        assert Find(root, rank, x) in groups && x in groups[Find(root, rank, x)];
      }
      GroupPaired(root, rank, touching, r, g);
    }
  }

  /** For every tagging that gives touching entities one tag, each group has one tag. */
  lemma GroupsTagged(root: seq<nat>, rank: seq<nat>, touching: (nat, nat) -> bool,
                     singles: seq<nat>, order: seq<nat>, groups: map<nat, seq<nat>>)
    requires Forest(root, rank)
    requires forall tag :: KeepsTouching(tag, touching, |root|) ==> SameLabels(root, rank, tag)
    requires Buckets(root, rank, |root|, singles, order, groups)
    ensures forall tag, r, x, y :: KeepsTouching(tag, touching, |root|) && r in groups && x in groups[r] && y in groups[r] ==>
      tag(x) == tag(y)
  {
    forall tag, r, x, y | KeepsTouching(tag, touching, |root|) && r in groups && x in groups[r] && y in groups[r]
      ensures tag(x) == tag(y)
    {
      assert SameLabels(root, rank, tag);
      assert Find(root, rank, x) == r && Find(root, rank, y) == r;
      assert tag(x) == tag(Find(root, rank, x)) && tag(y) == tag(Find(root, rank, y));
    }
  }

  /** An entity that touches nothing is never joined, so it passes the singles test. */
  lemma IsolatedSingle(root: seq<nat>, rank: seq<nat>, touching: (nat, nat) -> bool, e: nat)
    requires Forest(root, rank) && e < |root|
    requires IsolatedUnranked(rank, touching)
    requires forall tag :: KeepsTouching(tag, touching, |root|) ==> SameLabels(root, rank, tag)
    requires Isolated(touching, |root|, e)
    ensures IsSingle(root, rank, e)
  {
    var tag := (z: nat) => if z == e then 1 else 0;
    assert KeepsTouching(tag, touching, |root|);
    assert tag(Find(root, rank, e)) == tag(e);
    FindAbove(root, rank, e);
  }

  /**
   * The converse of `PartitionShape`: groups hold only entities that the
   * join had reason to merge. Every group has at least two members; an
   * entity that touches nothing is a single; and for every tagging that
   * gives touching entities one tag, each group has one tag, so a group
   * never reaches beyond a chain of touching pairs.
   */
  lemma PartitionExact(root: seq<nat>, rank: seq<nat>, touching: (nat, nat) -> bool,
                       singles: seq<nat>, order: seq<nat>, groups: map<nat, seq<nat>>)
    requires Forest(root, rank)
    requires forall i, j :: 0 <= j < i < |root| && touching(i, j) ==> Find(root, rank, i) == Find(root, rank, j)
    requires IsolatedUnranked(rank, touching)
    requires forall tag :: KeepsTouching(tag, touching, |root|) ==> SameLabels(root, rank, tag)
    requires Buckets(root, rank, |root|, singles, order, groups)
    ensures forall r :: r in groups ==> |groups[r]| >= 2
    ensures forall e :: 0 <= e < |root| && Isolated(touching, |root|, e) ==> e in singles
    ensures forall tag, r, x, y :: KeepsTouching(tag, touching, |root|) && r in groups && x in groups[r] && y in groups[r] ==>
      tag(x) == tag(y)
  {
    GroupsPaired(root, rank, touching, singles, order, groups);
    GroupsTagged(root, rank, touching, singles, order, groups);
    forall e | 0 <= e < |root| && Isolated(touching, |root|, e)
      ensures e in singles
    {
      IsolatedSingle(root, rank, touching, e);
    }
  }

  /** The loop over `groups`: every member of every group is advanced once. */
  method AdvanceGroups<P>(pos: array<P>, advance: (nat, P) -> P, order: seq<nat>, groups: map<nat, seq<nat>>,
                          ghost root: seq<nat>, ghost rank: seq<nat>, ghost singles: seq<nat>)
    requires Forest(root, rank) && |root| == pos.Length
    requires Buckets(root, rank, |root|, singles, order, groups)
    modifies pos
    ensures forall x :: 0 <= x < pos.Length ==>
      pos[x] == if IsSingle(root, rank, x) then old(pos[x]) else advance(x, old(pos[x]))
  {
    var t := 0;
    while t < |order|
      invariant 0 <= t <= |order|
      invariant forall x :: 0 <= x < pos.Length ==>
        pos[x] == if !IsSingle(root, rank, x) && Find(root, rank, x) in order[..t] then advance(x, old(pos[x])) else old(pos[x])
    {
      var r := order[t];
      assert r !in order[..t];
      assert r in groups;
      assert forall k :: 0 <= k < |groups[r]| ==> groups[r][k] in groups[r];
      AdvanceEach(pos, groups[r], advance);
      assert order[..t + 1] == order[..t] + [r];
      t := t + 1;
    }
    assert order[..t] == order;
  }

  /**
   * `updateColliders`: one group per entity, the join loop, the partition,
   * then every entity's position advanced (singles first, then the groups
   * in creation order). `pos[e]` is the position of collider e and
   * `advance(e, p)` the position one frame later at e's velocity. The
   * partition is returned so that its shape can be stated.
   */
  method UpdateColliders<P>(pos: array<P>, touching: (nat, nat) -> bool, advance: (nat, P) -> P)
      returns (singles: seq<nat>, order: seq<nat>, groups: map<nat, seq<nat>>)
    modifies pos
    ensures forall e :: 0 <= e < pos.Length ==> pos[e] == advance(e, old(pos[e]))
    ensures forall i, j :: 0 <= j < i < pos.Length && touching(i, j) ==>
      i !in singles && j !in singles && exists r :: r in groups && i in groups[r] && j in groups[r]
    ensures forall e :: 0 <= e < pos.Length ==> (e in singles || exists r :: r in groups && e in groups[r])
    ensures forall r, e :: r in groups && e in groups[r] ==> e !in singles
    ensures forall r1, r2, e :: r1 in groups && r2 in groups && e in groups[r1] && e in groups[r2] ==> r1 == r2
    ensures forall r :: r in groups ==> |groups[r]| >= 2
    ensures forall e :: 0 <= e < pos.Length && Isolated(touching, pos.Length, e) ==> e in singles
    ensures forall tag, r, x, y :: KeepsTouching(tag, touching, pos.Length) && r in groups && x in groups[r] && y in groups[r] ==>
      tag(x) == tag(y)
  {
    var n := pos.Length;
    var root := new nat[n](i => i);
    var rank := new nat[n](i => 0);
    assert Forest(root[..], rank[..]);
    assert forall x :: 0 <= x < n ==> Find(root[..], rank[..], x) == x;
    JoinTouching(root, rank, touching);
    ghost var root1, rank1 := root[..], rank[..];
    singles, order, groups := Partition(root, rank);
    PartitionShape(root1, rank1, touching, singles, order, groups);
    PartitionExact(root1, rank1, touching, singles, order, groups);
    assert forall k :: 0 <= k < |singles| ==> singles[k] in singles;
    AdvanceEach(pos, singles, advance);
    ghost var pos1 := pos[..];
    AdvanceGroups(pos, advance, order, groups, root1, rank1, singles);
    assert forall e :: 0 <= e < n ==> pos1[e] == if e in singles then advance(e, old(pos[e])) else old(pos[e]);
  }

  /**
   * The colliders that `findColliders` reports, in list order: those that
   * are not dead and that touch the query circle. `touches(c)` stands for
   * the test that the distance from the circle's center to c is at most
   * the sum of the two radii.
   */
  function Touching<C>(colliders: seq<C>, isDead: C -> bool, touches: C -> bool): (r: seq<C>)
    ensures |r| <= |colliders|
  {
    if colliders == [] then []
    else
      var last := colliders[|colliders| - 1];
      Touching(colliders[..|colliders| - 1], isDead, touches) + (if !isDead(last) && touches(last) then [last] else [])
  }

  /** A collider is reported exactly when it is in the list, alive and touching. */
  lemma {:induction false} TouchingMembers<C>(colliders: seq<C>, isDead: C -> bool, touches: C -> bool, c: C)
    ensures c in Touching(colliders, isDead, touches) <==> c in colliders && !isDead(c) && touches(c)
    decreases |colliders|
  {
    if colliders != [] {
      var init := colliders[..|colliders| - 1];
      TouchingMembers(init, isDead, touches, c);
      assert colliders == init + [colliders[|colliders| - 1]];
    }
  }

  /** Filtering a concatenation filters each part and keeps them in order. */
  lemma {:induction false} TouchingAppend<C>(a: seq<C>, b: seq<C>, isDead: C -> bool, touches: C -> bool)
    ensures Touching(a + b, isDead, touches) == Touching(a, isDead, touches) + Touching(b, isDead, touches)
    decreases |b|
  {
    if b == [] {
      assert a + b == a;
    } else {
      var init := b[..|b| - 1];
      assert (a + b)[..|a + b| - 1] == a + init;
      TouchingAppend(a, init, isDead, touches);
    }
  }

  /** When every collider is alive and touching, all of them are reported in list order. */
  lemma {:induction false} TouchingAll<C>(colliders: seq<C>, isDead: C -> bool, touches: C -> bool)
    requires forall k :: 0 <= k < |colliders| ==> !isDead(colliders[k]) && touches(colliders[k])
    ensures Touching(colliders, isDead, touches) == colliders
    decreases |colliders|
  {
    if colliders != [] {
      var init := colliders[..|colliders| - 1];
      TouchingAll(init, isDead, touches);
      assert colliders == init + [colliders[|colliders| - 1]];
    }
  }

  /** `findColliders`: one pass over the colliders, pushing each match onto `result`. */
  method FindColliders<C>(colliders: seq<C>, isDead: C -> bool, touches: C -> bool) returns (result: seq<C>)
    ensures result == Touching(colliders, isDead, touches)
  {
    result := [];
    var k := 0;
    while k < |colliders|
      invariant 0 <= k <= |colliders|
      invariant result == Touching(colliders[..k], isDead, touches)
    {
      var entity := colliders[k];
      assert colliders[..k + 1][..k] == colliders[..k];
      if !isDead(entity) && touches(entity) {
        result := result + [entity];
      }
      k := k + 1;
    }
    assert colliders[..k] == colliders;
  }
}
