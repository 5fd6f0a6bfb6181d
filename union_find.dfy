/**
 * The disjoint-set structure of src/union_find.rs over items 0 .. n-1, with the parent links
 * stored as `parents[item]` (None for a root). The larger root always becomes the parent,
 * so every link points to a strictly larger item; that order is what makes `find_root`
 * terminate, and `Root` below is the abstract partition the links stand for.
 */
module UnionFind {
  import opened Wrappers

  /** Every link points to a strictly larger item inside the store. */
  ghost predicate Ordered(p: seq<Option<nat>>) {
    forall i :: 0 <= i < |p| && p[i].Some? ==> i < p[i].value < |p|
  }

  /** The root reached by following links from x. */
  ghost function Root(p: seq<Option<nat>>, x: nat): (r: nat)
    requires Ordered(p) && x < |p|
    ensures x <= r < |p| && p[r].None?
    ensures p[x].Some? ==> p[x].value <= r
    decreases |p| - x
  {
    if p[x].None? then x else Root(p, p[x].value)
  }

  ghost predicate SameSet(p: seq<Option<nat>>, x: nat, y: nat)
    requires Ordered(p) && x < |p| && y < |p|
  {
    Root(p, x) == Root(p, y)
  }

  /** The items visited on the way from x to its root, the root excluded. */
  ghost function Path(p: seq<Option<nat>>, x: nat): (path: seq<nat>)
    requires Ordered(p) && x < |p|
    ensures |path| > 0 <==> p[x].Some?
    ensures |path| > 0 ==> path[0] == x
    decreases |p| - x
  {
    if p[x].None? then [] else [x] + Path(p, p[x].value)
  }

  lemma {:induction false} PathElements(p: seq<Option<nat>>, x: nat, i: nat)
    requires Ordered(p) && x < |p| && i in Path(p, x)
    ensures x <= i < Root(p, x) && p[i].Some?
    decreases |p| - x
  {
    if i != x {
      PathElements(p, p[x].value, i);
    }
  }

  /** Full path compression: every item on the path from x is linked straight to the root. */
  ghost function Compress(p: seq<Option<nat>>, x: nat): (q: seq<Option<nat>>)
    requires Ordered(p) && x < |p|
    ensures |q| == |p|
  {
    seq(|p|, i requires 0 <= i < |p| => if i in Path(p, x) then Some(Root(p, x)) else p[i])
  }

  /** What the source's second loop does: only the starting item is re-linked. */
  ghost function RelinkStart(p: seq<Option<nat>>, x: nat): (q: seq<Option<nat>>)
    requires Ordered(p) && x < |p|
    ensures |q| == |p|
  {
    if p[x].None? then p else p[x := Some(Root(p, x))]
  }

  /** q differs from p only in that some linked items now point directly to their root. */
  ghost predicate Recompressed(p: seq<Option<nat>>, q: seq<Option<nat>>)
    requires Ordered(p)
  {
    |q| == |p| &&
    forall i :: 0 <= i < |p| ==> q[i] == p[i] || (p[i].Some? && q[i] == Some(Root(p, i)))
  }

  lemma RecompressedOrdered(p: seq<Option<nat>>, q: seq<Option<nat>>)
    requires Ordered(p) && Recompressed(p, q)
    ensures Ordered(q)
  {
  }

  /** Re-linking items to their roots never changes the root of anything. */
  lemma {:induction false} RecompressedKeepsRoots(p: seq<Option<nat>>, q: seq<Option<nat>>, y: nat)
    requires Ordered(p) && Recompressed(p, q) && y < |p|
    ensures Ordered(q) && Root(q, y) == Root(p, y)
    decreases |p| - y
  {
    RecompressedOrdered(p, q);
    if q[y].Some? {
      var z := q[y].value;
      RecompressedKeepsRoots(p, q, z);
      if q[y] != p[y] {
        assert z == Root(p, y);
        RootOfRoot(p, y);
      }
    }
  }

  lemma RootOfRoot(p: seq<Option<nat>>, y: nat)
    requires Ordered(p) && y < |p|
    ensures Root(p, Root(p, y)) == Root(p, y)
  {
  }

  lemma {:induction false} CompressIsRecompressed(p: seq<Option<nat>>, x: nat)
    requires Ordered(p) && x < |p|
    ensures Recompressed(p, Compress(p, x))
  {
    var q := Compress(p, x);
    forall i | 0 <= i < |p|
      ensures q[i] == p[i] || (p[i].Some? && q[i] == Some(Root(p, i)))
    {
      if i in Path(p, x) {
        PathRoot(p, x, i);
        PathElements(p, x, i);
      }
    }
  }

  /** Every item on the path from x has the same root as x. */
  lemma {:induction false} PathRoot(p: seq<Option<nat>>, x: nat, i: nat)
    requires Ordered(p) && x < |p| && i in Path(p, x)
    ensures i < |p| && Root(p, i) == Root(p, x)
    decreases |p| - x
  {
    if i != x {
      PathRoot(p, p[x].value, i);
    }
  }

  /** Compression keeps the partition and links every item of the path to the root. */
  lemma {:induction false} CompressKeepsRoots(p: seq<Option<nat>>, x: nat)
    requires Ordered(p) && x < |p|
    ensures Ordered(Compress(p, x))
    ensures forall y :: 0 <= y < |p| ==> Root(Compress(p, x), y) == Root(p, y)
    ensures forall i :: 0 <= i < |p| && i in Path(p, x) ==> Compress(p, x)[i] == Some(Root(p, x))
    ensures forall i :: 0 <= i < |p| && i !in Path(p, x) ==> Compress(p, x)[i] == p[i]
  {
    CompressIsRecompressed(p, x);
    RecompressedOrdered(p, Compress(p, x));
    forall y | 0 <= y < |p| ensures Root(Compress(p, x), y) == Root(p, y) {
      RecompressedKeepsRoots(p, Compress(p, x), y);
    }
  }

  /** The store after compressing the path from a and then the path from b. */
  ghost function CompressBoth(p: seq<Option<nat>>, a: nat, b: nat): (q: seq<Option<nat>>)
    requires Ordered(p) && a < |p| && b < |p|
    ensures |q| == |p|
  {
    CompressKeepsRoots(p, a);
    Compress(Compress(p, a), b)
  }

  lemma {:induction false} RelinkStartKeepsRoots(p: seq<Option<nat>>, x: nat)
    requires Ordered(p) && x < |p|
    ensures Ordered(RelinkStart(p, x))
    ensures forall y :: 0 <= y < |p| ==> Root(RelinkStart(p, x), y) == Root(p, y)
  {
    var q := RelinkStart(p, x);
    assert Recompressed(p, q);
    RecompressedOrdered(p, q);
    forall y | 0 <= y < |p| ensures Root(q, y) == Root(p, y) {
      RecompressedKeepsRoots(p, q, y);
    }
  }

  /**
   * Linking root r1 below the larger root r2 moves exactly r1's set into r2's set.
   */
  lemma {:induction false} LinkRoots(p: seq<Option<nat>>, r1: nat, r2: nat, y: nat)
    requires Ordered(p) && r1 < r2 < |p| && p[r1].None? && p[r2].None? && y < |p|
    ensures Ordered(p[r1 := Some(r2)])
    ensures Root(p[r1 := Some(r2)], y) == if Root(p, y) == r1 then r2 else Root(p, y)
    decreases |p| - y
  {
    var q := p[r1 := Some(r2)];
    if y != r1 && p[y].Some? {
      LinkRoots(p, r1, r2, p[y].value);
    }
  }

  /** The partition after merging the sets of a and b. */
  ghost predicate MergedSame(p: seq<Option<nat>>, a: nat, b: nat, x: nat, y: nat)
    requires Ordered(p) && a < |p| && b < |p| && x < |p| && y < |p|
  {
    SameSet(p, x, y) ||
    ((SameSet(p, x, a) || SameSet(p, x, b)) && (SameSet(p, y, a) || SameSet(p, y, b)))
  }

  /** Links join items of equal label only; unlabelled items have no links. */
  ghost predicate Respects<L>(p: seq<Option<nat>>, labels: seq<Option<L>>)
    requires Ordered(p)
  {
    |labels| == |p| &&
    forall i :: 0 <= i < |p| && p[i].Some? ==> labels[i].Some? && labels[p[i].value] == labels[i]
  }

  lemma {:induction false} RootLabel<L>(p: seq<Option<nat>>, labels: seq<Option<L>>, x: nat)
    requires Ordered(p) && Respects(p, labels) && x < |p|
    ensures labels[Root(p, x)] == labels[x]
    decreases |p| - x
  {
    if p[x].Some? {
      RootLabel(p, labels, p[x].value);
    }
  }

  /** Compression links path items to their root, which carries the same label. */
  lemma CompressRespects<L>(p: seq<Option<nat>>, labels: seq<Option<L>>, x: nat)
    requires Ordered(p) && Respects(p, labels) && x < |p|
    ensures Ordered(Compress(p, x)) && Respects(Compress(p, x), labels)
  {
    CompressKeepsRoots(p, x);
    var q := Compress(p, x);
    forall i | 0 <= i < |q| && q[i].Some?
      ensures labels[i].Some? && labels[q[i].value] == labels[i]
    {
      if i in Path(p, x) {
        PathElements(p, x, i);
        PathRoot(p, x, i);
        RootLabel(p, labels, i);
      }
    }
  }

  /** Linking one root below another of the same label keeps the labels respected. */
  lemma LinkRespects<L>(c: seq<Option<nat>>, labels: seq<Option<L>>, lo: nat, hi: nat)
    requires Ordered(c) && Respects(c, labels) && lo < hi < |c| && c[lo].None? && c[hi].None?
    requires labels[lo].Some? && labels[lo] == labels[hi]
    ensures Ordered(c[lo := Some(hi)]) && Respects(c[lo := Some(hi)], labels)
  {
    LinkRoots(c, lo, hi, 0);
  }

  /**
   * Merging two items of one label: both compressions keep the roots and the labels, and
   * linking the two roots keeps every set single-labelled.
   */
  lemma MergeRespects<L>(p: seq<Option<nat>>, labels: seq<Option<L>>, a: nat, b: nat)
    requires Ordered(p) && Respects(p, labels) && a < |p| && b < |p|
    requires labels[a].Some? && labels[a] == labels[b]
    ensures Ordered(CompressBoth(p, a, b)) && Respects(CompressBoth(p, a, b), labels)
    ensures forall y :: 0 <= y < |p| ==> Root(CompressBoth(p, a, b), y) == Root(p, y)
    ensures labels[Root(p, a)] == labels[a] && labels[Root(p, b)] == labels[b]
    ensures Ordered(Compress(p, a)) && Root(Compress(p, a), b) == Root(p, b)
    ensures Respects(Linked(CompressBoth(p, a, b), Root(p, a), Root(p, b)), labels)
  {
    var p1 := Compress(p, a);
    CompressKeepsRoots(p, a);
    CompressRespects(p, labels, a);
    CompressKeepsRoots(p1, b);
    CompressRespects(p1, labels, b);
    var c := Compress(p1, b);
    RootLabel(p, labels, a);
    RootLabel(p, labels, b);
    var r1, r2 := Root(p, a), Root(p, b);
    assert r1 == Root(c, a) && r2 == Root(c, b);
    if r1 < r2 {
      LinkRespects(c, labels, r1, r2);
    } else if r2 < r1 {
      LinkRespects(c, labels, r2, r1);
    }
  }

  /** The roots `merge` finds: the second search runs on the store the first one compressed. */
  lemma MergeRoots<L>(p: seq<Option<nat>>, labels: seq<Option<L>>, a: nat, b: nat, r1: nat, r2: nat)
    requires Ordered(p) && Respects(p, labels) && a < |p| && b < |p|
    requires labels[a].Some? && labels[a] == labels[b]
    requires r1 == Root(p, a) && Ordered(Compress(p, a)) && r2 == Root(Compress(p, a), b)
    ensures r2 == Root(p, b) && labels[r1] == labels[r2]
  {
    MergeRespects(p, labels, a, b);
  }

  /** q partitions the items as p does, with the sets of a and b joined. */
  ghost predicate IsMerge(q: seq<Option<nat>>, p: seq<Option<nat>>, a: nat, b: nat)
    requires Ordered(q) && Ordered(p) && |q| == |p| && a < |p| && b < |p|
  {
    forall x, y :: 0 <= x < |p| && 0 <= y < |p| ==> (SameSet(q, x, y) <==> MergedSame(p, a, b, x, y))
  }

  /** The store after `merge` is ordered, single-labelled, and partitioned as `MergedSame` says. */
  lemma MergeOutcome<L>(p: seq<Option<nat>>, labels: seq<Option<L>>, a: nat, b: nat, q: seq<Option<nat>>)
    requires Ordered(p) && Respects(p, labels) && a < |p| && b < |p|
    requires labels[a].Some? && labels[a] == labels[b]
    requires q == Linked(CompressBoth(p, a, b), Root(p, a), Root(p, b))
    ensures Ordered(q) && Respects(q, labels) && |q| == |p| && IsMerge(q, p, a, b)
  {
    MergeRespects(p, labels, a, b);
    LinkedMerges(p, CompressBoth(p, a, b), a, b);
  }

  // ----- the operations on a parent array -----

  /** `find_root` with the second loop as the source writes it. */
  method FindRootAsWritten(parents: array<Option<nat>>, item: nat) returns (root: nat)
    requires Ordered(parents[..]) && item < parents.Length
    modifies parents
    ensures root == Root(old(parents[..]), item)
    ensures parents[..] == RelinkStart(old(parents[..]), item)
  {
    ghost var p := parents[..];
    root := item;
    while parents[root].Some?
      invariant root < parents.Length && Root(p, root) == Root(p, item)
      decreases parents.Length - root
    {
      root := parents[root].value;
    }
    var current := item;
    while current != root
      invariant current == item || current == root
      invariant parents[..] == if current == item then p else RelinkStart(p, item)
      decreases root - current
    {
      parents[current] := Some(root);
      current := parents[current].value;
    }
  }

  /** The store p with the items of `done` linked straight to `root`. */
  ghost function LinkedTo(p: seq<Option<nat>>, root: nat, done: seq<nat>): (q: seq<Option<nat>>)
    ensures |q| == |p|
  {
    seq(|p|, i requires 0 <= i < |p| => if i in done then Some(root) else p[i])
  }

  lemma LinkedToStep(p: seq<Option<nat>>, root: nat, done: seq<nat>, x: nat)
    requires x < |p|
    ensures LinkedTo(p, root, done + [x]) == LinkedTo(p, root, done)[x := Some(root)]
  {
  }

  /** The re-linking walk from x has linked `done` and stands at c: every linked item precedes c. */
  ghost predicate Walked(p: seq<Option<nat>>, x: nat, done: seq<nat>, c: nat)
    requires Ordered(p) && x < |p| && c < |p|
  {
    Path(p, x) == done + Path(p, c) && forall k :: 0 <= k < |done| ==> done[k] < c
  }

  /** One step of the re-linking walk: c is not linked yet, and the walk goes on at c's parent. */
  lemma FollowLink(p: seq<Option<nat>>, x: nat, done: seq<nat>, c: nat)
    requires Ordered(p) && x < |p| && c < |p| && p[c].Some? && Walked(p, x, done, c)
    ensures c !in done && c < p[c].value < |p|
    ensures Walked(p, x, done + [c], p[c].value)
  {
    var next := p[c].value;
    var d := done + [c];
    assert Path(p, x) == d + Path(p, next) by {
      assert Path(p, c) == [c] + Path(p, next);
    }
    assert forall k :: 0 <= k < |d| ==> d[k] < next by {
      forall k | 0 <= k < |d|
        ensures d[k] < next
      {
        if k < |done| {
          assert d[k] == done[k];
        }
      }
    }
  }

  /** An item and its parent have the same root. */
  lemma RootOfParent(p: seq<Option<nat>>, c: nat)
    requires Ordered(p) && c < |p| && p[c].Some?
    ensures c < p[c].value < |p| && Root(p, p[c].value) == Root(p, c)
  {
  }

  /** A walk that reached the root has linked exactly the path. */
  lemma WalkDone(p: seq<Option<nat>>, x: nat, done: seq<nat>, c: nat)
    requires Ordered(p) && x < |p| && c < |p| && p[c].None? && Walked(p, x, done, c)
    ensures done == Path(p, x)
  {
    assert Path(p, c) == [];
  }

  /** `find_root` with the second loop walking the whole path, as intended. */
  method FindRoot(parents: array<Option<nat>>, item: nat) returns (root: nat)
    requires Ordered(parents[..]) && item < parents.Length
    modifies parents
    ensures root == Root(old(parents[..]), item) && parents[root].None?
    ensures parents[..] == Compress(old(parents[..]), item)
    ensures Ordered(parents[..])
  {
    ghost var p := parents[..];
    root := item;
    while parents[root].Some?
      invariant root < parents.Length && Root(p, root) == Root(p, item)
      decreases parents.Length - root
    {
      root := parents[root].value;
    }
    var current := item;
    ghost var visited: seq<nat> := [];
    while current != root
      invariant current < parents.Length && Root(p, current) == root
      invariant Path(p, item) == visited + Path(p, current)
      invariant forall k :: 0 <= k < |visited| ==> visited[k] < current
      invariant parents[..] == LinkedTo(p, root, visited)
      decreases root - current
    {
      assert current !in visited;
      assert parents[current] == p[current];
      var next := parents[current].value;
      assert Path(p, current) == [current] + Path(p, next);
      assert Path(p, item) == (visited + [current]) + Path(p, next);
      parents[current] := Some(root);
      LinkedToStep(p, root, visited, current);
      visited := visited + [current];
      current := next;
    }
    assert Path(p, current) == [];
    assert visited == Path(p, item);
    assert parents[..] == Compress(p, item);
    CompressKeepsRoots(p, item);
  }

  method IsInSameSet(parents: array<Option<nat>>, item1: nat, item2: nat) returns (same: bool)
    requires Ordered(parents[..]) && item1 < parents.Length && item2 < parents.Length
    modifies parents
    ensures same <==> SameSet(old(parents[..]), item1, item2)
    ensures parents[..] == CompressBoth(old(parents[..]), item1, item2)
    ensures Ordered(parents[..])
    ensures forall y :: 0 <= y < parents.Length ==> Root(parents[..], y) == Root(old(parents[..]), y)
  {
    ghost var p := parents[..];
    var root1 := FindRoot(parents, item1);
    ghost var p1 := parents[..];
    CompressKeepsRoots(p, item1);
    var root2 := FindRoot(parents, item2);
    CompressKeepsRoots(p1, item2);
    same := root1 == root2;
  }

  /** The store c after linking the smaller of the roots r1, r2 below the larger one. */
  ghost function Linked(c: seq<Option<nat>>, r1: nat, r2: nat): seq<Option<nat>>
    requires r1 < |c| && r2 < |c|
  {
    if r1 < r2 then c[r1 := Some(r2)] else if r2 < r1 then c[r2 := Some(r1)] else c
  }

  /**
   * Linking the roots of a and b in a store c with the same roots as p yields exactly the
   * partition of p with the sets of a and b joined.
   */
  lemma {:induction false} LinkedMerges(p: seq<Option<nat>>, c: seq<Option<nat>>, a: nat, b: nat)
    requires Ordered(p) && Ordered(c) && |c| == |p| && a < |p| && b < |p|
    requires forall y :: 0 <= y < |p| ==> Root(c, y) == Root(p, y)
    ensures Ordered(Linked(c, Root(p, a), Root(p, b)))
    ensures forall x, y :: 0 <= x < |p| && 0 <= y < |p| ==>
      (SameSet(Linked(c, Root(p, a), Root(p, b)), x, y) <==> MergedSame(p, a, b, x, y))
  {
    var r1, r2 := Root(p, a), Root(p, b);
    assert r1 == Root(c, a) && r2 == Root(c, b);
    var q := Linked(c, r1, r2);
    var lo, hi := if r1 < r2 then r1 else r2, if r1 < r2 then r2 else r1;
    if r1 != r2 {
      assert q == c[lo := Some(hi)];
      LinkRoots(c, lo, hi, 0);
    }
    forall x, y | 0 <= x < |p| && 0 <= y < |p|
      ensures SameSet(q, x, y) <==> MergedSame(p, a, b, x, y)
    {
      LinkedSamePair(p, c, a, b, x, y);
    }
  }

  /** `LinkedMerges` for one pair of items. */
  lemma LinkedSamePair(p: seq<Option<nat>>, c: seq<Option<nat>>, a: nat, b: nat, x: nat, y: nat)
    requires Ordered(p) && Ordered(c) && |c| == |p| && a < |p| && b < |p| && x < |p| && y < |p|
    requires forall z :: 0 <= z < |p| ==> Root(c, z) == Root(p, z)
    ensures Ordered(Linked(c, Root(p, a), Root(p, b)))
    ensures SameSet(Linked(c, Root(p, a), Root(p, b)), x, y) <==> MergedSame(p, a, b, x, y)
  {
    var r1, r2 := Root(p, a), Root(p, b);
    assert r1 == Root(c, a) && r2 == Root(c, b) && Root(c, x) == Root(p, x) && Root(c, y) == Root(p, y);
    if r1 != r2 {
      var lo, hi := if r1 < r2 then r1 else r2, if r1 < r2 then r2 else r1;
      assert Linked(c, r1, r2) == c[lo := Some(hi)];
      LinkRoots(c, lo, hi, x);
      LinkRoots(c, lo, hi, y);
    }
  }

  /** `merge`: the smaller of the two roots is linked below the larger one. */
  method Merge(parents: array<Option<nat>>, item1: nat, item2: nat)
    requires Ordered(parents[..]) && item1 < parents.Length && item2 < parents.Length
    modifies parents
    ensures Ordered(parents[..])
    ensures parents[..] == Linked(CompressBoth(old(parents[..]), item1, item2),
                                  Root(old(parents[..]), item1), Root(old(parents[..]), item2))
    ensures forall x, y :: 0 <= x < parents.Length && 0 <= y < parents.Length ==>
      (SameSet(parents[..], x, y) <==> MergedSame(old(parents[..]), item1, item2, x, y))
  {
    ghost var p := parents[..];
    var root1 := FindRoot(parents, item1);
    ghost var p1 := parents[..];
    CompressKeepsRoots(p, item1);
    var root2 := FindRoot(parents, item2);
    CompressKeepsRoots(p1, item2);
    ghost var c := parents[..];
    assert forall y :: 0 <= y < |p| ==> Root(c, y) == Root(p, y);
    if root1 > root2 {
      parents[root2] := Some(root1);
    } else if root1 < root2 {
      parents[root1] := Some(root2);
    }
    assert parents[..] == Linked(c, root1, root2);
    LinkedMerges(p, c, item1, item2);
  }

  /** The store `merge` leaves behind, as one function of the store before. */
  ghost function MergeResult(p: seq<Option<nat>>, a: nat, b: nat): (q: seq<Option<nat>>)
    requires Ordered(p) && a < |p| && b < |p|
    ensures Ordered(q) && |q| == |p|
  {
    CompressKeepsRoots(p, a);
    CompressKeepsRoots(Compress(p, a), b);
    LinkedMerges(p, CompressBoth(p, a, b), a, b);
    Linked(CompressBoth(p, a, b), Root(p, a), Root(p, b))
  }

  /** An item that is a root, or points straight to one, is left alone by compression. */
  lemma CompressShort(p: seq<Option<nat>>, x: nat)
    requires Ordered(p) && x < |p| && (p[x].None? || p[p[x].value].None?)
    ensures Compress(p, x) == p
  {
    if p[x].Some? {
      assert Path(p, p[x].value) == [];
      assert Path(p, x) == [x] && Root(p, x) == p[x].value;
    }
    assert forall i :: 0 <= i < |p| ==> Compress(p, x)[i] == p[i];
  }

  /** `merge` on two items whose paths are already compressed only links the roots. */
  lemma MergeShort(p: seq<Option<nat>>, a: nat, b: nat)
    requires Ordered(p) && a < |p| && b < |p|
    requires p[a].None? || p[p[a].value].None?
    requires p[b].None? || p[p[b].value].None?
    ensures MergeResult(p, a, b) == Linked(p, Root(p, a), Root(p, b))
  {
    CompressShort(p, a);
    CompressShort(p, b);
  }

  /** `test_find_root`: a lone item is its own root; after merging 2 with 3 the root of 2 is 3. */
  method FindRootExample() returns (before: nat, after: nat)
    ensures before == 2 && after == 3
  {
    var parents := new Option<nat>[4](_ => None);
    before := FindRoot(parents, 2);
    Merge(parents, 2, 3);
    after := FindRoot(parents, 2);
  }

  /** `test_find_root_compresses_paths`: after merging 0 with 1 and 1 with 2, 0 points to 1 until `find_root(0)` links it to 2. */
  lemma FindRootCompressesExample()
    ensures var e: seq<Option<nat>> := [None, None, None, None];
      var q := MergeResult(MergeResult(e, 0, 1), 1, 2);
      q[0] == Some(1) && Root(q, 0) == 2 && Compress(q, 0)[0] == Some(2)
  {
    var e: seq<Option<nat>> := [None, None, None, None];
    MergeShort(e, 0, 1);
    var q1 := MergeResult(e, 0, 1);
    assert q1 == [Some(1), None, None, None];
    MergeShort(q1, 1, 2);
    var q2 := MergeResult(q1, 1, 2);
    assert q2 == [Some(1), Some(2), None, None];
    assert Path(q2, 0) == [0, 1] by {
      assert Path(q2, 2) == [];
      assert Path(q2, 1) == [1];
    }
  }

  /** `test_merge_below_root`: merging 0 into the set of 1, whose root is 2, links 0 to 2. */
  lemma MergeBelowRootExample()
    ensures var e: seq<Option<nat>> := [None, None, None, None];
      MergeResult(MergeResult(e, 1, 2), 0, 1)[0] == Some(2)
  {
    var e: seq<Option<nat>> := [None, None, None, None];
    MergeShort(e, 1, 2);
    var q1 := MergeResult(e, 1, 2);
    assert q1 == [None, Some(2), None, None];
    MergeShort(q1, 0, 1);
  }

  /** `test_merge_smaller_root_below_larger_root`: the root 2 of {1, 2} goes below the root 3 of {0, 3}. */
  lemma MergeSmallerRootExample()
    ensures var e: seq<Option<nat>> := [None, None, None, None];
      var q := MergeResult(MergeResult(e, 0, 3), 1, 2);
      q[0] == Some(3) && q[1] == Some(2) &&
      MergeResult(q, 0, 1)[1] == Some(2) && MergeResult(q, 0, 1)[2] == Some(3) && Root(MergeResult(q, 0, 1), 1) == 3
  {
    var e: seq<Option<nat>> := [None, None, None, None];
    MergeShort(e, 0, 3);
    var q1 := MergeResult(e, 0, 3);
    assert q1 == [Some(3), None, None, None];
    MergeShort(q1, 1, 2);
    var q2 := MergeResult(q1, 1, 2);
    assert q2 == [Some(3), Some(2), None, None];
    MergeShort(q2, 0, 1);
    var q3 := MergeResult(q2, 0, 1);
    assert q3 == [Some(3), Some(2), Some(3), None];
    assert Root(q3, 1) == 3;
  }

  /** `test_is_in_same_set`: after merging 0 with 2 and 1 with 2, items 0, 1, 2 share a set and 3 is apart. */
  lemma IsInSameSetExample()
    ensures var e: seq<Option<nat>> := [None, None, None, None];
      var q := MergeResult(MergeResult(e, 0, 2), 1, 2);
      SameSet(q, 0, 1) && SameSet(q, 1, 2) && !SameSet(q, 0, 3)
  {
    var e: seq<Option<nat>> := [None, None, None, None];
    MergeShort(e, 0, 2);
    var q1 := MergeResult(e, 0, 2);
    assert q1 == [Some(2), None, None, None];
    MergeShort(q1, 1, 2);
    var q2 := MergeResult(q1, 1, 2);
    assert q2 == [Some(2), Some(2), None, None];
    assert Root(q2, 0) == 2 && Root(q2, 1) == 2 && Root(q2, 3) == 3;
  }

  // ----- the finding: the path is not fully compressed -----

  /** On the chain 0 -> 1 -> 2 -> 3, the source re-links item 0 only; item 1 still points to 2. */
  lemma AsWrittenLeavesPathUncompressed()
    ensures
      var p := [Some(1), Some(2), Some(3), None];
      Ordered(p) && Path(p, 0) == [0, 1, 2] && Root(p, 0) == 3 &&
      RelinkStart(p, 0)[1] == Some(2) && Compress(p, 0)[1] == Some(3)
  {
    var p := [Some(1), Some(2), Some(3), None];
    assert Ordered(p);
    assert Path(p, 3) == [];
    assert Path(p, 0) == [0, 1, 2];
  }
}
