/**
 * A generic n-ary tree (src/tree/Tree.java and the Node<T> class it is built from).
 *
 * A Node<T> object holds a `data` value and an insertion-ordered list of child
 * nodes. Node objects are represented here as the cells of a node store: a
 * reference to a node is its index in the store, and a node's children are a
 * sequence of such references. The same reference may occur as the child of
 * several nodes, so sharing of Node objects is represented exactly.
 */
module Trees {
  import opened Wrappers

  /** A reference to a Node object: its index in the node store. */
  type Ref = nat

  /** A Node<T> object: its data and its children, in insertion order. */
  datatype Cell<T> = Cell(data: T, children: seq<Ref>)

  /**
   * Every child reference points into the store and to a node created after
   * its parent. This keeps every walk finite.
   */
  ghost predicate WellFormed<T>(cells: seq<Cell<T>>)
  {
    forall i, k :: 0 <= i < |cells| && 0 <= k < |cells[i].children| ==> i < cells[i].children[k] < |cells|
  }

  /** `rs` are references into the store, all created after `parent`. */
  ghost predicate After<T>(cells: seq<Cell<T>>, rs: seq<Ref>, parent: nat)
  {
    forall k :: 0 <= k < |rs| ==> parent < rs[k] < |cells|
  }

  ghost predicate InStore<T>(cells: seq<Cell<T>>, xs: seq<Ref>)
  {
    forall k :: 0 <= k < |xs| ==> xs[k] < |cells|
  }

  ghost predicate Distinct<X>(xs: seq<X>)
  {
    forall i, j :: 0 <= i < j < |xs| ==> xs[i] != xs[j]
  }

  /** No node is a child in two places: every node has at most one parent, and only once. */
  ghost predicate NoSharing<T>(cells: seq<Cell<T>>)
  {
    forall i, k, j, l ::
      0 <= i < |cells| && 0 <= j < |cells| && 0 <= k < |cells[i].children| && 0 <= l < |cells[j].children| &&
      cells[i].children[k] == cells[j].children[l]
      ==> i == j && k == l
  }

  // ---------------------------------------------------------------------------
  // Pre-order walk
  // ---------------------------------------------------------------------------

  /** The pre-order walk from `r`: the node itself, then each child's walk in children order. */
  function PreOrder<T>(cells: seq<Cell<T>>, r: Ref): (list: seq<Ref>)
    requires WellFormed(cells) && r < |cells|
    ensures |list| > 0 && list[0] == r
    ensures forall x :: x in list ==> r <= x < |cells|
    ensures InStore(cells, list)
    decreases |cells| - r, 1
  {
    [r] + PreOrderAll(cells, cells[r].children, r)
  }

  /** The walks of the nodes `rs`, one after the other. */
  function PreOrderAll<T>(cells: seq<Cell<T>>, rs: seq<Ref>, parent: nat): (list: seq<Ref>)
    requires WellFormed(cells) && After(cells, rs, parent)
    ensures forall x :: x in list ==> parent < x < |cells|
    ensures InStore(cells, list)
    decreases |cells| - parent, 0, |rs|
  {
    if rs == [] then [] else PreOrderAll(cells, rs[..|rs| - 1], parent) + PreOrder(cells, rs[|rs| - 1])
  }

  /** A node in the walks of `rs` is in the walk of one of them. */
  lemma {:induction false} PreOrderAllWitness<T>(cells: seq<Cell<T>>, rs: seq<Ref>, parent: nat, x: Ref) returns (k: nat)
    requires WellFormed(cells) && After(cells, rs, parent)
    requires x in PreOrderAll(cells, rs, parent)
    ensures k < |rs| && x in PreOrder(cells, rs[k])
    decreases |rs|
  {
    var rs' := rs[..|rs| - 1];
    if x in PreOrder(cells, rs[|rs| - 1]) {
      k := |rs| - 1;
    } else {
      k := PreOrderAllWitness(cells, rs', parent, x);
      assert rs'[k] == rs[k];
    }
  }

  /** The walk of each of `rs` is part of the walks of `rs`. */
  lemma {:induction false} PreOrderAllContains<T>(cells: seq<Cell<T>>, rs: seq<Ref>, parent: nat, k: nat, x: Ref)
    requires WellFormed(cells) && After(cells, rs, parent)
    requires k < |rs| && x in PreOrder(cells, rs[k])
    ensures x in PreOrderAll(cells, rs, parent)
    decreases |rs|
  {
    if k < |rs| - 1 {
      var rs' := rs[..|rs| - 1];
      assert rs'[k] == rs[k];
      PreOrderAllContains(cells, rs', parent, k, x);
    }
  }

  /** A node other than `u` in the walk from `u` has a parent slot inside that walk. */
  lemma {:induction false} ParentInWalk<T>(cells: seq<Cell<T>>, u: Ref, x: Ref) returns (p: Ref, m: nat)
    requires WellFormed(cells) && u < |cells|
    requires x in PreOrder(cells, u) && x != u
    ensures p in PreOrder(cells, u) && m < |cells[p].children| && cells[p].children[m] == x
    decreases |cells| - u
  {
    var ch := cells[u].children;
    var k := PreOrderAllWitness(cells, ch, u, x);
    if x == ch[k] {
      p, m := u, k;
    } else {
      p, m := ParentInWalk(cells, ch[k], x);
      PreOrderAllContains(cells, ch, u, k, p);
    }
  }

  /** Without sharing, two walks that meet are nested. */
  lemma {:induction false} NestedOrDisjoint<T>(cells: seq<Cell<T>>, u: Ref, v: Ref, x: Ref)
    requires WellFormed(cells) && NoSharing(cells) && u < |cells| && v < |cells|
    requires x in PreOrder(cells, u) && x in PreOrder(cells, v)
    ensures u in PreOrder(cells, v) || v in PreOrder(cells, u)
    decreases x
  {
    if x != u && x != v {
      var p1, m1 := ParentInWalk(cells, u, x);
      var p2, m2 := ParentInWalk(cells, v, x);
      assert p1 == p2;
      NestedOrDisjoint(cells, u, v, p1);
    }
  }

  /** Without sharing, the walk lists every node it reaches exactly once. */
  lemma {:induction false} PreOrderDistinct<T>(cells: seq<Cell<T>>, r: Ref)
    requires WellFormed(cells) && NoSharing(cells) && r < |cells|
    ensures Distinct(PreOrder(cells, r))
    decreases |cells| - r, 1
  {
    var ch := cells[r].children;
    PreOrderAllDistinct(cells, r, |ch|);
    assert ch[..|ch|] == ch;
    var a := PreOrderAll(cells, ch, r);
    forall i, j | 0 <= i < j < |[r] + a|
      ensures ([r] + a)[i] != ([r] + a)[j]
    {
      assert ([r] + a)[j] == a[j - 1] && a[j - 1] in a;
      if i > 0 {
        assert ([r] + a)[i] == a[i - 1];
      }
    }
  }

  lemma {:induction false} PreOrderAllDistinct<T>(cells: seq<Cell<T>>, parent: Ref, n: nat)
    requires WellFormed(cells) && NoSharing(cells) && parent < |cells| && n <= |cells[parent].children|
    ensures Distinct(PreOrderAll(cells, cells[parent].children[..n], parent))
    decreases |cells| - parent, 0, n
  {
    var ch := cells[parent].children;
    if n > 0 {
      var rs := ch[..n];
      assert rs[..n - 1] == ch[..n - 1];
      var a := PreOrderAll(cells, ch[..n - 1], parent);
      var b := PreOrder(cells, ch[n - 1]);
      PreOrderAllDistinct(cells, parent, n - 1);
      PreOrderDistinct(cells, ch[n - 1]);
      forall x | x in a && x in b
        ensures false
      {
        var k := PreOrderAllWitness(cells, ch[..n - 1], parent, x);
        var c := ch[k];
        var d := ch[n - 1];
        assert c != d;
        NestedOrDisjoint(cells, c, d, x);
        if c in PreOrder(cells, d) {
          var p, m := ParentInWalk(cells, d, c);
        } else {
          var p, m := ParentInWalk(cells, c, d);
        }
      }
      assert PreOrderAll(cells, rs, parent) == a + b;
      forall i, j | 0 <= i < j < |a + b|
        ensures (a + b)[i] != (a + b)[j]
      {
        if j < |a| {
        } else if i >= |a| {
          assert (a + b)[i] == b[i - |a|] && (a + b)[j] == b[j - |a|];
        } else {
          assert (a + b)[i] in a && (a + b)[j] in b;
        }
      }
    }
  }

  /** Some cell before `x` has `x` among its children. */
  ghost predicate HangsUnderEarlier<T>(cells: seq<Cell<T>>, x: Ref)
  {
    exists p :: 0 <= p < x && p < |cells| && x in cells[p].children
  }

  /** Every cell after the first hangs under an earlier cell. */
  ghost predicate Connected<T>(cells: seq<Cell<T>>)
  {
    forall x :: 0 < x < |cells| ==> HangsUnderEarlier(cells, x)
  }

  /** A walk that reaches `y` also reaches everything the walk from `y` reaches. */
  lemma {:induction false} WalkTransitive<T>(cells: seq<Cell<T>>, u: Ref, y: Ref, x: Ref)
    requires WellFormed(cells) && u < |cells| && y < |cells|
    requires y in PreOrder(cells, u) && x in PreOrder(cells, y)
    ensures x in PreOrder(cells, u)
    decreases |cells| - u
  {
    if y != u {
      var ch := cells[u].children;
      var k := PreOrderAllWitness(cells, ch, u, y);
      WalkTransitive(cells, ch[k], y, x);
      PreOrderAllContains(cells, ch, u, k, x);
    }
  }

  /** In a connected store the walk from the first cell reaches every cell. */
  lemma {:induction false} ConnectedReached<T>(cells: seq<Cell<T>>, x: Ref)
    requires WellFormed(cells) && Connected(cells) && x < |cells|
    ensures x in PreOrder(cells, 0)
    decreases x
  {
    if x > 0 {
      assert HangsUnderEarlier(cells, x);
      var p :| 0 <= p < x && p < |cells| && x in cells[p].children;
      ConnectedReached(cells, p);
      var ch := cells[p].children;
      var k :| 0 <= k < |ch| && ch[k] == x;
      PreOrderAllContains(cells, ch, p, k, x);
      WalkTransitive(cells, 0, p, x);
    }
  }

  /** A list without repetitions of exactly the numbers below `n` has length `n`. */
  lemma {:induction false} DistinctCoverCount(w: seq<Ref>, n: nat)
    requires Distinct(w)
    requires forall i :: 0 <= i < |w| ==> w[i] < n
    requires forall x :: 0 <= x < n ==> x in w
    ensures |w| == n
    decreases n
  {
    if n > 0 {
      assert n - 1 in w;
      var j :| 0 <= j < |w| && w[j] == n - 1;
      var w' := w[..j] + w[j + 1..];
      assert forall i :: 0 <= i < |w'| ==> w'[i] == if i < j then w[i] else w[i + 1];
      forall x | 0 <= x < n - 1 ensures x in w' {
        assert x in w;
        var i :| 0 <= i < |w| && w[i] == x;
        if i < j {
          assert w'[i] == x;
        } else {
          assert w'[i - 1] == x;
        }
      }
      DistinctCoverCount(w', n - 1);
    }
  }

  /**
   * When every cell hangs under an earlier one and no node has two parents,
   * the walk from the first cell lists every cell exactly once: its length
   * is the number of cells.
   */
  lemma WalkListsEveryCell<T>(cells: seq<Cell<T>>)
    requires WellFormed(cells) && NoSharing(cells) && Connected(cells) && 0 < |cells|
    ensures forall x :: 0 <= x < |cells| ==> x in PreOrder(cells, 0)
    ensures |PreOrder(cells, 0)| == |cells|
  {
    forall x | 0 <= x < |cells| ensures x in PreOrder(cells, 0) {
      ConnectedReached(cells, x);
    }
    PreOrderDistinct(cells, 0);
    DistinctCoverCount(PreOrder(cells, 0), |cells|);
  }

  // ---------------------------------------------------------------------------
  // Leaves
  // ---------------------------------------------------------------------------

  /** The entries of `xs` whose children list is empty, in their order in `xs`. */
  function LeafFilter<T>(cells: seq<Cell<T>>, xs: seq<Ref>): (leaves: seq<Ref>)
    requires InStore(cells, xs)
    ensures InStore(cells, leaves)
  {
    if xs == [] then []
    else
      var x := xs[|xs| - 1];
      LeafFilter(cells, xs[..|xs| - 1]) + (if cells[x].children == [] then [x] else [])
  }

  /** A node is kept by the filter exactly when it is listed and has no children. */
  lemma {:induction false} LeafFilterMembership<T>(cells: seq<Cell<T>>, xs: seq<Ref>, x: Ref)
    requires InStore(cells, xs)
    ensures x in LeafFilter(cells, xs) <==> x in xs && cells[x].children == []
    decreases |xs|
  {
    if xs != [] {
      LeafFilterMembership(cells, xs[..|xs| - 1], x);
      assert xs == xs[..|xs| - 1] + [xs[|xs| - 1]];
    }
  }

  lemma {:induction false} LeafFilterConcat<T>(cells: seq<Cell<T>>, xs: seq<Ref>, ys: seq<Ref>)
    requires InStore(cells, xs) && InStore(cells, ys)
    ensures LeafFilter(cells, xs + ys) == LeafFilter(cells, xs) + LeafFilter(cells, ys)
    decreases |ys|
  {
    if ys == [] {
      assert xs + ys == xs;
    } else {
      var ys' := ys[..|ys| - 1];
      assert (xs + ys)[..|xs + ys| - 1] == xs + ys';
      LeafFilterConcat(cells, xs, ys');
    }
  }

  /** `a` is `b` with some entries left out and the rest in the same order. */
  ghost predicate IsSubsequence<X>(a: seq<X>, b: seq<X>)
    decreases |b|
  {
    if a == [] then true
    else if b == [] then false
    else if a[|a| - 1] == b[|b| - 1] then IsSubsequence(a[..|a| - 1], b[..|b| - 1])
    else IsSubsequence(a, b[..|b| - 1])
  }

  /** The leaves keep the relative order they have in the walk. */
  lemma {:induction false} LeafFilterSubsequence<T>(cells: seq<Cell<T>>, xs: seq<Ref>)
    requires InStore(cells, xs)
    ensures IsSubsequence(LeafFilter(cells, xs), xs)
    decreases |xs|
  {
    if xs != [] {
      var xs' := xs[..|xs| - 1];
      var x := xs[|xs| - 1];
      LeafFilterSubsequence(cells, xs');
      var f := LeafFilter(cells, xs');
      if cells[x].children == [] {
        assert (f + [x])[..|f + [x]| - 1] == f;
      } else {
        assert LeafFilter(cells, xs) == f;
        if f != [] {
          LeafFilterMembership(cells, xs', f[|f| - 1]);
          assert f[|f| - 1] in f;
        }
      }
    }
  }

  /** Filtering keeps distinct entries distinct. */
  lemma {:induction false} LeafFilterDistinct<T>(cells: seq<Cell<T>>, xs: seq<Ref>)
    requires InStore(cells, xs) && Distinct(xs)
    ensures Distinct(LeafFilter(cells, xs))
    decreases |xs|
  {
    if xs != [] {
      var xs' := xs[..|xs| - 1];
      var x := xs[|xs| - 1];
      LeafFilterDistinct(cells, xs');
      LeafFilterMembership(cells, xs', x);
      assert x !in xs' by {
        forall k | 0 <= k < |xs'| ensures xs'[k] != x {
          assert xs'[k] == xs[k];
        }
      }
    }
  }

  /** Without shared nodes, every leaf is listed once by the leaf search. */
  lemma LeavesListedOnce<T>(cells: seq<Cell<T>>, r: Ref)
    requires WellFormed(cells) && NoSharing(cells) && r < |cells|
    ensures Distinct(LeafFilter(cells, PreOrder(cells, r)))
  {
    PreOrderDistinct(cells, r);
    LeafFilterDistinct(cells, PreOrder(cells, r));
  }

  /** The leaves below `r`, defined on the tree's structure. */
  function LeavesOf<T>(cells: seq<Cell<T>>, r: Ref): (leaves: seq<Ref>)
    requires WellFormed(cells) && r < |cells|
    ensures InStore(cells, leaves)
    decreases |cells| - r, 1
  {
    if cells[r].children == [] then [r] else LeavesOfAll(cells, cells[r].children, r)
  }

  function LeavesOfAll<T>(cells: seq<Cell<T>>, rs: seq<Ref>, parent: nat): (leaves: seq<Ref>)
    requires WellFormed(cells) && After(cells, rs, parent)
    ensures InStore(cells, leaves)
    decreases |cells| - parent, 0, |rs|
  {
    if rs == [] then [] else LeavesOfAll(cells, rs[..|rs| - 1], parent) + LeavesOf(cells, rs[|rs| - 1])
  }

  /** Filtering the walk for leaves gives the leaves in the structural order. */
  lemma {:induction false} LeafFilterOfPreOrder<T>(cells: seq<Cell<T>>, r: Ref)
    requires WellFormed(cells) && r < |cells|
    ensures LeafFilter(cells, PreOrder(cells, r)) == LeavesOf(cells, r)
    decreases |cells| - r, 1
  {
    var ch := cells[r].children;
    LeafFilterConcat(cells, [r], PreOrderAll(cells, ch, r));
    assert LeafFilter(cells, [r]) == LeafFilter(cells, []) + (if ch == [] then [r] else []);
    LeafFilterOfPreOrderAll(cells, ch, r);
  }

  lemma {:induction false} LeafFilterOfPreOrderAll<T>(cells: seq<Cell<T>>, rs: seq<Ref>, parent: nat)
    requires WellFormed(cells) && After(cells, rs, parent)
    ensures LeafFilter(cells, PreOrderAll(cells, rs, parent)) == LeavesOfAll(cells, rs, parent)
    decreases |cells| - parent, 0, |rs|
  {
    if rs != [] {
      var rs' := rs[..|rs| - 1];
      LeafFilterConcat(cells, PreOrderAll(cells, rs', parent), PreOrder(cells, rs[|rs| - 1]));
      LeafFilterOfPreOrderAll(cells, rs', parent);
      LeafFilterOfPreOrder(cells, rs[|rs| - 1]);
    }
  }

  /** The structural leaves are the walk's nodes without children. */
  lemma LeavesOfMembership<T>(cells: seq<Cell<T>>, r: Ref, x: Ref)
    requires WellFormed(cells) && r < |cells|
    ensures x in LeavesOf(cells, r) <==> x in PreOrder(cells, r) && cells[x].children == []
  {
    LeafFilterOfPreOrder(cells, r);
    LeafFilterMembership(cells, PreOrder(cells, r), x);
  }

  lemma ConcatAssociative<X>(a: seq<X>, b: seq<X>, c: seq<X>)
    ensures (a + b) + c == a + (b + c)
  {
  }

  /** Every listed node replaced by its children in `cells`, or kept when it has none. */
  function Expand<T>(cells: seq<Cell<T>>, ls: seq<Ref>): (r: seq<Ref>)
    decreases |ls|
  {
    if ls == [] then []
    else
      var l := ls[|ls| - 1];
      Expand(cells, ls[..|ls| - 1]) + (if l < |cells| && cells[l].children != [] then cells[l].children else [l])
  }

  lemma {:induction false} ExpandConcat<T>(cells: seq<Cell<T>>, a: seq<Ref>, b: seq<Ref>)
    ensures Expand(cells, a + b) == Expand(cells, a) + Expand(cells, b)
    decreases |b|
  {
    if b == [] {
      assert a + b == a;
    } else {
      var b' := b[..|b| - 1];
      assert (a + b)[..|a + b| - 1] == a + b';
      assert (a + b)[|a + b| - 1] == b[|b| - 1];
      ExpandConcat(cells, a, b');
      var l := b[|b| - 1];
      ConcatAssociative(Expand(cells, a), Expand(cells, b'),
                        if l < |cells| && cells[l].children != [] then cells[l].children else [l]);
    }
  }

  /** Nodes without children are their own leaves. */
  lemma {:induction false} LeavesOfAllOfLeaves<T>(cells: seq<Cell<T>>, rs: seq<Ref>, parent: nat)
    requires WellFormed(cells) && After(cells, rs, parent)
    requires forall k :: 0 <= k < |rs| ==> cells[rs[k]].children == []
    ensures LeavesOfAll(cells, rs, parent) == rs
    decreases |rs|
  {
    if rs != [] {
      LeavesOfAllOfLeaves(cells, rs[..|rs| - 1], parent);
      assert LeavesOf(cells, rs[|rs| - 1]) == [rs[|rs| - 1]];
      assert rs[..|rs| - 1] + [rs[|rs| - 1]] == rs;
    }
  }

  /**
   * The store `r` grows `c`: nodes that had children keep them, the new nodes
   * are leaves, and an old leaf may gain new nodes as children. Then the
   * leaves under an old node are its old leaves, each replaced by the
   * children it gained.
   */
  lemma {:induction false} LeavesAfterGrowth<T>(c: seq<Cell<T>>, r: seq<Cell<T>>, x: Ref)
    requires WellFormed(c) && WellFormed(r) && |c| <= |r| && x < |c|
    requires forall i :: 0 <= i < |c| && c[i].children != [] ==> r[i].children == c[i].children
    requires forall i :: |c| <= i < |r| ==> r[i].children == []
    requires forall i, k :: 0 <= i < |c| && c[i].children == [] && 0 <= k < |r[i].children| ==> |c| <= r[i].children[k]
    ensures LeavesOf(r, x) == Expand(r, LeavesOf(c, x))
    decreases |c| - x, 1
  {
    if c[x].children == [] {
      assert [x][..0] == [];
      if r[x].children != [] {
        LeavesOfAllOfLeaves(r, r[x].children, x);
      }
    } else {
      LeavesAfterGrowthAll(c, r, c[x].children, x);
    }
  }

  lemma {:induction false} LeavesAfterGrowthAll<T>(c: seq<Cell<T>>, r: seq<Cell<T>>, rs: seq<Ref>, parent: nat)
    requires WellFormed(c) && WellFormed(r) && |c| <= |r| && After(c, rs, parent)
    requires forall i :: 0 <= i < |c| && c[i].children != [] ==> r[i].children == c[i].children
    requires forall i :: |c| <= i < |r| ==> r[i].children == []
    requires forall i, k :: 0 <= i < |c| && c[i].children == [] && 0 <= k < |r[i].children| ==> |c| <= r[i].children[k]
    ensures LeavesOfAll(r, rs, parent) == Expand(r, LeavesOfAll(c, rs, parent))
    decreases |c| - parent, 0, |rs|
  {
    if rs != [] {
      var rs' := rs[..|rs| - 1];
      LeavesAfterGrowthAll(c, r, rs', parent);
      LeavesAfterGrowth(c, r, rs[|rs| - 1]);
      ExpandConcat(r, LeavesOfAll(c, rs', parent), LeavesOf(c, rs[|rs| - 1]));
    }
  }

  // ---------------------------------------------------------------------------
  // Changing the store
  // ---------------------------------------------------------------------------

  /** The store after `child` is appended to the children of `parent`. */
  function WithChild<T>(cells: seq<Cell<T>>, parent: Ref, child: Ref): (cells': seq<Cell<T>>)
    requires parent < |cells|
  {
    cells[parent := cells[parent].(children := cells[parent].children + [child])]
  }

  /**
   * A new childless cell holding `data` appended to the store and hung as the
   * last child of `parent`.
   */
  function AddLeaf<T>(cells: seq<Cell<T>>, parent: Ref, data: T): (r: seq<Cell<T>>)
    requires parent < |cells|
    ensures |r| == |cells| + 1 && r[|cells|] == Cell(data, [])
    ensures forall i :: 0 <= i < |cells| && i != parent ==> r[i] == cells[i]
    ensures r[parent] == cells[parent].(children := cells[parent].children + [|cells|])
    ensures WellFormed(cells) ==> WellFormed(r)
  {
    WithChild(cells + [Cell(data, [])], parent, |cells|)
  }

  /** The new cell has no other parent, so hanging it under `parent` shares no node. */
  lemma AddLeafNoSharing<T>(cells: seq<Cell<T>>, parent: Ref, data: T)
    requires WellFormed(cells) && NoSharing(cells) && parent < |cells|
    ensures NoSharing(AddLeaf(cells, parent, data))
  {
    var r := AddLeaf(cells, parent, data);
    var n := |cells[parent].children|;
    forall i, k | 0 <= i < |r| && 0 <= k < |r[i].children| && (i != parent || k != n)
      ensures r[i].children[k] < |cells|
    {
      assert i < |cells| && (i == parent ==> k < n) && r[i].children[k] == cells[i].children[k];
    }
    forall i, k, j, l |
      0 <= i < |r| && 0 <= j < |r| && 0 <= k < |r[i].children| && 0 <= l < |r[j].children| &&
      r[i].children[k] == r[j].children[l] && r[i].children[k] != |cells|
      ensures i == j && k == l
    {
      assert i < |cells| && r[i].children[k] == cells[i].children[k];
      assert j < |cells| && r[j].children[l] == cells[j].children[l];
    }
  }

  /** References shifted by `offset`. */
  function Shift(rs: seq<Ref>, offset: nat): (rs': seq<Ref>)
    ensures |rs'| == |rs| && forall k :: 0 <= k < |rs| ==> rs'[k] == rs[k] + offset
  {
    seq(|rs|, k requires 0 <= k < |rs| => rs[k] + offset)
  }

  /** The nodes of another store, moved to positions starting at `offset`. */
  function Relocate<T>(nodes: seq<Cell<T>>, offset: nat): (moved: seq<Cell<T>>)
    ensures |moved| == |nodes|
    ensures forall i :: 0 <= i < |nodes| ==> moved[i].data == nodes[i].data && moved[i].children == Shift(nodes[i].children, offset)
  {
    seq(|nodes|, i requires 0 <= i < |nodes| => Cell(nodes[i].data, Shift(nodes[i].children, offset)))
  }

  /** Another well-formed store moved in after this one keeps the whole store well formed. */
  lemma GraftWellFormed<T>(cells: seq<Cell<T>>, nodes: seq<Cell<T>>)
    requires WellFormed(cells) && WellFormed(nodes)
    ensures WellFormed(cells + Relocate(nodes, |cells|))
  {
    var r := cells + Relocate(nodes, |cells|);
    forall i, k | 0 <= i < |r| && 0 <= k < |r[i].children| ensures i < r[i].children[k] < |r| {
      if i >= |cells| {
        assert r[i].children[k] == nodes[i - |cells|].children[k] + |cells|;
      }
    }
  }

  /** `n` copies of `x`. */
  function Repeat<X>(x: X, n: nat): (r: seq<X>)
    ensures |r| == n && forall k :: 0 <= k < n ==> r[k] == x
  {
    seq(n, _ => x)
  }

  /** Each of `parents` in turn gains `child` as its last child (Node.addChild once per entry). */
  function AttachAll<T>(cells: seq<Cell<T>>, parents: seq<Ref>, child: Ref): (r: seq<Cell<T>>)
    requires InStore(cells, parents)
    ensures |r| == |cells|
    decreases |parents|
  {
    if parents == [] then cells
    else WithChild(AttachAll(cells, parents[..|parents| - 1], child), parents[|parents| - 1], child)
  }

  /** How many times `x` is listed in `xs`. */
  function Occurrences<X(==)>(xs: seq<X>, x: X): nat
    decreases |xs|
  {
    if xs == [] then 0 else Occurrences(xs[..|xs| - 1], x) + (if xs[|xs| - 1] == x then 1 else 0)
  }

  /**
   * After the attachments a node keeps its data and its children, and gains
   * `child` once for every time it is listed in `parents`.
   */
  lemma {:induction false} AttachAllCell<T>(cells: seq<Cell<T>>, parents: seq<Ref>, child: Ref, i: nat)
    requires InStore(cells, parents) && i < |cells|
    ensures AttachAll(cells, parents, child)[i]
      == Cell(cells[i].data, cells[i].children + Repeat(child, Occurrences(parents, i)))
    decreases |parents|
  {
    if parents == [] {
      assert cells[i].children + [] == cells[i].children;
    } else {
      var ps := parents[..|parents| - 1];
      AttachAllCell(cells, ps, child, i);
      if parents[|parents| - 1] == i {
        assert Repeat(child, Occurrences(ps, i)) + [child] == Repeat(child, Occurrences(parents, i));
        ConcatAssociative(cells[i].children, Repeat(child, Occurrences(ps, i)), [child]);
      }
    }
  }

  /** Attaching a node created after every parent keeps the store well formed. */
  lemma {:induction false} AttachAllWellFormed<T>(cells: seq<Cell<T>>, parents: seq<Ref>, child: Ref)
    requires WellFormed(cells) && child < |cells|
    requires forall k :: 0 <= k < |parents| ==> parents[k] < child
    ensures WellFormed(AttachAll(cells, parents, child))
    decreases |parents|
  {
    if parents != [] {
      AttachAllWellFormed(cells, parents[..|parents| - 1], child);
    }
  }

  /** A list that holds exactly once each element that `xs` holds, in first-occurrence order. */
  function Dedup(xs: seq<Ref>): (r: seq<Ref>)
    ensures Distinct(r)
    ensures forall x :: x in r <==> x in xs
    decreases |xs|
  {
    if xs == [] then []
    else
      var d := Dedup(xs[..|xs| - 1]);
      var x := xs[|xs| - 1];
      assert forall y :: y in xs <==> y in xs[..|xs| - 1] || y == x by {
        assert xs == xs[..|xs| - 1] + [x];
      }
      if x in d then d else d + [x]
  }

  /** Removing repetitions keeps a list inside the store. */
  lemma DedupInStore<T>(cells: seq<Cell<T>>, xs: seq<Ref>)
    requires InStore(cells, xs)
    ensures InStore(cells, Dedup(xs))
  {
    var d := Dedup(xs);
    forall k | 0 <= k < |d| ensures d[k] < |cells| {
      assert d[k] in xs;
    }
  }

  /** A value that is not listed has no occurrences. */
  lemma {:induction false} OccurrencesAbsent<X>(xs: seq<X>, x: X)
    requires x !in xs
    ensures Occurrences(xs, x) == 0
    decreases |xs|
  {
    if xs != [] {
      assert xs[..|xs| - 1] + [xs[|xs| - 1]] == xs;
      OccurrencesAbsent(xs[..|xs| - 1], x);
    }
  }

  /** In a list without repetitions, a member is listed exactly once. */
  lemma {:induction false} OccurrencesDistinct<X>(xs: seq<X>, x: X)
    requires Distinct(xs) && x in xs
    ensures Occurrences(xs, x) == 1
    decreases |xs|
  {
    var ys := xs[..|xs| - 1];
    assert xs == ys + [xs[|xs| - 1]];
    if xs[|xs| - 1] == x {
      OccurrencesAbsent(ys, x);
    } else {
      OccurrencesDistinct(ys, x);
    }
  }

  // ---------------------------------------------------------------------------
  // The tree object
  // ---------------------------------------------------------------------------

  class Tree<T> {
    /** The root element; a freshly constructed tree has none. */
    var root: Option<Ref>
    /**
     * The Node objects created for this tree. Those linked to the root are the
     * ones its walk reaches; grafted cells may not be linked to it.
     */
    var cells: seq<Cell<T>>

    ghost predicate Valid()
      reads this
    {
      WellFormed(cells) && (root.Some? ==> root.value < |cells|)
    }

    constructor ()
      ensures Valid() && root == None && cells == []
    {
      root := None;
      cells := [];
    }

    /** Makes `r` the root; getRootElement then returns exactly `r`. */
    method SetRootElement(r: Ref)
      requires Valid() && r < |cells|
      modifies this
      ensures Valid() && root == Some(r) && cells == old(cells)
    {
      root := Some(r);
    }

    /** A new Node object holding `data`, with no children yet. */
    method NewNode(data: T) returns (r: Ref)
      requires Valid()
      modifies this
      ensures Valid() && root == old(root)
      ensures r == |old(cells)| && cells == old(cells) + [Cell(data, [])]
    {
      r := |cells|;
      cells := cells + [Cell(data, [])];
    }

    /** Node.addChild: appends `child` at the end of the children of `parent`. */
    method AddChild(parent: Ref, child: Ref)
      requires Valid() && parent < child < |cells|
      modifies this
      ensures Valid() && root == old(root)
      ensures cells == WithChild(old(cells), parent, child)
    {
      cells := WithChild(cells, parent, child);
    }

    /** Brings the Node objects of another store into this one, after the existing ones. */
    method Graft(nodes: seq<Cell<T>>) returns (offset: Ref)
      requires Valid() && WellFormed(nodes)
      modifies this
      ensures Valid() && root == old(root)
      ensures offset == |old(cells)| && cells == old(cells) + Relocate(nodes, offset)
    {
      GraftWellFormed(cells, nodes);
      offset := |cells|;
      cells := cells + Relocate(nodes, offset);
    }

    /** Appends the pre-order walk from `element` to `list`. */
    method Walk(element: Ref, list: seq<Ref>) returns (list': seq<Ref>)
      requires Valid() && element < |cells|
      ensures list' == list + PreOrder(cells, element)
      decreases |cells| - element
    {
      list' := list + [element];
      var children := cells[element].children;
      for i := 0 to |children|
        invariant list' == list + [element] + PreOrderAll(cells, children[..i], element)
      {
        assert children[..i + 1][..i] == children[..i];
        list' := Walk(children[i], list');
      }
      assert children[..|children|] == children;
    }

    /** The tree as a list, in pre-order. */
    method ToList() returns (list: seq<Ref>)
      requires Valid() && root.Some?
      ensures list == PreOrder(cells, root.value)
      ensures list[0] == root.value
    {
      list := Walk(root.value, []);
    }

    /** The entries of the pre-order list that have no children, in pre-order. */
    method GetLeafNodes() returns (leaves: seq<Ref>)
      requires Valid() && root.Some?
      ensures leaves == LeafFilter(cells, PreOrder(cells, root.value))
      ensures leaves == LeavesOf(cells, root.value)
      ensures forall x :: x in leaves <==> x in PreOrder(cells, root.value) && cells[x].children == []
    {
      var list := ToList();
      leaves := [];
      for i := 0 to |list|
        invariant leaves == LeafFilter(cells, list[..i])
      {
        assert list[..i + 1][..i] == list[..i];
        if cells[list[i]].children == [] {
          leaves := leaves + [list[i]];
        }
      }
      assert list[..|list|] == list;
      LeafFilterOfPreOrder(cells, root.value);
      forall x {
        LeafFilterMembership(cells, list, x);
      }
    }
  }
}
