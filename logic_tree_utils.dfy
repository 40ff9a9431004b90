/**
 * Operations on a parsed logic tree (src/utils/LogicTreeUtils.java): weight
 * validation, enumeration of every end-branch path, random sampling of paths
 * and joining of trees.
 */
module LogicTreeUtils {
  import opened Wrappers
  import opened LogicTreeNodes
  import opened LogicTreePaths
  import opened Trees

  // ---------------------------------------------------------------------------
  // Node data and weights along references
  // ---------------------------------------------------------------------------

  /** The LogicTreeNode values held by the nodes `p`, in order. */
  function Data(cells: seq<Cell<LogicTreeNode>>, p: seq<Ref>): (nodes: seq<LogicTreeNode>)
    requires InStore(cells, p)
    ensures |nodes| == |p|
    ensures forall k :: 0 <= k < |p| ==> nodes[k] == cells[p[k]].data
  {
    seq(|p|, k requires 0 <= k < |p| => cells[p[k]].data)
  }

  /** The uncertainty weights of the nodes `rs`, in order. */
  function Weights(cells: seq<Cell<LogicTreeNode>>, rs: seq<Ref>): (ws: seq<real>)
    requires InStore(cells, rs)
    ensures |ws| == |rs|
    ensures forall k :: 0 <= k < |rs| ==> ws[k] == cells[rs[k]].data.uncertaintyWeight
  {
    seq(|rs|, k requires 0 <= k < |rs| => cells[rs[k]].data.uncertaintyWeight)
  }

  /** The sum of `ws`, added left to right starting from 0. */
  function Sum(ws: seq<real>): real
  {
    if ws == [] then 0.0 else Sum(ws[..|ws| - 1]) + ws[|ws| - 1]
  }

  // ---------------------------------------------------------------------------
  // hasValidWeights
  // ---------------------------------------------------------------------------

  /** A node without children, or one whose children's weights add up to exactly 1. */
  ghost predicate ChildWeightsSumToOne(cells: seq<Cell<LogicTreeNode>>, x: Ref)
    requires WellFormed(cells) && x < |cells|
  {
    cells[x].children != [] ==> Sum(Weights(cells, cells[x].children)) == 1.0
  }

  /** Every node reachable from `root` passes the weight check. */
  ghost predicate ValidWeights(cells: seq<Cell<LogicTreeNode>>, root: Ref)
    requires WellFormed(cells) && root < |cells|
  {
    forall x :: x in PreOrder(cells, root) ==> ChildWeightsSumToOne(cells, x)
  }

  /**
   * Walks the tree and stops at the first node whose children's weights do
   * not add up to exactly 1.
   */
  method HasValidWeights(tree: Tree<LogicTreeNode>) returns (isValid: bool)
    requires tree.Valid() && tree.root.Some?
    ensures isValid == ValidWeights(tree.cells, tree.root.value)
  {
    isValid := true;
    var nodeList := tree.ToList();
    var i := 0;
    while i < |nodeList|
      invariant 0 <= i <= |nodeList|
      invariant isValid
      invariant forall k :: 0 <= k < i ==> ChildWeightsSumToOne(tree.cells, nodeList[k])
    {
      var node := nodeList[i];
      var children := tree.cells[node].children;
      if children != [] {
        var weight := ChildWeightSum(tree, children);
        if weight != 1.0 {
          assert !ChildWeightsSumToOne(tree.cells, node) && node in nodeList;
          isValid := false;
          break;
        }
      }
      i := i + 1;
    }
    forall x | x in nodeList && isValid ensures ChildWeightsSumToOne(tree.cells, x) {
      var k :| 0 <= k < |nodeList| && nodeList[k] == x;
    }
  }

  /** The inner loop of the check: the weights of `children` added up one by one. */
  method ChildWeightSum(tree: Tree<LogicTreeNode>, children: seq<Ref>) returns (weight: real)
    requires InStore(tree.cells, children)
    ensures weight == Sum(Weights(tree.cells, children))
  {
    ghost var ws := Weights(tree.cells, children);
    weight := 0.0;
    for j := 0 to |children|
      invariant weight == Sum(ws[..j])
    {
      assert ws[..j + 1][..j] == ws[..j];
      weight := weight + tree.cells[children[j]].data.uncertaintyWeight;
    }
    assert ws[..|children|] == ws;
  }

  // ---------------------------------------------------------------------------
  // computeAllLogicTreePaths
  // ---------------------------------------------------------------------------

  /** `x` put in front of every path of `ps`. */
  function Prepend(cells: seq<Cell<LogicTreeNode>>, x: Ref, ps: seq<seq<Ref>>): (qs: seq<seq<Ref>>)
    requires x < |cells| && forall i :: 0 <= i < |ps| ==> InStore(cells, ps[i])
    ensures |qs| == |ps|
    ensures forall i :: 0 <= i < |ps| ==> qs[i] == [x] + ps[i] && InStore(cells, qs[i])
  {
    assert forall i | 0 <= i < |ps| :: InStore(cells, [x] + ps[i]) by {
      forall i | 0 <= i < |ps| {
        ConsInStore(cells, x, ps[i]);
      }
    }
    seq(|ps|, i requires 0 <= i < |ps| => [x] + ps[i])
  }

  lemma ConsInStore(cells: seq<Cell<LogicTreeNode>>, x: Ref, p: seq<Ref>)
    requires x < |cells| && InStore(cells, p)
    ensures InStore(cells, [x] + p)
  {
    forall k | 0 <= k < |[x] + p| ensures ([x] + p)[k] < |cells| {
      if k > 0 {
        assert ([x] + p)[k] == p[k - 1];
      }
    }
  }

  /** Every path of references from `x` down to a leaf, in walk order. */
  function RefPaths(cells: seq<Cell<LogicTreeNode>>, x: Ref): (ps: seq<seq<Ref>>)
    requires WellFormed(cells) && x < |cells|
    ensures forall i :: 0 <= i < |ps| ==> |ps[i]| > 0 && ps[i][0] == x && InStore(cells, ps[i])
    decreases |cells| - x, 1
  {
    if cells[x].children == [] then [[x]] else RefPathsAll(cells, cells[x].children, x)
  }

  /** The paths through each of `rs` in turn, each with `parent` in front. */
  function RefPathsAll(cells: seq<Cell<LogicTreeNode>>, rs: seq<Ref>, parent: nat): (ps: seq<seq<Ref>>)
    requires WellFormed(cells) && After(cells, rs, parent)
    ensures forall i :: 0 <= i < |ps| ==> |ps[i]| > 0 && ps[i][0] == parent && InStore(cells, ps[i])
    decreases |cells| - parent, 0, |rs|
  {
    if rs == [] then []
    else RefPathsAll(cells, rs[..|rs| - 1], parent) + Prepend(cells, parent, RefPaths(cells, rs[|rs| - 1]))
  }

  /** The path value the source builds for a list of nodes: the nodes and their weight product. */
  function Weighted(nodes: seq<LogicTreeNode>): (p: WeightedPath)
    ensures p.path == nodes && p.pathWeight == Product(nodes)
  {
    WeightedPath(nodes, Product(nodes))
  }

  /** The path values for the reference paths `ps`, each preceded by the nodes `prefix`. */
  function Extend(cells: seq<Cell<LogicTreeNode>>, prefix: seq<LogicTreeNode>, ps: seq<seq<Ref>>): (paths: seq<WeightedPath>)
    requires forall i :: 0 <= i < |ps| ==> InStore(cells, ps[i])
    ensures |paths| == |ps|
    ensures forall i :: 0 <= i < |ps| ==> paths[i] == Weighted(prefix + Data(cells, ps[i]))
  {
    seq(|ps|, i requires 0 <= i < |ps| => Weighted(prefix + Data(cells, ps[i])))
  }

  /** All end-branch paths of the tree rooted at `root`, in walk order. */
  function AllPaths(cells: seq<Cell<LogicTreeNode>>, root: Ref): (paths: seq<WeightedPath>)
    requires WellFormed(cells) && root < |cells|
  {
    Extend(cells, [], RefPaths(cells, root))
  }

  lemma ExtendConcat(cells: seq<Cell<LogicTreeNode>>, prefix: seq<LogicTreeNode>, ps: seq<seq<Ref>>, qs: seq<seq<Ref>>)
    requires forall i :: 0 <= i < |ps| ==> InStore(cells, ps[i])
    requires forall i :: 0 <= i < |qs| ==> InStore(cells, qs[i])
    ensures Extend(cells, prefix, ps + qs) == Extend(cells, prefix, ps) + Extend(cells, prefix, qs)
  {
    var a := Extend(cells, prefix, ps + qs);
    var b := Extend(cells, prefix, ps) + Extend(cells, prefix, qs);
    forall i | 0 <= i < |a| ensures a[i] == b[i] {
      if i >= |ps| {
        assert (ps + qs)[i] == qs[i - |ps|];
      }
    }
  }

  lemma ExtendPrepend(cells: seq<Cell<LogicTreeNode>>, prefix: seq<LogicTreeNode>, x: Ref, ps: seq<seq<Ref>>)
    requires x < |cells|
    requires forall i :: 0 <= i < |ps| ==> InStore(cells, ps[i])
    ensures Extend(cells, prefix, Prepend(cells, x, ps)) == Extend(cells, prefix + [cells[x].data], ps)
  {
    var a := Extend(cells, prefix, Prepend(cells, x, ps));
    var b := Extend(cells, prefix + [cells[x].data], ps);
    forall i | 0 <= i < |a| ensures a[i] == b[i] {
      assert Data(cells, [x] + ps[i]) == [cells[x].data] + Data(cells, ps[i]);
      assert prefix + ([cells[x].data] + Data(cells, ps[i])) == prefix + [cells[x].data] + Data(cells, ps[i]);
    }
  }

  /** Taking one more child of `x` adds that child's paths, with `x` appended to the prefix. */
  lemma ExtendChildStep(cells: seq<Cell<LogicTreeNode>>, prefix: seq<LogicTreeNode>, x: Ref, i: nat)
    requires WellFormed(cells) && x < |cells| && i < |cells[x].children|
    ensures var cs := cells[x].children;
      Extend(cells, prefix, RefPathsAll(cells, cs[..i + 1], x)) ==
      Extend(cells, prefix, RefPathsAll(cells, cs[..i], x)) + Extend(cells, prefix + [cells[x].data], RefPaths(cells, cs[i]))
  {
    var cs := cells[x].children;
    assert cs[..i + 1][..i] == cs[..i] && cs[..i + 1][i] == cs[i];
    ExtendPrepend(cells, prefix, x, RefPaths(cells, cs[i]));
    ExtendConcat(cells, prefix, RefPathsAll(cells, cs[..i], x), Prepend(cells, x, RefPaths(cells, cs[i])));
  }

  // ---------------------------------------------------------------------------
  // The enumerated paths are exactly the root-to-leaf chains, one per leaf
  // ---------------------------------------------------------------------------

  /** `p` starts at `r`, steps from each node to one of its children and stops at a leaf. */
  ghost predicate IsRootLeafPath(cells: seq<Cell<LogicTreeNode>>, r: Ref, p: seq<Ref>)
  {
    |p| > 0 && p[0] == r && InStore(cells, p) &&
    (forall k :: 0 <= k < |p| - 1 ==> p[k + 1] in cells[p[k]].children) &&
    cells[p[|p| - 1]].children == []
  }

  /** Every enumerated reference path is a chain from `x` down to a leaf. */
  lemma {:induction false} RefPathsSound(cells: seq<Cell<LogicTreeNode>>, x: Ref, i: nat)
    requires WellFormed(cells) && x < |cells| && i < |RefPaths(cells, x)|
    ensures IsRootLeafPath(cells, x, RefPaths(cells, x)[i])
    decreases |cells| - x, 1
  {
    if cells[x].children != [] {
      var p := RefPaths(cells, x)[i];
      RefPathsAllSound(cells, cells[x].children, x, i);
      ChainCons(cells, x, p[1..]);
      assert p == [x] + p[1..];
    }
  }

  lemma {:induction false} RefPathsAllSound(cells: seq<Cell<LogicTreeNode>>, rs: seq<Ref>, parent: nat, i: nat)
    requires WellFormed(cells) && After(cells, rs, parent) && i < |RefPathsAll(cells, rs, parent)|
    ensures var p := RefPathsAll(cells, rs, parent)[i];
      |p| > 1 && p[1] in rs && IsRootLeafPath(cells, p[1], p[1..])
    decreases |cells| - parent, 0, |rs|
  {
    var rs' := rs[..|rs| - 1];
    var a := RefPathsAll(cells, rs', parent);
    if i < |a| {
      RefPathsAllSound(cells, rs', parent, i);
    } else {
      var j := i - |a|;
      var p := RefPathsAll(cells, rs, parent)[i];
      RefPathsSound(cells, rs[|rs| - 1], j);
      assert p == [parent] + RefPaths(cells, rs[|rs| - 1])[j];
      assert p[1..] == RefPaths(cells, rs[|rs| - 1])[j];
    }
  }

  /** A chain from a child of `x` extends to a chain from `x`. */
  lemma ChainCons(cells: seq<Cell<LogicTreeNode>>, x: Ref, q: seq<Ref>)
    requires x < |cells| && |q| > 0 && q[0] in cells[x].children && IsRootLeafPath(cells, q[0], q)
    ensures IsRootLeafPath(cells, x, [x] + q)
  {
    var p := [x] + q;
    forall k | 0 <= k < |p| - 1 ensures p[k + 1] in cells[p[k]].children {
      if k > 0 {
        assert p[k] == q[k - 1] && p[k + 1] == q[k];
      }
    }
    assert p[|p| - 1] == q[|q| - 1];
  }

  lemma ChainFirstStep(cells: seq<Cell<LogicTreeNode>>, x: Ref, p: seq<Ref>)
    requires IsRootLeafPath(cells, x, p)
    ensures |p| == 1 || p[1] in cells[x].children
  {
    if |p| > 1 {
      assert p[0 + 1] in cells[p[0]].children;
    }
  }

  /** Every chain from `x` down to a leaf is enumerated. */
  lemma {:induction false} RefPathsComplete(cells: seq<Cell<LogicTreeNode>>, x: Ref, p: seq<Ref>)
    requires WellFormed(cells) && x < |cells| && IsRootLeafPath(cells, x, p)
    ensures p in RefPaths(cells, x)
    decreases |cells| - x, 1
  {
    if cells[x].children == [] {
      ChainFirstStep(cells, x, p);
      assert p == [x];
    } else {
      assert |p| > 1;
      var q := p[1..];
      forall k | 0 <= k < |q| - 1 ensures q[k + 1] in cells[q[k]].children {
        assert q[k] == p[k + 1] && q[k + 1] == p[k + 2];
      }
      assert p[1] in cells[p[0]].children;
      RefPathsAllComplete(cells, cells[x].children, x, p);
    }
  }

  lemma {:induction false} RefPathsAllComplete(cells: seq<Cell<LogicTreeNode>>, rs: seq<Ref>, parent: nat, p: seq<Ref>)
    requires WellFormed(cells) && After(cells, rs, parent)
    requires |p| > 1 && p[0] == parent && p[1] in rs && IsRootLeafPath(cells, p[1], p[1..])
    ensures p in RefPathsAll(cells, rs, parent)
    decreases |cells| - parent, 0, |rs|
  {
    var rs' := rs[..|rs| - 1];
    var last := rs[|rs| - 1];
    if p[1] == last {
      RefPathsComplete(cells, last, p[1..]);
      var j :| 0 <= j < |RefPaths(cells, last)| && RefPaths(cells, last)[j] == p[1..];
      assert p == [parent] + p[1..];
      assert Prepend(cells, parent, RefPaths(cells, last))[j] == p;
    } else {
      assert p[1] in rs' by {
        var k :| 0 <= k < |rs| && rs[k] == p[1];
        assert k < |rs'| && rs'[k] == rs[k];
      }
      RefPathsAllComplete(cells, rs', parent, p);
    }
  }

  /** The last nodes of some nonempty paths, in order. */
  function Lasts(ps: seq<seq<Ref>>): (ls: seq<Ref>)
    requires forall i :: 0 <= i < |ps| ==> |ps[i]| > 0
    ensures |ls| == |ps| && forall i :: 0 <= i < |ps| ==> ls[i] == ps[i][|ps[i]| - 1]
  {
    seq(|ps|, i requires 0 <= i < |ps| => ps[i][|ps[i]| - 1])
  }

  lemma LastsConcat(a: seq<seq<Ref>>, b: seq<seq<Ref>>)
    requires forall i :: 0 <= i < |a| ==> |a[i]| > 0
    requires forall i :: 0 <= i < |b| ==> |b[i]| > 0
    ensures Lasts(a + b) == Lasts(a) + Lasts(b)
  {
  }

  lemma LastsOfPrepend(cells: seq<Cell<LogicTreeNode>>, x: Ref, ps: seq<seq<Ref>>)
    requires x < |cells| && forall i :: 0 <= i < |ps| ==> |ps[i]| > 0 && InStore(cells, ps[i])
    ensures Lasts(Prepend(cells, x, ps)) == Lasts(ps)
  {
  }

  /** The enumerated paths end at the leaves under `x`, one path per leaf, in walk order. */
  lemma {:induction false} OnePathPerLeaf(cells: seq<Cell<LogicTreeNode>>, x: Ref)
    requires WellFormed(cells) && x < |cells|
    ensures Lasts(RefPaths(cells, x)) == LeavesOf(cells, x)
    decreases |cells| - x, 1
  {
    if cells[x].children != [] {
      OnePathPerLeafAll(cells, cells[x].children, x);
    }
  }

  lemma {:induction false} OnePathPerLeafAll(cells: seq<Cell<LogicTreeNode>>, rs: seq<Ref>, parent: nat)
    requires WellFormed(cells) && After(cells, rs, parent)
    ensures Lasts(RefPathsAll(cells, rs, parent)) == LeavesOfAll(cells, rs, parent)
    decreases |cells| - parent, 0, |rs|
  {
    if rs != [] {
      var rs' := rs[..|rs| - 1];
      var last := rs[|rs| - 1];
      OnePathPerLeafAll(cells, rs', parent);
      OnePathPerLeaf(cells, last);
      var a := RefPathsAll(cells, rs', parent);
      var b := Prepend(cells, parent, RefPaths(cells, last));
      LastsOfPrepend(cells, parent, RefPaths(cells, last));
      LastsConcat(a, b);
    }
  }

  /** Each enumerated path value holds the nodes of its chain and their weight product. */
  lemma AllPathsAreWeightedChains(cells: seq<Cell<LogicTreeNode>>, root: Ref, i: nat)
    requires WellFormed(cells) && root < |cells| && i < |AllPaths(cells, root)|
    ensures exists p :: IsRootLeafPath(cells, root, p) && AllPaths(cells, root)[i] == Weighted(Data(cells, p))
  {
    var p := RefPaths(cells, root)[i];
    RefPathsSound(cells, root, i);
    assert [] + Data(cells, p) == Data(cells, p);
  }

  /** Each root-to-leaf chain appears among the enumerated path values. */
  lemma AllPathsComplete(cells: seq<Cell<LogicTreeNode>>, root: Ref, p: seq<Ref>)
    requires WellFormed(cells) && root < |cells| && IsRootLeafPath(cells, root, p)
    ensures Weighted(Data(cells, p)) in AllPaths(cells, root)
  {
    RefPathsComplete(cells, root, p);
    var i :| 0 <= i < |RefPaths(cells, root)| && RefPaths(cells, root)[i] == p;
    assert [] + Data(cells, p) == Data(cells, p);
    assert AllPaths(cells, root)[i] == Weighted(Data(cells, p));
  }

  /** There are as many path values as leaves under the root. */
  lemma PathCountIsLeafCount(cells: seq<Cell<LogicTreeNode>>, root: Ref)
    requires WellFormed(cells) && root < |cells|
    ensures |AllPaths(cells, root)| == |LeavesOf(cells, root)|
  {
    OnePathPerLeaf(cells, root);
  }

  // ---------------------------------------------------------------------------
  // With valid weights, the path weights add up to the root's weight
  // ---------------------------------------------------------------------------

  /** The sum of the weights of `paths`. */
  function PathWeightSum(paths: seq<WeightedPath>): real
  {
    if paths == [] then 0.0 else PathWeightSum(paths[..|paths| - 1]) + paths[|paths| - 1].pathWeight
  }

  lemma {:induction false} PathWeightSumConcat(a: seq<WeightedPath>, b: seq<WeightedPath>)
    ensures PathWeightSum(a + b) == PathWeightSum(a) + PathWeightSum(b)
    decreases |b|
  {
    if b != [] {
      assert (a + b)[..|a + b| - 1] == a + b[..|b| - 1];
      assert (a + b)[|a + b| - 1] == b[|b| - 1];
      PathWeightSumConcat(a, b[..|b| - 1]);
    } else {
      assert a + b == a;
    }
  }

  /** The weight check holds below every child of a node where it holds. */
  lemma ValidWeightsOfChild(cells: seq<Cell<LogicTreeNode>>, x: Ref, k: nat)
    requires WellFormed(cells) && x < |cells| && ValidWeights(cells, x) && k < |cells[x].children|
    ensures ValidWeights(cells, cells[x].children[k])
  {
    forall y | y in PreOrder(cells, cells[x].children[k]) ensures ChildWeightsSumToOne(cells, y) {
      PreOrderAllContains(cells, cells[x].children, x, k, y);
    }
  }

  lemma ScaleSum(p: real, s: real, w: real, t: real)
    requires t == s + w
    ensures p * s + p * w == p * t
  {
  }

  lemma ScaleEqual(p: real, x: real, y: real)
    requires x == y
    ensures p * x == p * y
  {
  }

  lemma ScaleZero(p: real, s: real)
    requires s == 0.0
    ensures p * s == 0.0
  {
  }

  lemma ScaleOne(p: real, s: real)
    requires s == 1.0
    ensures p * s == p
  {
  }

  /** The product of the weights of the nodes `p`, taken from the front. */
  function RefProduct(cells: seq<Cell<LogicTreeNode>>, p: seq<Ref>): real
    requires InStore(cells, p)
  {
    if p == [] then 1.0 else cells[p[0]].data.uncertaintyWeight * RefProduct(cells, p[1..])
  }

  /** The weight of a reference path is the weight of the path value built from it. */
  lemma {:induction false} RefProductIsProduct(cells: seq<Cell<LogicTreeNode>>, p: seq<Ref>)
    requires InStore(cells, p)
    ensures RefProduct(cells, p) == Product(Data(cells, p))
    decreases |p|
  {
    if p != [] {
      RefProductIsProduct(cells, p[1..]);
      assert Data(cells, p) == [cells[p[0]].data] + Data(cells, p[1..]);
      ProductCons(cells[p[0]].data, Data(cells, p[1..]));
      ScaleEqual(cells[p[0]].data.uncertaintyWeight, RefProduct(cells, p[1..]), Product(Data(cells, p[1..])));
    }
  }

  /** The sum of the weight products of the reference paths `ps`. */
  function RefWeight(cells: seq<Cell<LogicTreeNode>>, ps: seq<seq<Ref>>): real
    requires forall i :: 0 <= i < |ps| ==> InStore(cells, ps[i])
  {
    if ps == [] then 0.0 else RefWeight(cells, ps[..|ps| - 1]) + RefProduct(cells, ps[|ps| - 1])
  }

  lemma {:induction false} RefWeightConcat(cells: seq<Cell<LogicTreeNode>>, a: seq<seq<Ref>>, b: seq<seq<Ref>>)
    requires forall i :: 0 <= i < |a| ==> InStore(cells, a[i])
    requires forall i :: 0 <= i < |b| ==> InStore(cells, b[i])
    ensures RefWeight(cells, a + b) == RefWeight(cells, a) + RefWeight(cells, b)
    decreases |b|
  {
    if b == [] {
      assert a + b == a;
    } else {
      assert (a + b)[..|a + b| - 1] == a + b[..|b| - 1];
      assert (a + b)[|a + b| - 1] == b[|b| - 1];
      RefWeightConcat(cells, a, b[..|b| - 1]);
    }
  }

  /** Putting `x` in front of every path multiplies the total by the weight of `x`. */
  lemma {:induction false} RefWeightPrepend(cells: seq<Cell<LogicTreeNode>>, x: Ref, ps: seq<seq<Ref>>)
    requires x < |cells| && forall i :: 0 <= i < |ps| ==> InStore(cells, ps[i])
    ensures RefWeight(cells, Prepend(cells, x, ps)) == cells[x].data.uncertaintyWeight * RefWeight(cells, ps)
    decreases |ps|
  {
    if ps != [] {
      var ps' := ps[..|ps| - 1];
      var q := ps[|ps| - 1];
      var qs := Prepend(cells, x, ps);
      assert qs[..|qs| - 1] == Prepend(cells, x, ps');
      assert qs[|qs| - 1] == [x] + q;
      assert ([x] + q)[1..] == q;
      RefWeightPrepend(cells, x, ps');
      ScaleSum(cells[x].data.uncertaintyWeight, RefWeight(cells, ps'), RefProduct(cells, q), RefWeight(cells, ps));
    } else {
      assert Prepend(cells, x, ps) == [];
      ScaleZero(cells[x].data.uncertaintyWeight, RefWeight(cells, ps));
    }
  }

  /** The reference paths weigh as much as the path values built from them. */
  lemma {:induction false} PathWeightSumOfExtend(cells: seq<Cell<LogicTreeNode>>, ps: seq<seq<Ref>>)
    requires forall i :: 0 <= i < |ps| ==> InStore(cells, ps[i])
    ensures PathWeightSum(Extend(cells, [], ps)) == RefWeight(cells, ps)
    decreases |ps|
  {
    if ps != [] {
      var ps' := ps[..|ps| - 1];
      var q := ps[|ps| - 1];
      ExtendStep(cells, ps);
      RefProductIsProduct(cells, q);
      PathWeightSumOfExtend(cells, ps');
    }
  }

  lemma ExtendStep(cells: seq<Cell<LogicTreeNode>>, ps: seq<seq<Ref>>)
    requires (forall i :: 0 <= i < |ps| ==> InStore(cells, ps[i])) && ps != []
    ensures var e := Extend(cells, [], ps);
      e[..|e| - 1] == Extend(cells, [], ps[..|ps| - 1]) && e[|e| - 1].pathWeight == Product(Data(cells, ps[|ps| - 1]))
  {
    assert [] + Data(cells, ps[|ps| - 1]) == Data(cells, ps[|ps| - 1]);
  }

  /** The paths through each of `rs` in turn, without a common parent in front. */
  function Below(cells: seq<Cell<LogicTreeNode>>, rs: seq<Ref>): (ps: seq<seq<Ref>>)
    requires WellFormed(cells) && InStore(cells, rs)
    ensures forall i :: 0 <= i < |ps| ==> InStore(cells, ps[i])
  {
    if rs == [] then [] else Below(cells, rs[..|rs| - 1]) + RefPaths(cells, rs[|rs| - 1])
  }

  lemma PrependConcat(cells: seq<Cell<LogicTreeNode>>, x: Ref, a: seq<seq<Ref>>, b: seq<seq<Ref>>)
    requires x < |cells|
    requires forall i :: 0 <= i < |a| ==> InStore(cells, a[i])
    requires forall i :: 0 <= i < |b| ==> InStore(cells, b[i])
    ensures Prepend(cells, x, a + b) == Prepend(cells, x, a) + Prepend(cells, x, b)
  {
  }

  /** Putting the parent in front of each sibling's paths is putting it in front of all of them. */
  lemma {:induction false} RefPathsAllIsPrepend(cells: seq<Cell<LogicTreeNode>>, rs: seq<Ref>, parent: nat)
    requires WellFormed(cells) && parent < |cells| && After(cells, rs, parent)
    ensures RefPathsAll(cells, rs, parent) == Prepend(cells, parent, Below(cells, rs))
    decreases |rs|
  {
    if rs != [] {
      RefPathsAllIsPrepend(cells, rs[..|rs| - 1], parent);
      PrependConcat(cells, parent, Below(cells, rs[..|rs| - 1]), RefPaths(cells, rs[|rs| - 1]));
    }
  }

  /** When the paths below each of `rs` weigh as much as it, all of them weigh the total of `rs`. */
  lemma {:induction false} BelowWeight(cells: seq<Cell<LogicTreeNode>>, rs: seq<Ref>)
    requires WellFormed(cells) && InStore(cells, rs)
    requires forall k :: 0 <= k < |rs| ==> RefWeight(cells, RefPaths(cells, rs[k])) == cells[rs[k]].data.uncertaintyWeight
    ensures RefWeight(cells, Below(cells, rs)) == Sum(Weights(cells, rs))
    decreases |rs|
  {
    if rs == [] {
      assert Weights(cells, rs) == [];
    } else {
      BelowWeight(cells, rs[..|rs| - 1]);
      RefWeightConcat(cells, Below(cells, rs[..|rs| - 1]), RefPaths(cells, rs[|rs| - 1]));
      SumWeightsStep(cells, rs);
    }
  }

  /** Paths weighing 1 together weigh the node's weight once the node is put in front. */
  lemma {:induction false} PrependWeightOne(cells: seq<Cell<LogicTreeNode>>, x: Ref, ps: seq<seq<Ref>>)
    requires x < |cells| && forall i :: 0 <= i < |ps| ==> InStore(cells, ps[i])
    requires RefWeight(cells, ps) == 1.0
    ensures RefWeight(cells, Prepend(cells, x, ps)) == cells[x].data.uncertaintyWeight
  {
    RefWeightPrepend(cells, x, ps);
    ScaleOne(cells[x].data.uncertaintyWeight, RefWeight(cells, ps));
  }

  /** Below a node where the weights are valid, the paths weigh as much as the node itself. */
  lemma {:induction false} WeightBelow(cells: seq<Cell<LogicTreeNode>>, x: Ref)
    requires WellFormed(cells) && x < |cells| && ValidWeights(cells, x)
    ensures RefWeight(cells, RefPaths(cells, x)) == cells[x].data.uncertaintyWeight
    decreases |cells| - x
  {
    var d := cells[x].data;
    if cells[x].children == [] {
      assert [[x]][..0] == [];
      assert [x][1..] == [];
      assert RefProduct(cells, [x]) == d.uncertaintyWeight * 1.0;
    } else {
      var ch := cells[x].children;
      forall k | 0 <= k < |ch|
        ensures RefWeight(cells, RefPaths(cells, ch[k])) == cells[ch[k]].data.uncertaintyWeight
      {
        ValidWeightsOfChild(cells, x, k);
        WeightBelow(cells, ch[k]);
      }
      BelowWeight(cells, ch);
      assert x in PreOrder(cells, x);
      RefPathsAllIsPrepend(cells, ch, x);
      PrependWeightOne(cells, x, Below(cells, ch));
    }
  }

  lemma SumWeightsStep(cells: seq<Cell<LogicTreeNode>>, rs: seq<Ref>)
    requires InStore(cells, rs) && rs != []
    ensures Sum(Weights(cells, rs)) == Sum(Weights(cells, rs[..|rs| - 1])) + cells[rs[|rs| - 1]].data.uncertaintyWeight
  {
    assert Weights(cells, rs)[..|rs| - 1] == Weights(cells, rs[..|rs| - 1]);
  }

  /**
   * When every node's children weigh exactly 1 together, the weights of all
   * end-branch paths add up to the root's weight (1 for a parsed tree).
   */
  lemma TotalPathWeight(cells: seq<Cell<LogicTreeNode>>, root: Ref)
    requires WellFormed(cells) && root < |cells| && ValidWeights(cells, root)
    ensures PathWeightSum(AllPaths(cells, root)) == cells[root].data.uncertaintyWeight
  {
    WeightBelow(cells, root);
    PathWeightSumOfExtend(cells, RefPaths(cells, root));
  }

  /**
   * The recursion over the tree. `path` is the shared buffer of the nodes on
   * the way down, of which the first `pathLen` are the ancestors of `x`; the
   * paths found under `x` are appended to `paths` in walk order.
   */
  method ComputeAllLogicTreePathsFrom(tree: Tree<LogicTreeNode>, x: Ref, path: seq<LogicTreeNode>, pathLen: nat,
                                      paths: seq<WeightedPath>)
    returns (path': seq<LogicTreeNode>, paths': seq<WeightedPath>)
    requires tree.Valid() && x < |tree.cells| && pathLen <= |path|
    ensures pathLen < |path'| && path'[..pathLen] == path[..pathLen]
    ensures paths' == paths + Extend(tree.cells, path[..pathLen], RefPaths(tree.cells, x))
    decreases |tree.cells| - x, 1
  {
    var data := tree.cells[x].data;
    if |path| <= pathLen {
      path' := path[..pathLen] + [data] + path[pathLen..];
    } else {
      path' := path[pathLen := data];
    }
    assert path'[..pathLen] == path[..pathLen];
    assert path'[..pathLen + 1] == path[..pathLen] + [data];
    var len := pathLen + 1;
    var children := tree.cells[x].children;
    if children == [] {
      var leafPath := LeafPath(path', len);
      assert Data(tree.cells, [x]) == [data];
      paths' := paths + [leafPath];
    } else {
      path', paths' := ComputeChildPaths(tree, x, path', pathLen, paths);
      assert path'[..pathLen] == (path[..pathLen] + [data])[..pathLen];
    }
  }

  /**
   * The loop over the children of `x`, whose data already sits at position
   * `pathLen` of the buffer.
   */
  method ComputeChildPaths(tree: Tree<LogicTreeNode>, x: Ref, path: seq<LogicTreeNode>, pathLen: nat,
                           paths: seq<WeightedPath>)
    returns (path': seq<LogicTreeNode>, paths': seq<WeightedPath>)
    requires tree.Valid() && x < |tree.cells| && pathLen < |path| && path[pathLen] == tree.cells[x].data
    ensures pathLen < |path'| && path'[..pathLen + 1] == path[..pathLen + 1]
    ensures paths' == paths + Extend(tree.cells, path[..pathLen], RefPathsAll(tree.cells, tree.cells[x].children, x))
    decreases |tree.cells| - x, 0
  {
    var children := tree.cells[x].children;
    ghost var cells := tree.cells;
    ghost var prefix := path[..pathLen];
    assert path[..pathLen + 1] == prefix + [cells[x].data];
    path', paths' := path, paths;
    for i := 0 to |children|
      invariant pathLen < |path'| && path'[..pathLen + 1] == path[..pathLen + 1]
      invariant paths' == paths + Extend(cells, prefix, RefPathsAll(cells, children[..i], x))
    {
      ghost var before := path';
      ghost var found := paths';
      path', paths' := ComputeAllLogicTreePathsFrom(tree, children[i], path', pathLen + 1, paths');
      assert path'[..pathLen + 1] == before[..pathLen + 1];
      ExtendChildStep(cells, prefix, x, i);
      ConcatAssociative(paths, Extend(cells, prefix, RefPathsAll(cells, children[..i], x)),
                        Extend(cells, prefix + [cells[x].data], RefPaths(cells, children[i])));
    }
    assert children[..|children|] == children;
  }

  /** The path value for the first `len` nodes of the buffer: the leaf case of the recursion. */
  method LeafPath(path: seq<LogicTreeNode>, len: nat) returns (p: WeightedPath)
    requires len <= |path|
    ensures p == Weighted(path[..len])
  {
    var nodeList := [];
    var pathWeight := 1.0;
    for i := 0 to len
      invariant nodeList == path[..i] && pathWeight == Product(nodeList)
    {
      assert path[..i + 1] == path[..i] + [path[i]];
      nodeList := nodeList + [path[i]];
      pathWeight := pathWeight * path[i].uncertaintyWeight;
    }
    p := WeightedPath(nodeList, pathWeight);
  }

  /**
   * Every end-branch path of the tree with its weight, in walk order; a tree
   * without a root has none.
   */
  method ComputeAllLogicTreePaths(tree: Tree<LogicTreeNode>) returns (logicTreePaths: seq<WeightedPath>)
    requires tree.Valid()
    ensures tree.root.None? ==> logicTreePaths == []
    ensures tree.root.Some? ==> logicTreePaths == AllPaths(tree.cells, tree.root.value)
  {
    logicTreePaths := [];
    var path := [];
    var pathLen := 0;
    if tree.root.Some? {
      path, logicTreePaths := ComputeAllLogicTreePathsFrom(tree, tree.root.value, path, pathLen, logicTreePaths);
    }
  }

  // ---------------------------------------------------------------------------
  // sampleLogicTreePaths, sampleLogicTreePath, sampleChild
  // ---------------------------------------------------------------------------

  /**
   * The source of random numbers: the values successive nextDouble() calls
   * return, in order, and how many have been taken so far.
   */
  class DrawStream {
    const draws: nat -> real
    var position: nat

    constructor (draws: nat -> real)
      ensures this.draws == draws && position == 0
    {
      this.draws := draws;
      position := 0;
    }

    /** The next value of the stream. */
    method NextDouble() returns (u: real)
      modifies this
      ensures u == draws(old(position)) && position == old(position) + 1
    {
      u := draws(position);
      position := position + 1;
    }
  }

  /** The total of `ws` up to and including index `j`. */
  function RunningTotal(ws: seq<real>, j: nat): real
    requires j < |ws|
  {
    Sum(ws[..j + 1])
  }

  lemma SumPrefixStep(ws: seq<real>, j: nat)
    requires j < |ws|
    ensures RunningTotal(ws, j) == Sum(ws[..j]) + ws[j]
  {
    assert ws[..j + 1][..j] == ws[..j];
  }

  /**
   * The inverse-transform choice: the first index at which the running total
   * of `ws` reaches `u`, or None when no running total does.
   */
  function SampleIndex(ws: seq<real>, u: real): (r: Option<nat>)
    ensures r.Some? ==> r.value < |ws| && u <= RunningTotal(ws, r.value)
    ensures r.Some? ==> forall k :: 0 <= k < r.value ==> RunningTotal(ws, k) < u
    ensures r.None? ==> forall k :: 0 <= k < |ws| ==> RunningTotal(ws, k) < u
  {
    SampleIndexFrom(ws, u, 0, 0.0)
  }

  /** SampleIndex, with the totals before `j` known to stay below `u` and `p` the total of them. */
  function SampleIndexFrom(ws: seq<real>, u: real, j: nat, p: real): (r: Option<nat>)
    requires j <= |ws| && p == Sum(ws[..j])
    requires forall k :: 0 <= k < j ==> RunningTotal(ws, k) < u
    ensures r.Some? ==> j <= r.value < |ws| && u <= RunningTotal(ws, r.value)
    ensures r.Some? ==> forall k :: 0 <= k < r.value ==> RunningTotal(ws, k) < u
    ensures r.None? ==> forall k :: 0 <= k < |ws| ==> RunningTotal(ws, k) < u
    decreases |ws| - j
  {
    if j == |ws| then None
    else
      SumPrefixStep(ws, j);
      if u <= p + ws[j] then Some(j) else SampleIndexFrom(ws, u, j + 1, p + ws[j])
  }

  /** An index whose running total is the first to reach `u` is the one chosen. */
  lemma SampleIndexUnique(ws: seq<real>, u: real, j: nat)
    requires j < |ws| && u <= RunningTotal(ws, j)
    requires forall k :: 0 <= k < j ==> RunningTotal(ws, k) < u
    ensures SampleIndex(ws, u) == Some(j)
  {
  }

  /** A choice is made whenever `u` does not exceed the total of all the weights. */
  lemma SampleIndexCovers(ws: seq<real>, u: real)
    requires ws != [] && u <= Sum(ws)
    ensures SampleIndex(ws, u).Some?
  {
    assert ws[..|ws| - 1 + 1] == ws;
    assert RunningTotal(ws, |ws| - 1) == Sum(ws);
  }

  /** With non-negative weights the running totals never decrease. */
  lemma {:induction false} SumPrefixMonotone(ws: seq<real>, i: nat, j: nat)
    requires i <= j <= |ws| && forall k :: 0 <= k < |ws| ==> ws[k] >= 0.0
    ensures Sum(ws[..i]) <= Sum(ws[..j])
    decreases j - i
  {
    if i < j {
      SumPrefixMonotone(ws, i, j - 1);
      SumPrefixStep(ws, j - 1);
    }
  }

  /**
   * With non-negative weights, index `j` is chosen exactly when `u` lies in
   * its interval: above the total before it and at most the total up to it.
   */
  lemma SampleIndexInterval(ws: seq<real>, u: real, j: nat)
    requires j < |ws| && forall k :: 0 <= k < |ws| ==> ws[k] >= 0.0
    ensures SampleIndex(ws, u) == Some(j) <==> Sum(ws[..j]) < u <= RunningTotal(ws, j) || (j == 0 && u <= RunningTotal(ws, 0))
  {
    if Sum(ws[..j]) < u <= RunningTotal(ws, j) {
      forall k | 0 <= k < j ensures RunningTotal(ws, k) < u {
        SumPrefixMonotone(ws, k + 1, j);
      }
      SampleIndexUnique(ws, u, j);
    } else if j == 0 && u <= RunningTotal(ws, 0) {
      SampleIndexUnique(ws, u, j);
    } else if j > 0 {
      assert RunningTotal(ws, j - 1) == Sum(ws[..j]);
    }
  }

  /** The child sampleChild picks for the draw `u`, or None for the source's null. */
  function ChildFor(cells: seq<Cell<LogicTreeNode>>, children: seq<Ref>, u: real): (r: Option<Ref>)
    requires InStore(cells, children)
    ensures r.Some? ==> r.value in children
  {
    match SampleIndex(Weights(cells, children), u)
    case None => None
    case Some(j) => Some(children[j])
  }

  /**
   * sampleChild: copies the children and their weights into two arrays, takes
   * one draw and returns the first child at which the running total of the
   * weights reaches it; None (the source's null) when no total does.
   */
  method SampleChild(cells: seq<Cell<LogicTreeNode>>, children: seq<Ref>, rn: DrawStream) returns (sampledNode: Option<Ref>)
    requires InStore(cells, children)
    modifies rn
    ensures rn.position == old(rn.position) + 1
    ensures sampledNode == ChildFor(cells, children, rn.draws(old(rn.position)))
  {
    ghost var ws := Weights(cells, children);
    var prob := new real[|children|];
    var x := new Ref[|children|];
    for i := 0 to |children|
      modifies x, prob
      invariant forall k :: 0 <= k < i ==> x[k] == children[k] && prob[k] == ws[k]
    {
      x[i] := children[i];
      prob[i] := cells[children[i]].data.uncertaintyWeight;
    }
    assert x[..] == children && prob[..] == ws;
    sampledNode := None;
    var u := rn.NextDouble();
    var p := 0.0;
    for j := 0 to x.Length
      modifies {}
      invariant p == Sum(ws[..j])
      invariant forall k :: 0 <= k < j ==> RunningTotal(ws, k) < u
      invariant sampledNode == None
    {
      SumPrefixStep(ws, j);
      p := p + prob[j];
      assert p == RunningTotal(ws, j) == Sum(ws[..j + 1]);
      if u <= p {
        SampleIndexUnique(ws, u, j);
        sampledNode := Some(x[j]);
        return;
      }
    }
  }

  /**
   * The references sampleLogicTreePath adds below `x` when its draws are taken
   * from position `pos` on, and the position after the last of them; None
   * when a draw is left uncovered by the children's weights (the source then
   * dereferences null).
   */
  function SampleFrom(cells: seq<Cell<LogicTreeNode>>, x: Ref, draws: nat -> real, pos: nat): (r: Option<(seq<Ref>, nat)>)
    requires WellFormed(cells) && x < |cells|
    ensures r.Some? ==> r.value.1 == pos + |r.value.0| && InStore(cells, r.value.0)
    decreases |cells| - x
  {
    var children := cells[x].children;
    if children == [] then Some(([], pos))
    else
      match ChildFor(cells, children, draws(pos))
      case None => None
      case Some(c) =>
        match SampleFrom(cells, c, draws, pos + 1)
        case None => None
        case Some((rest, pos')) => Some(([c] + rest, pos'))
  }

  /** A sampled chain leads from `x` down to a leaf, one child at a time. */
  lemma {:induction false} SampleFromIsChain(cells: seq<Cell<LogicTreeNode>>, x: Ref, draws: nat -> real, pos: nat)
    requires WellFormed(cells) && x < |cells| && SampleFrom(cells, x, draws, pos).Some?
    ensures IsRootLeafPath(cells, x, [x] + SampleFrom(cells, x, draws, pos).value.0)
    decreases |cells| - x
  {
    var children := cells[x].children;
    if children != [] {
      var c := ChildFor(cells, children, draws(pos)).value;
      SampleFromIsChain(cells, c, draws, pos + 1);
      var q := [c] + SampleFrom(cells, c, draws, pos + 1).value.0;
      assert q == SampleFrom(cells, x, draws, pos).value.0;
      ChainCons(cells, x, q);
    }
  }

  /**
   * With valid weights below `x` and every draw below 1 (as nextDouble()
   * guarantees), sampling never meets an uncovered draw.
   */
  lemma {:induction false} SampleFromSucceeds(cells: seq<Cell<LogicTreeNode>>, x: Ref, draws: nat -> real, pos: nat)
    requires WellFormed(cells) && x < |cells| && ValidWeights(cells, x)
    requires forall k :: draws(k) < 1.0
    ensures SampleFrom(cells, x, draws, pos).Some?
    decreases |cells| - x
  {
    var children := cells[x].children;
    if children != [] {
      assert x in PreOrder(cells, x);
      SampleIndexCovers(Weights(cells, children), draws(pos));
      var j := SampleIndex(Weights(cells, children), draws(pos)).value;
      ValidWeightsOfChild(cells, x, j);
      SampleFromSucceeds(cells, children[j], draws, pos + 1);
    }
  }

  /** `w` multiplied by the weights of `nodes` one at a time, first to last. */
  function Multiplied(w: real, nodes: seq<LogicTreeNode>): real
    decreases |nodes|
  {
    if nodes == [] then w else Multiplied(w * nodes[0].uncertaintyWeight, nodes[1..])
  }

  /** The first multiplication of Multiplied, for a non-empty list. */
  lemma MultipliedFirst(w: real, nodes: seq<LogicTreeNode>)
    requires nodes != []
    ensures Multiplied(w, nodes) == Multiplied(w * nodes[0].uncertaintyWeight, nodes[1..])
  {
  }

  /** Multiplying onto `w` the weights of `d` and then of `rest`. */
  lemma MultipliedCons(w: real, d: LogicTreeNode, rest: seq<LogicTreeNode>)
    ensures Multiplied(w, [d] + rest) == Multiplied(w * d.uncertaintyWeight, rest)
  {
    MultipliedFirst(w, [d] + rest);
    assert ([d] + rest)[1..] == rest;
  }

  /** Multiplying the weights one at a time onto `w` multiplies `w` by their product. */
  lemma {:induction false} MultipliedIsProduct(w: real, nodes: seq<LogicTreeNode>)
    ensures Multiplied(w, nodes) == w * Product(nodes)
    decreases |nodes|
  {
    if nodes == [] {
      assert Product(nodes) == 1.0;
    } else {
      var n := nodes[0];
      var rest := nodes[1..];
      assert nodes == [n] + rest;
      MultipliedCons(w, n, rest);
      MultipliedIsProduct(w * n.uncertaintyWeight, rest);
      ProductCons(n, rest);
      ScaleAssoc(w, n.uncertaintyWeight, Product(rest));
      ScaleEqual(w, Product([n] + rest), n.uncertaintyWeight * Product(rest));
    }
  }

  lemma ScaleAssoc(a: real, b: real, c: real)
    ensures (a * b) * c == a * (b * c)
  {
  }

  lemma ScaleRight(x: real, y: real, p: real)
    requires x == y
    ensures x * p == y * p
  {
  }

  /** After the draw at `pos` picks child `c`, sampling from `x` is sampling from `c` one draw later. */
  lemma SampleFromStep(cells: seq<Cell<LogicTreeNode>>, x: Ref, draws: nat -> real, pos: nat, c: Ref)
    requires WellFormed(cells) && x < |cells| && cells[x].children != []
    requires ChildFor(cells, cells[x].children, draws(pos)) == Some(c)
    ensures c < |cells|
    ensures SampleFrom(cells, x, draws, pos).Some? == SampleFrom(cells, c, draws, pos + 1).Some?
    ensures SampleFrom(cells, c, draws, pos + 1).Some? ==>
      SampleFrom(cells, x, draws, pos).value
        == ([c] + SampleFrom(cells, c, draws, pos + 1).value.0, SampleFrom(cells, c, draws, pos + 1).value.1)
  {
  }

  /**
   * Once the draw at `pos` has picked child `c` and sampling from `c` succeeds,
   * adding `c`'s node and then the nodes sampled below `c` (multiplying their
   * weights on) is adding the nodes sampled below `x`.
   */
  lemma SampleStep(cells: seq<Cell<LogicTreeNode>>, x: Ref, draws: nat -> real, pos: nat, c: Ref,
                   p0: seq<LogicTreeNode>, w0: real, w1: real)
    requires WellFormed(cells) && x < |cells| && cells[x].children != []
    requires ChildFor(cells, cells[x].children, draws(pos)) == Some(c)
    requires SampleFrom(cells, c, draws, pos + 1).Some?
    ensures SampleFrom(cells, x, draws, pos).Some?
    ensures SampleFrom(cells, x, draws, pos).value.1 == SampleFrom(cells, c, draws, pos + 1).value.1
    ensures p0 + [cells[c].data] + Data(cells, SampleFrom(cells, c, draws, pos + 1).value.0)
      == p0 + Data(cells, SampleFrom(cells, x, draws, pos).value.0)
    ensures w1 == w0 * cells[c].data.uncertaintyWeight ==>
      Multiplied(w1, Data(cells, SampleFrom(cells, c, draws, pos + 1).value.0))
        == Multiplied(w0, Data(cells, SampleFrom(cells, x, draws, pos).value.0))
  {
    SampleFromStep(cells, x, draws, pos, c);
    var rest := SampleFrom(cells, c, draws, pos + 1).value.0;
    ConsInStore(cells, c, rest);
    assert Data(cells, [c] + rest) == [cells[c].data] + Data(cells, rest);
    Trees.ConcatAssociative(p0, [cells[c].data], Data(cells, rest));
    MultipliedCons(w0, cells[c].data, Data(cells, rest));
  }

  /**
   * sampleLogicTreePath: from `node` down to a leaf, samples a child, adds it
   * to `path` and goes on from it. `ok` is false where the source dereferences
   * the null of an uncovered draw.
   */
  method SampleLogicTreePath(cells: seq<Cell<LogicTreeNode>>, node: Ref, rn: DrawStream, path: LogicTreePath) returns (ok: bool)
    requires WellFormed(cells) && node < |cells|
    modifies rn, path
    ensures ok == SampleFrom(cells, node, rn.draws, old(rn.position)).Some?
    ensures ok ==> var r := SampleFrom(cells, node, rn.draws, old(rn.position)).value;
      rn.position == r.1 && path.path == old(path.path) + Data(cells, r.0)
    ensures ok ==>
      path.pathWeight == Multiplied(old(path.pathWeight), Data(cells, SampleFrom(cells, node, rn.draws, old(rn.position)).value.0))
    decreases |cells| - node
  {
    ghost var pos, p0, w0 := rn.position, path.path, path.pathWeight;
    var children := cells[node].children;
    if children == [] {
      assert p0 + Data(cells, []) == p0;
      return true;
    }
    var sampledNode := SampleChild(cells, children, rn);
    if sampledNode.None? {
      return false;
    }
    var c := sampledNode.value;
    SampleFromStep(cells, node, rn.draws, pos, c);
    assert path.pathWeight == w0;
    path.AddNode(cells[c].data);
    ghost var w1 := path.pathWeight;
    assert w1 == w0 * cells[c].data.uncertaintyWeight;
    assert rn.position == pos + 1;
    ok := SampleLogicTreePath(cells, c, rn, path);
    if ok {
      assert path.pathWeight == Multiplied(w1, Data(cells, SampleFrom(cells, c, rn.draws, pos + 1).value.0));
      SampleStep(cells, node, rn.draws, pos, c, p0, w0, w1);
    }
  }

  /**
   * The path value sampleLogicTreePaths records for a chain below the root:
   * the root's node followed by the chain's nodes, weighing 1 multiplied by
   * the chain's weights one at a time (the root's own weight is not included).
   */
  function SampledPath(cells: seq<Cell<LogicTreeNode>>, root: Ref, chain: seq<Ref>): (p: WeightedPath)
    requires root < |cells| && InStore(cells, chain)
    ensures |p.path| == |chain| + 1 && p.path[0] == cells[root].data
  {
    WeightedPath([cells[root].data] + Data(cells, chain), Multiplied(1.0, Data(cells, chain)))
  }

  /** `n` sampled path values, one after the other from draw position `pos`, and the position after them. */
  function SamplePaths(cells: seq<Cell<LogicTreeNode>>, root: Ref, draws: nat -> real, pos: nat, n: int): (r: Option<(seq<WeightedPath>, nat)>)
    requires WellFormed(cells) && root < |cells|
    ensures r.Some? ==> |r.value.0| == if n < 0 then 0 else n
    decreases if n < 0 then 0 else n
  {
    if n <= 0 then Some(([], pos))
    else
      match SamplePaths(cells, root, draws, pos, n - 1)
      case None => None
      case Some((paths, pos1)) =>
        match SampleFrom(cells, root, draws, pos1)
        case None => None
        case Some((chain, pos2)) => Some((paths + [SampledPath(cells, root, chain)], pos2))
  }

  /** One more sampling after `i` of them appends the newly sampled path value. */
  lemma SamplePathsStep(cells: seq<Cell<LogicTreeNode>>, root: Ref, draws: nat -> real, pos: nat, i: nat,
                        paths: seq<WeightedPath>, pos1: nat)
    requires WellFormed(cells) && root < |cells|
    requires SamplePaths(cells, root, draws, pos, i) == Some((paths, pos1))
    ensures SamplePaths(cells, root, draws, pos, i + 1).Some? == SampleFrom(cells, root, draws, pos1).Some?
    ensures SampleFrom(cells, root, draws, pos1).Some? ==>
      var s := SampleFrom(cells, root, draws, pos1).value;
      SamplePaths(cells, root, draws, pos, i + 1) == Some((paths + [SampledPath(cells, root, s.0)], s.1))
  {
  }

  /** Once a sampling has failed, asking for more paths fails too. */
  lemma {:induction false} SamplePathsFailureStays(cells: seq<Cell<LogicTreeNode>>, root: Ref, draws: nat -> real, pos: nat,
                                                    i: int, n: int)
    requires WellFormed(cells) && root < |cells| && i <= n
    requires SamplePaths(cells, root, draws, pos, i).None?
    ensures SamplePaths(cells, root, draws, pos, n).None?
    decreases n - i
  {
    if i < n {
      SamplePathsFailureStays(cells, root, draws, pos, i, n - 1);
    }
  }

  /**
   * With a root weight of 1 (the parser's root node), every sampled path value
   * is one of the enumerated path values.
   */
  lemma {:induction false} SampledPathsAreEnumerated(cells: seq<Cell<LogicTreeNode>>, root: Ref, draws: nat -> real, pos: nat, n: int)
    requires WellFormed(cells) && root < |cells| && cells[root].data.uncertaintyWeight == 1.0
    requires SamplePaths(cells, root, draws, pos, n).Some?
    ensures forall p :: p in SamplePaths(cells, root, draws, pos, n).value.0 ==> p in AllPaths(cells, root)
    decreases if n < 0 then 0 else n
  {
    if n > 0 {
      var (paths, pos1) := SamplePaths(cells, root, draws, pos, n - 1).value;
      SampledPathsAreEnumerated(cells, root, draws, pos, n - 1);
      var chain := SampleFrom(cells, root, draws, pos1).value.0;
      SampleFromIsChain(cells, root, draws, pos1);
      SampledPathIsEnumerated(cells, root, chain);
    }
  }

  lemma SampledPathIsEnumerated(cells: seq<Cell<LogicTreeNode>>, root: Ref, chain: seq<Ref>)
    requires WellFormed(cells) && root < |cells| && cells[root].data.uncertaintyWeight == 1.0
    requires InStore(cells, chain) && IsRootLeafPath(cells, root, [root] + chain)
    ensures SampledPath(cells, root, chain) in AllPaths(cells, root)
  {
    var d := cells[root].data;
    AllPathsComplete(cells, root, [root] + chain);
    assert Data(cells, [root] + chain) == [d] + Data(cells, chain);
    ProductCons(d, Data(cells, chain));
    ScaleRight(d.uncertaintyWeight, 1.0, Product(Data(cells, chain)));
    MultipliedIsProduct(1.0, Data(cells, chain));
  }

  /** With valid weights and every draw below 1, all `n` samplings succeed. */
  lemma {:induction false} SamplePathsSucceed(cells: seq<Cell<LogicTreeNode>>, root: Ref, draws: nat -> real, pos: nat, n: int)
    requires WellFormed(cells) && root < |cells| && ValidWeights(cells, root)
    requires forall k :: draws(k) < 1.0
    ensures SamplePaths(cells, root, draws, pos, n).Some?
    decreases if n < 0 then 0 else n
  {
    if n > 0 {
      SamplePathsSucceed(cells, root, draws, pos, n - 1);
      var prev := SamplePaths(cells, root, draws, pos, n - 1).value;
      SampleFromSucceeds(cells, root, draws, prev.1);
      SamplePathsStep(cells, root, draws, pos, n - 1, prev.0, prev.1);
    }
  }

  /**
   * One round of sampleLogicTreePaths: a path holding the root's node with
   * weight 1, sampled down to a leaf.
   */
  method SampleRootPath(cells: seq<Cell<LogicTreeNode>>, root: Ref, rn: DrawStream) returns (p: Option<WeightedPath>)
    requires WellFormed(cells) && root < |cells|
    modifies rn
    ensures p.Some? == SampleFrom(cells, root, rn.draws, old(rn.position)).Some?
    ensures p.Some? ==> var r := SampleFrom(cells, root, rn.draws, old(rn.position)).value;
      p.value == SampledPath(cells, root, r.0) && rn.position == r.1
  {
    ghost var pos := rn.position;
    var treePath := new LogicTreePath([cells[root].data], 1.0);
    var ok := SampleLogicTreePath(cells, root, rn, treePath);
    if !ok {
      return None;
    }
    ghost var chain := SampleFrom(cells, root, rn.draws, pos).value.0;
    assert treePath.Value() == SampledPath(cells, root, chain);
    p := Some(treePath.Value());
  }

  /**
   * sampleLogicTreePaths: `n` times, starts a path at the root's node with
   * weight 1 and samples it down to a leaf. None where the source fails: an
   * uncovered draw, or a tree without a root when a path is to be sampled.
   */
  method SampleLogicTreePaths(tree: Tree<LogicTreeNode>, rn: DrawStream, n: int) returns (logicTreePaths: Option<seq<WeightedPath>>)
    requires tree.Valid()
    modifies rn
    ensures tree.root.None? ==> logicTreePaths == if n <= 0 then Some([]) else None
    ensures tree.root.Some? ==>
      logicTreePaths.Some? == SamplePaths(tree.cells, tree.root.value, rn.draws, old(rn.position), n).Some?
    ensures tree.root.Some? && logicTreePaths.Some? ==>
      SamplePaths(tree.cells, tree.root.value, rn.draws, old(rn.position), n) == Some((logicTreePaths.value, rn.position))
  {
    ghost var pos0 := rn.position;
    var cells, treeRoot := tree.cells, tree.root;
    var paths := [];
    var i := 0;
    while i < n
      invariant 0 <= i && (n >= 0 ==> i <= n) && (n < 0 ==> i == 0)
      invariant treeRoot.Some? ==> SamplePaths(cells, treeRoot.value, rn.draws, pos0, i) == Some((paths, rn.position))
      invariant treeRoot.None? ==> i == 0
      invariant i == 0 ==> paths == []
      decreases n - i
    {
      if treeRoot.None? {
        return None;
      }
      var root := treeRoot.value;
      SamplePathsStep(cells, root, rn.draws, pos0, i, paths, rn.position);
      var treePath := SampleRootPath(cells, root, rn);
      if treePath.None? {
        SamplePathsFailureStays(cells, root, rn.draws, pos0, i + 1, n);
        return None;
      }
      paths := paths + [treePath.value];
      i := i + 1;
    }
    logicTreePaths := Some(paths);
  }

  // ---------------------------------------------------------------------------
  // joinTrees
  // ---------------------------------------------------------------------------

  /** The reference path `p` followed by each of the paths `qs`. */
  function Glue(p: seq<Ref>, qs: seq<seq<Ref>>): (rs: seq<seq<Ref>>)
    ensures |rs| == |qs| && forall j :: 0 <= j < |qs| ==> rs[j] == p + qs[j]
  {
    seq(|qs|, j requires 0 <= j < |qs| => p + qs[j])
  }

  /** Each path of `ps` followed by each path of `qs`, the paths of `qs` varying fastest. */
  function Splice(ps: seq<seq<Ref>>, qs: seq<seq<Ref>>): (rs: seq<seq<Ref>>)
    decreases |ps|
  {
    if ps == [] then [] else Splice(ps[..|ps| - 1], qs) + Glue(ps[|ps| - 1], qs)
  }

  lemma {:induction false} SpliceConcat(a: seq<seq<Ref>>, b: seq<seq<Ref>>, qs: seq<seq<Ref>>)
    ensures Splice(a + b, qs) == Splice(a, qs) + Splice(b, qs)
    decreases |b|
  {
    if b == [] {
      assert a + b == a;
    } else {
      var b' := b[..|b| - 1];
      assert (a + b)[..|a + b| - 1] == a + b' && (a + b)[|a + b| - 1] == b[|b| - 1];
      SpliceConcat(a, b', qs);
      ConcatAssociative(Splice(a, qs), Splice(b', qs), Glue(b[|b| - 1], qs));
    }
  }

  /** Every path of `ps` and of `qs` lies in the store. */
  ghost predicate AllInStore(cells: seq<Cell<LogicTreeNode>>, ps: seq<seq<Ref>>)
  {
    forall i :: 0 <= i < |ps| ==> InStore(cells, ps[i])
  }

  lemma {:induction false} SpliceInStore(cells: seq<Cell<LogicTreeNode>>, ps: seq<seq<Ref>>, qs: seq<seq<Ref>>)
    requires AllInStore(cells, ps) && AllInStore(cells, qs)
    ensures AllInStore(cells, Splice(ps, qs))
    decreases |ps|
  {
    if ps != [] {
      SpliceInStore(cells, ps[..|ps| - 1], qs);
      var g := Glue(ps[|ps| - 1], qs);
      forall j | 0 <= j < |g| ensures InStore(cells, g[j]) {
        assert InStore(cells, ps[|ps| - 1]) && InStore(cells, qs[j]);
      }
    }
  }

  /** Putting `x` in front commutes with splicing the paths `qs` on at the end. */
  lemma {:induction false} PrependSplice(c: seq<Cell<LogicTreeNode>>, cells: seq<Cell<LogicTreeNode>>, x: Ref,
                                         ps: seq<seq<Ref>>, qs: seq<seq<Ref>>)
    requires |c| <= |cells| && x < |c| && AllInStore(c, ps) && AllInStore(cells, qs)
    ensures AllInStore(cells, Splice(ps, qs))
    ensures Prepend(cells, x, Splice(ps, qs)) == Splice(Prepend(c, x, ps), qs)
    decreases |ps|
  {
    SpliceInStore(cells, ps, qs);
    if ps != [] {
      var ps' := ps[..|ps| - 1];
      var p := ps[|ps| - 1];
      PrependSplice(c, cells, x, ps', qs);
      SpliceInStore(cells, ps', qs);
      var g := Glue(p, qs);
      assert AllInStore(cells, g) by {
        forall j | 0 <= j < |g| ensures InStore(cells, g[j]) {
          assert InStore(cells, p) && InStore(cells, qs[j]);
        }
      }
      PrependConcat(cells, x, Splice(ps', qs), g);
      var pp := Prepend(c, x, ps);
      assert pp[..|pp| - 1] == Prepend(c, x, ps') && pp[|pp| - 1] == [x] + p;
      forall j | 0 <= j < |qs| ensures [x] + (p + qs[j]) == ([x] + p) + qs[j] {
        ConcatAssociative([x], p, qs[j]);
      }
      assert Prepend(cells, x, g) == Glue([x] + p, qs);
    }
  }

  /**
   * `cells` holds the store `c` in which every leaf below `x` has gained the
   * node `r` as its only child: the reference paths below `x` are then the old
   * ones, each continued by every path below `r`.
   */
  lemma {:induction false} JoinedRefPaths(c: seq<Cell<LogicTreeNode>>, cells: seq<Cell<LogicTreeNode>>, r: Ref, x: Ref)
    requires WellFormed(c) && WellFormed(cells) && x < |c| <= r < |cells|
    requires forall i :: 0 <= i < |c| && c[i].children != [] ==> cells[i].children == c[i].children
    requires forall k :: 0 <= k < |LeavesOf(c, x)| ==> cells[LeavesOf(c, x)[k]].children == [r]
    ensures RefPaths(cells, x) == Splice(RefPaths(c, x), RefPaths(cells, r))
    decreases |c| - x, 1
  {
    var qs := RefPaths(cells, r);
    if c[x].children == [] {
      assert LeavesOf(c, x) == [x];
      assert cells[LeavesOf(c, x)[0]].children == [r];
      assert [r][..0] == [];
      assert RefPathsAll(cells, [r], x) == RefPathsAll(cells, [], x) + Prepend(cells, x, qs);
      assert [[x]][..0] == [];
      assert Splice([[x]], qs) == Glue([x], qs);
    } else {
      assert LeavesOf(c, x) == LeavesOfAll(c, c[x].children, x);
      JoinedRefPathsAll(c, cells, r, c[x].children, x);
    }
  }

  lemma {:induction false} JoinedRefPathsAll(c: seq<Cell<LogicTreeNode>>, cells: seq<Cell<LogicTreeNode>>, r: Ref,
                                             rs: seq<Ref>, parent: nat)
    requires WellFormed(c) && WellFormed(cells) && parent < |c| <= r < |cells| && After(c, rs, parent)
    requires forall i :: 0 <= i < |c| && c[i].children != [] ==> cells[i].children == c[i].children
    requires forall k :: 0 <= k < |LeavesOfAll(c, rs, parent)| ==> cells[LeavesOfAll(c, rs, parent)[k]].children == [r]
    ensures RefPathsAll(cells, rs, parent) == Splice(RefPathsAll(c, rs, parent), RefPaths(cells, r))
    decreases |c| - parent, 0, |rs|
  {
    if rs != [] {
      var qs := RefPaths(cells, r);
      var rs' := rs[..|rs| - 1];
      var l := rs[|rs| - 1];
      var a := LeavesOfAll(c, rs', parent);
      var b := LeavesOf(c, l);
      assert LeavesOfAll(c, rs, parent) == a + b;
      forall k | 0 <= k < |a| ensures cells[a[k]].children == [r] {
        assert (a + b)[k] == a[k];
      }
      forall k | 0 <= k < |b| ensures cells[b[k]].children == [r] {
        assert (a + b)[|a| + k] == b[k];
      }
      JoinedRefPathsAll(c, cells, r, rs', parent);
      JoinedRefPaths(c, cells, r, l);
      PrependSplice(c, cells, parent, RefPaths(c, l), qs);
      SpliceConcat(RefPathsAll(c, rs', parent), Prepend(c, parent, RefPaths(c, l)), qs);
    }
  }

  /** The reference paths `ps`, each moved by `offset`. */
  function ShiftAll(ps: seq<seq<Ref>>, offset: nat): (qs: seq<seq<Ref>>)
    ensures |qs| == |ps| && forall i :: 0 <= i < |ps| ==> qs[i] == Shift(ps[i], offset)
  {
    seq(|ps|, i requires 0 <= i < |ps| => Shift(ps[i], offset))
  }

  /** The nodes of `s`, moved to start at `offset` in `cells`, keep their paths, moved along. */
  lemma {:induction false} RelocatedRefPaths(s: seq<Cell<LogicTreeNode>>, cells: seq<Cell<LogicTreeNode>>, offset: nat, y: Ref)
    requires WellFormed(s) && WellFormed(cells) && y < |s| && offset + |s| <= |cells|
    requires forall i :: 0 <= i < |s| ==> cells[offset + i].children == Shift(s[i].children, offset)
    ensures RefPaths(cells, offset + y) == ShiftAll(RefPaths(s, y), offset)
    decreases |s| - y, 1
  {
    if s[y].children == [] {
      assert Shift([y], offset) == [offset + y];
    } else {
      RelocatedRefPathsAll(s, cells, offset, s[y].children, y);
    }
  }

  lemma {:induction false} RelocatedRefPathsAll(s: seq<Cell<LogicTreeNode>>, cells: seq<Cell<LogicTreeNode>>, offset: nat,
                                                rs: seq<Ref>, parent: nat)
    requires WellFormed(s) && WellFormed(cells) && parent < |s| && After(s, rs, parent) && offset + |s| <= |cells|
    requires forall i :: 0 <= i < |s| ==> cells[offset + i].children == Shift(s[i].children, offset)
    ensures After(cells, Shift(rs, offset), offset + parent)
    ensures RefPathsAll(cells, Shift(rs, offset), offset + parent) == ShiftAll(RefPathsAll(s, rs, parent), offset)
    decreases |s| - parent, 0, |rs|
  {
    if rs != [] {
      var rs' := rs[..|rs| - 1];
      var l := rs[|rs| - 1];
      var moved := Shift(rs, offset);
      assert moved[..|moved| - 1] == Shift(rs', offset) && moved[|moved| - 1] == offset + l;
      RelocatedRefPathsAll(s, cells, offset, rs', parent);
      RelocatedRefPaths(s, cells, offset, l);
      var ps := RefPaths(s, l);
      PrependShift(s, cells, offset, parent, ps);
      ShiftAllConcat(RefPathsAll(s, rs', parent), Prepend(s, parent, ps), offset);
    }
  }

  /** Moving paths and then putting the moved parent in front is moving the paths with the parent in front. */
  lemma PrependShift(s: seq<Cell<LogicTreeNode>>, cells: seq<Cell<LogicTreeNode>>, offset: nat, parent: Ref, ps: seq<seq<Ref>>)
    requires parent < |s| && offset + |s| <= |cells| && AllInStore(s, ps)
    ensures AllInStore(cells, ShiftAll(ps, offset))
    ensures Prepend(cells, offset + parent, ShiftAll(ps, offset)) == ShiftAll(Prepend(s, parent, ps), offset)
  {
    forall i | 0 <= i < |ps| ensures Shift([parent] + ps[i], offset) == [offset + parent] + Shift(ps[i], offset) {
      assert |Shift([parent] + ps[i], offset)| == |[offset + parent] + Shift(ps[i], offset)|;
    }
  }

  lemma ShiftAllConcat(a: seq<seq<Ref>>, b: seq<seq<Ref>>, offset: nat)
    ensures ShiftAll(a + b, offset) == ShiftAll(a, offset) + ShiftAll(b, offset)
  {
  }

  /** The path value of `a` followed by `b`: the nodes one after the other, the weights multiplied. */
  function Combine(a: WeightedPath, b: WeightedPath): WeightedPath
  {
    WeightedPath(a.path + b.path, a.pathWeight * b.pathWeight)
  }

  /** The path value `a` followed by each of `bs`. */
  function Row(a: WeightedPath, bs: seq<WeightedPath>): (rs: seq<WeightedPath>)
    ensures |rs| == |bs| && forall j :: 0 <= j < |bs| ==> rs[j] == Combine(a, bs[j])
  {
    seq(|bs|, j requires 0 <= j < |bs| => Combine(a, bs[j]))
  }

  /**
   * The path values of two trees put together: each path of the first
   * followed by each path of the second, the second varying fastest.
   */
  function Cross(ps: seq<WeightedPath>, qs: seq<WeightedPath>): (rs: seq<WeightedPath>)
    decreases |ps|
  {
    if ps == [] then [] else Cross(ps[..|ps| - 1], qs) + Row(ps[|ps| - 1], qs)
  }

  /** There are as many combined paths as pairs of paths. */
  lemma {:induction false} CrossLength(ps: seq<WeightedPath>, qs: seq<WeightedPath>)
    ensures |Cross(ps, qs)| == |ps| * |qs|
    decreases |ps|
  {
    if ps != [] {
      CrossLength(ps[..|ps| - 1], qs);
      assert |ps| * |qs| == (|ps| - 1) * |qs| + |qs|;
    }
  }

  /** Each combined path is some path of the first tree followed by some path of the second. */
  lemma {:induction false} CrossMembers(ps: seq<WeightedPath>, qs: seq<WeightedPath>, i: nat)
    requires i < |Cross(ps, qs)|
    ensures exists a, b :: a in ps && b in qs && Cross(ps, qs)[i] == Combine(a, b)
    decreases |ps|
  {
    var ps' := ps[..|ps| - 1];
    var c := Cross(ps', qs);
    if i < |c| {
      CrossMembers(ps', qs, i);
      var a, b :| a in ps' && b in qs && c[i] == Combine(a, b);
      assert a in ps;
    } else {
      var a := ps[|ps| - 1];
      var b := qs[i - |c|];
      assert Cross(ps, qs)[i] == Combine(a, b);
    }
  }

  /** Every path of the first tree followed by every path of the second is a combined path. */
  lemma {:induction false} CrossComplete(ps: seq<WeightedPath>, qs: seq<WeightedPath>, a: WeightedPath, b: WeightedPath)
    requires a in ps && b in qs
    ensures Combine(a, b) in Cross(ps, qs)
    decreases |ps|
  {
    var ps' := ps[..|ps| - 1];
    assert ps == ps' + [ps[|ps| - 1]];
    if a in ps' {
      CrossComplete(ps', qs, a, b);
    } else {
      var j :| 0 <= j < |qs| && qs[j] == b;
      assert Row(a, qs)[j] == Combine(a, b);
    }
  }

  /** The nodes at `p` followed by the moved nodes at `q`. */
  lemma DataJoined(c: seq<Cell<LogicTreeNode>>, s: seq<Cell<LogicTreeNode>>, cells: seq<Cell<LogicTreeNode>>,
                   offset: nat, p: seq<Ref>, q: seq<Ref>)
    requires |c| <= offset && offset + |s| <= |cells| && InStore(c, p) && InStore(s, q)
    requires forall i :: 0 <= i < |c| ==> cells[i].data == c[i].data
    requires forall i :: 0 <= i < |s| ==> cells[offset + i].data == s[i].data
    ensures InStore(cells, p + Shift(q, offset))
    ensures Data(cells, p + Shift(q, offset)) == Data(c, p) + Data(s, q)
  {
    var pq := p + Shift(q, offset);
    forall k | 0 <= k < |pq| ensures pq[k] < |cells| && cells[pq[k]].data == (Data(c, p) + Data(s, q))[k] {
      if k >= |p| {
        assert pq[k] == offset + q[k - |p|];
      }
    }
  }

  /** The path value of two node lists one after the other combines their path values. */
  lemma WeightedAppend(a: seq<LogicTreeNode>, b: seq<LogicTreeNode>)
    ensures Weighted(a + b) == Combine(Weighted(a), Weighted(b))
  {
    ProductAppend(a, b);
  }

  /** The path values of one path of the first store followed by each moved path of the second. */
  lemma GluedPathValues(c: seq<Cell<LogicTreeNode>>, s: seq<Cell<LogicTreeNode>>, cells: seq<Cell<LogicTreeNode>>,
                        offset: nat, p: seq<Ref>, qs: seq<seq<Ref>>)
    requires |c| <= offset && offset + |s| <= |cells| && InStore(c, p) && AllInStore(s, qs)
    requires forall i :: 0 <= i < |c| ==> cells[i].data == c[i].data
    requires forall i :: 0 <= i < |s| ==> cells[offset + i].data == s[i].data
    ensures AllInStore(cells, Glue(p, ShiftAll(qs, offset)))
    ensures Extend(cells, [], Glue(p, ShiftAll(qs, offset))) == Row(Weighted([] + Data(c, p)), Extend(s, [], qs))
  {
    var g := Glue(p, ShiftAll(qs, offset));
    forall j | 0 <= j < |qs| ensures InStore(cells, g[j]) && Extend(cells, [], g)[j] == Row(Weighted([] + Data(c, p)), Extend(s, [], qs))[j] {
      DataJoined(c, s, cells, offset, p, qs[j]);
      assert [] + Data(cells, g[j]) == Data(c, p) + Data(s, qs[j]);
      assert [] + Data(c, p) == Data(c, p) && [] + Data(s, qs[j]) == Data(s, qs[j]);
      WeightedAppend(Data(c, p), Data(s, qs[j]));
    }
  }

  /** The path values of spliced reference paths are the combined path values. */
  lemma {:induction false} SplicedPathValues(c: seq<Cell<LogicTreeNode>>, s: seq<Cell<LogicTreeNode>>, cells: seq<Cell<LogicTreeNode>>,
                                             offset: nat, ps: seq<seq<Ref>>, qs: seq<seq<Ref>>)
    requires |c| <= offset && offset + |s| <= |cells| && AllInStore(c, ps) && AllInStore(s, qs)
    requires forall i :: 0 <= i < |c| ==> cells[i].data == c[i].data
    requires forall i :: 0 <= i < |s| ==> cells[offset + i].data == s[i].data
    ensures AllInStore(cells, Splice(ps, ShiftAll(qs, offset)))
    ensures Extend(cells, [], Splice(ps, ShiftAll(qs, offset))) == Cross(Extend(c, [], ps), Extend(s, [], qs))
    decreases |ps|
  {
    var moved := ShiftAll(qs, offset);
    if ps != [] {
      var ps' := ps[..|ps| - 1];
      var p := ps[|ps| - 1];
      SplicedPathValues(c, s, cells, offset, ps', qs);
      var g := Glue(p, moved);
      GluedPathValues(c, s, cells, offset, p, qs);
      ExtendConcat(cells, [], Splice(ps', moved), g);
      var e := Extend(c, [], ps);
      assert e[..|e| - 1] == Extend(c, [], ps') && e[|e| - 1] == Weighted([] + Data(c, p));
    }
  }

  /**
   * Joining one step: `cells` holds the store `c`, in which every leaf below
   * `r1` has gained as its only child the root of the store `s`, moved in
   * after `c`. The path values of the result are those of `c` followed by
   * those of `s`, in every combination.
   */
  lemma JoinStepPaths(c: seq<Cell<LogicTreeNode>>, s: seq<Cell<LogicTreeNode>>, cells: seq<Cell<LogicTreeNode>>, r1: Ref, r2: Ref)
    requires WellFormed(c) && WellFormed(s) && WellFormed(cells) && r1 < |c| && r2 < |s| && |cells| == |c| + |s|
    requires forall i :: 0 <= i < |c| ==> cells[i].data == c[i].data
    requires forall i :: 0 <= i < |c| && c[i].children != [] ==> cells[i].children == c[i].children
    requires forall k :: 0 <= k < |LeavesOf(c, r1)| ==> cells[LeavesOf(c, r1)[k]].children == [|c| + r2]
    requires forall i :: 0 <= i < |s| ==> cells[|c| + i] == Cell(s[i].data, Shift(s[i].children, |c|))
    ensures AllPaths(cells, r1) == Cross(AllPaths(c, r1), AllPaths(s, r2))
  {
    var ps, qs := RefPaths(c, r1), RefPaths(s, r2);
    JoinedRefPaths(c, cells, |c| + r2, r1);
    RelocatedRefPaths(s, cells, |c|, r2);
    assert RefPaths(cells, r1) == Splice(ps, ShiftAll(qs, |c|));
    SplicedPathValues(c, s, cells, |c|, ps, qs);
  }

  /** The store after the root `r` of the store `s` is hung under each of `leaves` in turn. */
  function Attached(c: seq<Cell<LogicTreeNode>>, s: seq<Cell<LogicTreeNode>>, r: Ref, leaves: seq<Ref>): (cells: seq<Cell<LogicTreeNode>>)
    requires WellFormed(c) && WellFormed(s) && r < |s| && InStore(c, leaves)
    ensures WellFormed(cells) && |cells| == |c| + |s|
  {
    GraftWellFormed(c, s);
    AttachAllWellFormed(c + Relocate(s, |c|), leaves, |c| + r);
    AttachAll(c + Relocate(s, |c|), leaves, |c| + r)
  }

  /**
   * A node of `c` gains the moved root once for every time it is listed; the
   * moved nodes of `s` gain nothing.
   */
  lemma AttachedCell(c: seq<Cell<LogicTreeNode>>, s: seq<Cell<LogicTreeNode>>, r: Ref, leaves: seq<Ref>, i: nat)
    requires WellFormed(c) && WellFormed(s) && r < |s| && InStore(c, leaves) && i < |c| + |s|
    ensures i < |c| ==>
      Attached(c, s, r, leaves)[i] == Cell(c[i].data, c[i].children + Repeat(|c| + r, Occurrences(leaves, i)))
    ensures |c| <= i ==> Attached(c, s, r, leaves)[i] == Cell(s[i - |c|].data, Shift(s[i - |c|].children, |c|))
  {
    var g := c + Relocate(s, |c|);
    AttachAllCell(g, leaves, |c| + r, i);
    if |c| <= i {
      OccurrencesAbsent(leaves, i);
      assert g[i] == Relocate(s, |c|)[i - |c|];
      assert g[i].children + [] == g[i].children;
    }
  }

  /** A node of `c` that is not a leaf is not listed, so it keeps its children. */
  lemma AttachedKeeps(c: seq<Cell<LogicTreeNode>>, s: seq<Cell<LogicTreeNode>>, r: Ref, leaves: seq<Ref>, i: nat)
    requires WellFormed(c) && WellFormed(s) && r < |s| && InStore(c, leaves) && i < |c|
    requires forall k :: 0 <= k < |leaves| ==> c[leaves[k]].children == []
    requires c[i].children != []
    ensures Attached(c, s, r, leaves)[i].children == c[i].children
  {
    AttachedCell(c, s, r, leaves, i);
    assert i !in leaves;
    OccurrencesAbsent(leaves, i);
    assert Repeat(|c| + r, 0) == [];
    assert c[i].children + [] == c[i].children;
  }

  /**
   * When `leaves` lists each leaf below `r0` exactly once and nothing but
   * leaves, hanging `s` under them combines every path below `r0` with every
   * path of `s`.
   */
  lemma AttachedPaths(c: seq<Cell<LogicTreeNode>>, r0: Ref, s: seq<Cell<LogicTreeNode>>, r: Ref, leaves: seq<Ref>)
    requires WellFormed(c) && WellFormed(s) && r0 < |c| && r < |s| && InStore(c, leaves)
    requires forall k :: 0 <= k < |leaves| ==> c[leaves[k]].children == []
    requires forall x :: x in LeavesOf(c, r0) ==> Occurrences(leaves, x) == 1
    ensures AllPaths(Attached(c, s, r, leaves), r0) == Cross(AllPaths(c, r0), AllPaths(s, r))
  {
    var cells := Attached(c, s, r, leaves);
    forall i | 0 <= i < |c| ensures cells[i].data == c[i].data {
      AttachedCell(c, s, r, leaves, i);
    }
    forall i | 0 <= i < |c| && c[i].children != [] ensures cells[i].children == c[i].children {
      AttachedKeeps(c, s, r, leaves, i);
    }
    var ls := LeavesOf(c, r0);
    forall k | 0 <= k < |ls| ensures cells[ls[k]].children == [|c| + r] {
      LeavesOfMembership(c, r0, ls[k]);
      AttachedCell(c, s, r, leaves, ls[k]);
      assert Repeat(|c| + r, 1) == [|c| + r];
    }
    forall i | 0 <= i < |s| ensures cells[|c| + i] == Cell(s[i].data, Shift(s[i].children, |c|)) {
      AttachedCell(c, s, r, leaves, |c| + i);
    }
    JoinStepPaths(c, s, cells, r0, r);
  }

  /** Stores and roots of the trees to join: each root lies in its well-formed store. */
  ghost predicate Joinable(stores: seq<seq<Cell<LogicTreeNode>>>, roots: seq<Ref>)
  {
    |stores| == |roots| && forall i :: 0 <= i < |stores| ==> WellFormed(stores[i]) && roots[i] < |stores[i]|
  }

  /**
   * The store joinTrees has built after the first `n` trees: the first tree,
   * and for each later tree its root hung under every entry of the leaf list
   * of the store built so far.
   */
  function Joined(stores: seq<seq<Cell<LogicTreeNode>>>, roots: seq<Ref>, n: nat): (cells: seq<Cell<LogicTreeNode>>)
    requires Joinable(stores, roots) && 1 <= n <= |stores|
    ensures WellFormed(cells) && roots[0] < |cells|
  {
    if n == 1 then stores[0]
    else
      var c := Joined(stores, roots, n - 1);
      Attached(c, stores[n - 1], roots[n - 1], LeavesOf(c, roots[0]))
  }

  /** The path values of the first `n` trees combined in order. */
  function CrossAll(stores: seq<seq<Cell<LogicTreeNode>>>, roots: seq<Ref>, n: nat): seq<WeightedPath>
    requires Joinable(stores, roots) && 1 <= n <= |stores|
  {
    if n == 1 then AllPaths(stores[0], roots[0])
    else Cross(CrossAll(stores, roots, n - 1), AllPaths(stores[n - 1], roots[n - 1]))
  }

  /** A tree whose nodes each have at most one parent lists each of its leaves once. */
  lemma LeavesOnce(c: seq<Cell<LogicTreeNode>>, r0: Ref, x: Ref)
    requires WellFormed(c) && NoSharing(c) && r0 < |c| && x in LeavesOf(c, r0)
    ensures Occurrences(LeavesOf(c, r0), x) == 1
  {
    LeavesListedOnce(c, r0);
    LeafFilterOfPreOrder(c, r0);
    OccurrencesDistinct(LeavesOf(c, r0), x);
  }

  /**
   * Joining two trees, the first without shared nodes: every path of the
   * result is a path of the first tree followed by a path of the second, with
   * the product of their weights, in every combination; so there are L1 x L2
   * paths for L1 and L2 leaves.
   */
  lemma JoinTwoTreesPaths(stores: seq<seq<Cell<LogicTreeNode>>>, roots: seq<Ref>)
    requires Joinable(stores, roots) && |stores| >= 2 && NoSharing(stores[0])
    ensures AllPaths(Joined(stores, roots, 2), roots[0]) == CrossAll(stores, roots, 2)
    ensures |AllPaths(Joined(stores, roots, 2), roots[0])|
      == |LeavesOf(stores[0], roots[0])| * |LeavesOf(stores[1], roots[1])|
  {
    var c := stores[0];
    var ls := LeavesOf(c, roots[0]);
    forall k | 0 <= k < |ls| ensures c[ls[k]].children == [] {
      LeavesOfMembership(c, roots[0], ls[k]);
    }
    forall x | x in ls ensures Occurrences(ls, x) == 1 {
      LeavesOnce(c, roots[0], x);
    }
    AttachedPaths(c, roots[0], stores[1], roots[1], ls);
    CrossLength(AllPaths(c, roots[0]), AllPaths(stores[1], roots[1]));
    PathCountIsLeafCount(c, roots[0]);
    PathCountIsLeafCount(stores[1], roots[1]);
  }

  /**
   * The join as evidently intended: like `Joined`, but the root of each later
   * tree is hung once under each distinct leaf of the store built so far.
   */
  function JoinedOnce(stores: seq<seq<Cell<LogicTreeNode>>>, roots: seq<Ref>, n: nat): (cells: seq<Cell<LogicTreeNode>>)
    requires Joinable(stores, roots) && 1 <= n <= |stores|
    ensures WellFormed(cells) && roots[0] < |cells|
  {
    if n == 1 then stores[0]
    else
      var c := JoinedOnce(stores, roots, n - 1);
      DedupInStore(c, LeavesOf(c, roots[0]));
      Attached(c, stores[n - 1], roots[n - 1], Dedup(LeavesOf(c, roots[0])))
  }

  /**
   * Joining any number of trees once per distinct leaf: the paths of the
   * result are exactly the paths of the trees combined in order, one per
   * combination.
   */
  lemma {:induction false} JoinedOncePaths(stores: seq<seq<Cell<LogicTreeNode>>>, roots: seq<Ref>, n: nat)
    requires Joinable(stores, roots) && 1 <= n <= |stores|
    ensures AllPaths(JoinedOnce(stores, roots, n), roots[0]) == CrossAll(stores, roots, n)
  {
    if n > 1 {
      JoinedOncePaths(stores, roots, n - 1);
      var c := JoinedOnce(stores, roots, n - 1);
      var all := LeavesOf(c, roots[0]);
      var ls := Dedup(all);
      DedupInStore(c, all);
      forall k | 0 <= k < |ls| ensures c[ls[k]].children == [] {
        assert ls[k] in all;
        LeavesOfMembership(c, roots[0], ls[k]);
      }
      forall x | x in all ensures Occurrences(ls, x) == 1 {
        OccurrencesDistinct(ls, x);
      }
      AttachedPaths(c, roots[0], stores[n - 1], roots[n - 1], ls);
    }
  }

  /** The node stores of the given trees, in order. */
  ghost function StoresOf(trees: seq<Tree<LogicTreeNode>>): (stores: seq<seq<Cell<LogicTreeNode>>>)
    reads trees
    ensures |stores| == |trees| && forall i :: 0 <= i < |trees| ==> stores[i] == trees[i].cells
  {
    if trees == [] then [] else StoresOf(trees[..|trees| - 1]) + [trees[|trees| - 1].cells]
  }

  /** The roots of the given trees, in order (0 for a tree without one). */
  ghost function RootsOf(trees: seq<Tree<LogicTreeNode>>): (roots: seq<Ref>)
    reads trees
    ensures |roots| == |trees|
    ensures forall i :: 0 <= i < |trees| && trees[i].root.Some? ==> roots[i] == trees[i].root.value
  {
    if trees == [] then []
    else RootsOf(trees[..|trees| - 1]) + [if trees[|trees| - 1].root.Some? then trees[|trees| - 1].root.value else 0]
  }

  /** Moving a store by nothing leaves it as it is. */
  lemma RelocateZero(nodes: seq<Cell<LogicTreeNode>>)
    ensures Relocate(nodes, 0) == nodes
  {
    forall i | 0 <= i < |nodes| ensures Relocate(nodes, 0)[i] == nodes[i] {
      assert Shift(nodes[i].children, 0) == nodes[i].children;
    }
  }

  /** The store after one more join step. */
  lemma JoinedStep(stores: seq<seq<Cell<LogicTreeNode>>>, roots: seq<Ref>, n: nat)
    requires Joinable(stores, roots) && 1 <= n < |stores|
    ensures Joined(stores, roots, n + 1)
      == Attached(Joined(stores, roots, n), stores[n], roots[n], LeavesOf(Joined(stores, roots, n), roots[0]))
  {
  }

  /** The inner loop of joinTrees: `child` is added as the last child of each of `parents` in turn. */
  method AddChildToAll(tree: Tree<LogicTreeNode>, parents: seq<Ref>, child: Ref)
    requires tree.Valid() && child < |tree.cells|
    requires forall k :: 0 <= k < |parents| ==> parents[k] < child
    modifies tree
    ensures tree.Valid() && tree.root == old(tree.root)
    ensures tree.cells == AttachAll(old(tree.cells), parents, child)
  {
    ghost var g := tree.cells;
    var k := 0;
    while k < |parents|
      invariant 0 <= k <= |parents|
      invariant tree.Valid() && tree.root == old(tree.root)
      invariant tree.cells == AttachAll(g, parents[..k], child)
    {
      assert parents[..k + 1][..k] == parents[..k];
      tree.AddChild(parents[k], child);
      k := k + 1;
    }
    assert parents[..k] == parents;
  }

  /**
   * One round of joinTrees's outer loop: the leaf list of the tree built so
   * far, then the next tree's root added under every entry of it.
   */
  method JoinNext(tree: Tree<LogicTreeNode>, next: Tree<LogicTreeNode>)
    requires tree != next && tree.Valid() && tree.root.Some? && next.Valid() && next.root.Some?
    modifies tree
    ensures tree.Valid() && tree.root == old(tree.root)
    ensures tree.cells == Attached(old(tree.cells), next.cells, next.root.value, LeavesOf(old(tree.cells), tree.root.value))
  {
    var nodes, nextRoot := next.cells, next.root.value;
    var leafNodes := tree.GetLeafNodes();
    var base := tree.Graft(nodes);
    AddChildToAll(tree, leafNodes, base + nextRoot);
  }

  /** Valid trees with roots give joinable stores and roots. */
  lemma JoinableOf(trees: seq<Tree<LogicTreeNode>>)
    requires forall i :: 0 <= i < |trees| ==> trees[i].Valid() && trees[i].root.Some?
    ensures Joinable(StoresOf(trees), RootsOf(trees))
  {
  }

  /** The start of joinTrees: a new tree whose root is the first tree's root. */
  method NewJoinedTree(first: Tree<LogicTreeNode>) returns (tree: Tree<LogicTreeNode>)
    requires first.Valid() && first.root.Some?
    ensures fresh(tree) && tree.Valid() && tree.root == first.root && tree.cells == first.cells
  {
    tree := new Tree();
    var offset := tree.Graft(first.cells);
    RelocateZero(first.cells);
    tree.SetRootElement(first.root.value);
  }

  /**
   * joinTrees: the root of the first tree becomes the root of the result;
   * then, for each later tree in turn, its root is added as the last child of
   * every entry of the current leaf list. The result is `Joined`, whose paths
   * `JoinTwoTreesPaths` and `ThirdJoinDuplicates` describe.
   */
  method JoinTrees(trees: seq<Tree<LogicTreeNode>>) returns (tree: Tree<LogicTreeNode>)
    requires |trees| > 0
    requires forall i :: 0 <= i < |trees| ==> trees[i].Valid() && trees[i].root.Some?
    ensures fresh(tree) && tree.Valid() && tree.root == Some(trees[0].root.value)
    ensures Joinable(StoresOf(trees), RootsOf(trees))
    ensures tree.cells == Joined(StoresOf(trees), RootsOf(trees), |trees|)
  {
    ghost var stores, roots := StoresOf(trees), RootsOf(trees);
    JoinableOf(trees);
    tree := NewJoinedTree(trees[0]);
    var i := 1;
    while i < |trees|
      invariant 1 <= i <= |trees|
      invariant tree !in trees && tree.Valid() && tree.root == Some(roots[0])
      invariant tree.cells == Joined(stores, roots, i)
    {
      var next := trees[i];
      assert next.cells == stores[i] && next.root == Some(roots[i]);
      JoinNext(tree, next);
      JoinedStep(stores, roots, i);
      i := i + 1;
    }
    assert StoresOf(trees) == stores && RootsOf(trees) == roots;
  }

  // The three-tree example: a{b, c}, then d, then e, all carrying the data x.

  lemma ExampleFirstLeaves(c: seq<Cell<LogicTreeNode>>, x: LogicTreeNode)
    requires c == [Cell(x, [1, 2]), Cell(x, []), Cell(x, [])]
    ensures WellFormed(c) && LeavesOf(c, 0) == [1, 2]
  {
    assert WellFormed(c);
    assert LeavesOf(c, 1) == [1] && LeavesOf(c, 2) == [2];
    assert [1, 2][..1] == [1] && [1][..0] == [];
    assert LeavesOfAll(c, [1], 0) == LeavesOfAll(c, [], 0) + LeavesOf(c, 1);
    assert LeavesOfAll(c, [1, 2], 0) == LeavesOfAll(c, [1], 0) + LeavesOf(c, 2);
  }

  lemma ExampleSecondJoin(c: seq<Cell<LogicTreeNode>>, s: seq<Cell<LogicTreeNode>>, x: LogicTreeNode)
    requires c == [Cell(x, [1, 2]), Cell(x, []), Cell(x, [])] && s == [Cell(x, [])]
    ensures WellFormed(c) && WellFormed(s)
    ensures Attached(c, s, 0, [1, 2]) == [Cell(x, [1, 2]), Cell(x, [3]), Cell(x, [3]), Cell(x, [])]
  {
    assert [1, 2][..1] == [1] && [1][..0] == [];
    assert Occurrences([1, 2], 0) == 0 && Occurrences([1, 2], 1) == 1;
    assert Occurrences([1, 2], 2) == 1;
    assert Repeat(3, 0) == [] && Repeat(3, 1) == [3];
    var j := Attached(c, s, 0, [1, 2]);
    AttachedCell(c, s, 0, [1, 2], 0);
    assert j[0] == Cell(x, [1, 2] + []);
    AttachedCell(c, s, 0, [1, 2], 1);
    assert j[1] == Cell(x, [] + [3]);
    AttachedCell(c, s, 0, [1, 2], 2);
    assert j[2] == Cell(x, [] + [3]);
    AttachedCell(c, s, 0, [1, 2], 3);
    assert Shift([], 3) == [];
    assert j[3] == Cell(x, []);
    assert |j| == 4;
    assert [1, 2] + [] == [1, 2] && [] + [3] == [3];
    var want := [Cell(x, [1, 2]), Cell(x, [3]), Cell(x, [3]), Cell(x, [])];
    assert forall i | 0 <= i < 4 :: j[i] == want[i];
  }

  lemma ExampleTwoLower(c: seq<Cell<LogicTreeNode>>, x: LogicTreeNode)
    requires c == [Cell(x, [1, 2]), Cell(x, [3]), Cell(x, [3]), Cell(x, [])]
    ensures WellFormed(c) && LeavesOf(c, 1) == [3] && LeavesOf(c, 2) == [3]
  {
    assert WellFormed(c);
    assert LeavesOf(c, 3) == [3] && [3][..0] == [];
    assert LeavesOfAll(c, [3], 1) == LeavesOfAll(c, [], 1) + LeavesOf(c, 3);
    assert LeavesOfAll(c, [3], 2) == LeavesOfAll(c, [], 2) + LeavesOf(c, 3);
  }

  lemma ExampleTwoLeaves(c: seq<Cell<LogicTreeNode>>, x: LogicTreeNode)
    requires c == [Cell(x, [1, 2]), Cell(x, [3]), Cell(x, [3]), Cell(x, [])]
    ensures WellFormed(c) && LeavesOf(c, 0) == [3, 3]
  {
    ExampleTwoLower(c, x);
    assert [1, 2][..1] == [1] && [1][..0] == [];
    assert LeavesOfAll(c, [1], 0) == LeavesOfAll(c, [], 0) + LeavesOf(c, 1);
    assert LeavesOfAll(c, [1, 2], 0) == LeavesOfAll(c, [1], 0) + LeavesOf(c, 2);
  }

  lemma ExampleThirdCounts()
    ensures Occurrences([3, 3], 0) == 0 && Occurrences([3, 3], 1) == 0 && Occurrences([3, 3], 2) == 0
    ensures Occurrences([3, 3], 3) == 2
    ensures Repeat(4, 0) == [] && Repeat(4, 2) == [4, 4]
  {
    assert [3, 3][..1] == [3] && [3][..0] == [];
  }

  lemma ExampleThirdJoin(c: seq<Cell<LogicTreeNode>>, s: seq<Cell<LogicTreeNode>>, x: LogicTreeNode)
    requires c == [Cell(x, [1, 2]), Cell(x, [3]), Cell(x, [3]), Cell(x, [])] && s == [Cell(x, [])]
    ensures WellFormed(c) && WellFormed(s)
    ensures Attached(c, s, 0, [3, 3]) == [Cell(x, [1, 2]), Cell(x, [3]), Cell(x, [3]), Cell(x, [4, 4]), Cell(x, [])]
  {
    ExampleThirdCounts();
    var j := Attached(c, s, 0, [3, 3]);
    AttachedCell(c, s, 0, [3, 3], 0);
    assert j[0] == Cell(x, [1, 2] + []);
    AttachedCell(c, s, 0, [3, 3], 1);
    assert j[1] == Cell(x, [3] + []);
    AttachedCell(c, s, 0, [3, 3], 2);
    assert j[2] == Cell(x, [3] + []);
    AttachedCell(c, s, 0, [3, 3], 3);
    assert j[3] == Cell(x, [] + [4, 4]);
    AttachedCell(c, s, 0, [3, 3], 4);
    assert Shift([], 4) == [];
    assert j[4] == Cell(x, []);
    assert |j| == 5;
    assert [1, 2] + [] == [1, 2] && [3] + [] == [3] && [] + [4, 4] == [4, 4];
    var want := [Cell(x, [1, 2]), Cell(x, [3]), Cell(x, [3]), Cell(x, [4, 4]), Cell(x, [])];
    assert forall i | 0 <= i < 5 :: j[i] == want[i];
  }

  lemma ExampleThreeLower(c: seq<Cell<LogicTreeNode>>, x: LogicTreeNode)
    requires c == [Cell(x, [1, 2]), Cell(x, [3]), Cell(x, [3]), Cell(x, [4, 4]), Cell(x, [])]
    ensures WellFormed(c) && LeavesOf(c, 3) == [4, 4]
  {
    assert WellFormed(c);
    assert LeavesOf(c, 4) == [4];
    assert [4, 4][..1] == [4] && [4][..0] == [];
    assert LeavesOfAll(c, [4], 3) == LeavesOfAll(c, [], 3) + LeavesOf(c, 4);
    assert LeavesOfAll(c, [4, 4], 3) == LeavesOfAll(c, [4], 3) + LeavesOf(c, 4);
  }

  lemma ExampleThreeMiddle(c: seq<Cell<LogicTreeNode>>, x: LogicTreeNode, p: Ref)
    requires c == [Cell(x, [1, 2]), Cell(x, [3]), Cell(x, [3]), Cell(x, [4, 4]), Cell(x, [])]
    requires WellFormed(c) && LeavesOf(c, 3) == [4, 4] && (p == 1 || p == 2)
    ensures LeavesOf(c, p) == [4, 4]
  {
    assert c[p].children == [3] && [3][..0] == [];
    assert LeavesOfAll(c, [3], p) == LeavesOfAll(c, [], p) + LeavesOf(c, 3);
  }

  lemma ExampleThreeLeaves(c: seq<Cell<LogicTreeNode>>, x: LogicTreeNode)
    requires c == [Cell(x, [1, 2]), Cell(x, [3]), Cell(x, [3]), Cell(x, [4, 4]), Cell(x, [])]
    ensures WellFormed(c) && LeavesOf(c, 0) == [4, 4, 4, 4]
  {
    ExampleThreeLower(c, x);
    ExampleThreeMiddle(c, x, 1);
    ExampleThreeMiddle(c, x, 2);
    assert [1, 2][..1] == [1] && [1][..0] == [];
    assert LeavesOfAll(c, [1], 0) == LeavesOfAll(c, [], 0) + LeavesOf(c, 1);
    assert LeavesOfAll(c, [1, 2], 0) == LeavesOfAll(c, [1], 0) + LeavesOf(c, 2);
  }

  lemma ExampleJoined(stores: seq<seq<Cell<LogicTreeNode>>>, roots: seq<Ref>, x: LogicTreeNode)
    requires stores == [[Cell(x, [1, 2]), Cell(x, []), Cell(x, [])], [Cell(x, [])], [Cell(x, [])]]
    requires roots == [0, 0, 0]
    ensures Joinable(stores, roots)
    ensures Joined(stores, roots, 3) == [Cell(x, [1, 2]), Cell(x, [3]), Cell(x, [3]), Cell(x, [4, 4]), Cell(x, [])]
  {
    var c0, leaf := stores[0], stores[1];
    var c2 := [Cell(x, [1, 2]), Cell(x, [3]), Cell(x, [3]), Cell(x, [])];
    ExampleFirstLeaves(c0, x);
    ExampleSecondJoin(c0, leaf, x);
    ExampleTwoLeaves(c2, x);
    ExampleThirdJoin(c2, leaf, x);
    assert Joinable(stores, roots);
    assert Joined(stores, roots, 1) == c0;
    assert Joined(stores, roots, 2) == c2;
  }

  /**
   * Three trees a{b, c}, d and e: the second join hangs e twice under d,
   * because d is listed once for each of the two paths that reach it; the
   * joined tree has four paths where there are two combinations, and the
   * join once per distinct leaf has the two.
   */
  lemma ThirdJoinDuplicates(stores: seq<seq<Cell<LogicTreeNode>>>, roots: seq<Ref>, x: LogicTreeNode)
    requires stores == [[Cell(x, [1, 2]), Cell(x, []), Cell(x, [])], [Cell(x, [])], [Cell(x, [])]]
    requires roots == [0, 0, 0]
    ensures Joinable(stores, roots) && |Joined(stores, roots, 3)| == 5
    ensures Joined(stores, roots, 3)[3].children == [4, 4]
    ensures |AllPaths(Joined(stores, roots, 3), 0)| == 4
    ensures |CrossAll(stores, roots, 3)| == 2 && |AllPaths(JoinedOnce(stores, roots, 3), 0)| == 2
  {
    var c0, leaf := stores[0], stores[1];
    var c3 := [Cell(x, [1, 2]), Cell(x, [3]), Cell(x, [3]), Cell(x, [4, 4]), Cell(x, [])];
    ExampleJoined(stores, roots, x);
    ExampleThreeLeaves(c3, x);
    ExampleFirstLeaves(c0, x);
    PathCountIsLeafCount(c3, 0);
    PathCountIsLeafCount(c0, 0);
    PathCountIsLeafCount(leaf, 0);
    assert LeavesOf(leaf, 0) == [0];
    CrossLength(AllPaths(c0, 0), AllPaths(leaf, 0));
    assert CrossAll(stores, roots, 2) == Cross(AllPaths(c0, 0), AllPaths(leaf, 0));
    CrossLength(CrossAll(stores, roots, 2), AllPaths(leaf, 0));
    JoinedOncePaths(stores, roots, 3);
  }
}
