/**
 * A root-to-leaf path through a logic tree and its weight
 * (src/processor/LogicTreePath.java).
 */
module LogicTreePaths {
  import opened LogicTreeNodes

  /**
   * The product of the weights of `nodes`, multiplied left to right starting
   * from 1, in the order in which the source accumulates it.
   */
  function Product(nodes: seq<LogicTreeNode>): real
  {
    if nodes == [] then 1.0 else Product(nodes[..|nodes| - 1]) * nodes[|nodes| - 1].uncertaintyWeight
  }

  /** The weight of a concatenation is the product of the weights of its parts. */
  lemma {:induction false} ProductAppend(a: seq<LogicTreeNode>, b: seq<LogicTreeNode>)
    ensures Product(a + b) == Product(a) * Product(b)
    decreases |b|
  {
    if b != [] {
      var b' := b[..|b| - 1];
      assert (a + b)[..|a + b| - 1] == a + b';
      ProductAppend(a, b');
    } else {
      assert a + b == a;
    }
  }

  /** Putting a node in front multiplies the weight by the node's weight. */
  lemma ProductCons(d: LogicTreeNode, rest: seq<LogicTreeNode>)
    ensures Product([d] + rest) == d.uncertaintyWeight * Product(rest)
  {
    ProductAppend([d], rest);
    assert [d][..0] == [];
  }

  /** With non-negative weights the product is non-negative. */
  lemma {:induction false} ProductNonNegative(nodes: seq<LogicTreeNode>)
    requires forall i :: 0 <= i < |nodes| ==> nodes[i].uncertaintyWeight >= 0.0
    ensures Product(nodes) >= 0.0
    decreases |nodes|
  {
    if nodes != [] {
      ProductNonNegative(nodes[..|nodes| - 1]);
    }
  }

  /** The value of a LogicTreePath object: its node list and its weight. */
  datatype WeightedPath = WeightedPath(path: seq<LogicTreeNode>, pathWeight: real)

  /**
   * The source's equals on paths: the node lists are equal element by element
   * (LogicTreeNode's equals) and the weights are equal.
   */
  predicate PathEquals(a: WeightedPath, b: WeightedPath): (r: bool)
    ensures r <==> a == b
  {
    && |a.path| == |b.path|
    && (forall i :: 0 <= i < |a.path| ==> Equals(a.path[i], b.path[i]))
    && a.pathWeight == b.pathWeight
  }

  /** A path whose node list is being extended in place. */
  class LogicTreePath {
    var path: seq<LogicTreeNode>
    var pathWeight: real

    /** Stores the given list and weight unchanged. */
    constructor (path: seq<LogicTreeNode>, pathWeight: real)
      ensures this.path == path && this.pathWeight == pathWeight
    {
      this.path := path;
      this.pathWeight := pathWeight;
    }

    function Value(): WeightedPath
      reads this
    {
      WeightedPath(path, pathWeight)
    }

    /**
     * Appends `node` at the end and multiplies the weight by the node's weight;
     * a weight that was the product of the nodes stays so.
     */
    method AddNode(node: LogicTreeNode)
      modifies this
      ensures path == old(path) + [node]
      ensures pathWeight == old(pathWeight) * node.uncertaintyWeight
      ensures old(pathWeight) == Product(old(path)) ==> pathWeight == Product(path)
    {
      path := path + [node];
      pathWeight := pathWeight * node.uncertaintyWeight;
      assert path[..|path| - 1] == old(path);
    }

    predicate Equals(other: LogicTreePath): (r: bool)
      reads this, other
      ensures r <==> Value() == other.Value()
    {
      PathEquals(Value(), other.Value())
    }
  }
}
