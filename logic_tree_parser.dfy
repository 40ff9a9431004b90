/**
 * Building a logic tree from branch-set descriptors
 * (src/parser/LogicTreeParser.java: the constructor's empty root and
 * parseLogicTreeBranchSet).
 *
 * The XML reading is not part of this model: the builder receives the branch
 * sets already read, in document order (branching level by branching level).
 */
module LogicTreeParser {
  import opened Wrappers
  import opened LogicTreeNodes
  import opened Trees

  /** A logicTreeBranch element: its branchID, uncertaintyModel and uncertaintyWeight. */
  datatype Branch = Branch(branchId: string, uncertaintyModel: string, uncertaintyWeight: real)

  /**
   * A logicTreeBranchSet element: its attributes (None when an optional
   * attribute is absent) and its branches, in document order.
   */
  datatype BranchSet = BranchSet(
    uncertaintyType: string,
    applyToBranches: Option<string>,
    applyToSources: Option<string>,
    applyToSourceType: Option<string>,
    applyToTectonicRegionType: Option<string>,
    branches: seq<Branch>)

  /** An absent attribute reads as the empty string. */
  function AttributeOrEmpty(attribute: Option<string>): (value: string)
    ensures attribute.None? ==> value == ""
    ensures attribute.Some? ==> value == attribute.value
  {
    if attribute.Some? then attribute.value else ""
  }

  // ---------------------------------------------------------------------------
  // Splitting applyToBranches into branch identifiers
  // ---------------------------------------------------------------------------

  /** The default delimiters of a string tokenizer: space, tab, newline, carriage return, form feed. */
  predicate IsDelimiter(c: char)
  {
    c == ' ' || c == '\t' || c == '\n' || c == '\r' || c == '\U{000C}'
  }

  /** The length of the run of non-delimiters at the start of `s`. */
  function TokenLength(s: string): (n: nat)
    ensures n <= |s|
    ensures forall i :: 0 <= i < n ==> !IsDelimiter(s[i])
    ensures n < |s| ==> IsDelimiter(s[n])
  {
    if s == [] || IsDelimiter(s[0]) then 0 else 1 + TokenLength(s[1..])
  }

  /** The maximal runs of non-delimiters in `s`, in order. */
  function Tokens(s: string): (tokens: seq<string>)
    ensures forall t :: t in tokens ==> |t| > 0 && forall c :: c in t ==> !IsDelimiter(c)
    decreases |s|
  {
    if s == [] then []
    else if IsDelimiter(s[0]) then Tokens(s[1..])
    else
      var n := TokenLength(s);
      [s[..n]] + Tokens(s[n..])
  }

  lemma {:induction false} TokenLengthIs(s: string, n: nat)
    requires n <= |s|
    requires forall i :: 0 <= i < n ==> !IsDelimiter(s[i])
    requires n < |s| ==> IsDelimiter(s[n])
    ensures TokenLength(s) == n
    decreases n
  {
    if n > 0 {
      TokenLengthIs(s[1..], n - 1);
    }
  }

  /** The scan for the end of the token that starts at `i`. */
  method ScanToken(s: string, i: nat) returns (j: nat)
    requires i < |s|
    ensures j == i + TokenLength(s[i..])
  {
    j := i;
    while j < |s| && !IsDelimiter(s[j])
      invariant i <= j <= |s|
      invariant forall k :: i <= k < j ==> !IsDelimiter(s[k])
    {
      j := j + 1;
    }
    TokenLengthIs(s[i..], j - i);
  }

  /** The tokenizer loop: collects every token of `s`, in order. */
  method Tokenize(s: string) returns (tokens: seq<string>)
    ensures tokens == Tokens(s)
  {
    tokens := [];
    var i := 0;
    while i < |s|
      invariant 0 <= i <= |s|
      invariant tokens + Tokens(s[i..]) == Tokens(s)
    {
      if IsDelimiter(s[i]) {
        assert s[i..][1..] == s[i + 1..];
        i := i + 1;
      } else {
        var j := ScanToken(s, i);
        assert s[i..][..j - i] == s[i..j];
        assert s[i..][j - i..] == s[j..];
        ConcatAssociative(tokens, [s[i..j]], Tokens(s[j..]));
        tokens := tokens + [s[i..j]];
        i := j;
      }
    }
  }

  /** Identifiers written one after the other, separated by single spaces. */
  function JoinTokens(tokens: seq<string>): string
  {
    if tokens == [] then []
    else if |tokens| == 1 then tokens[0]
    else tokens[0] + [' '] + JoinTokens(tokens[1..])
  }

  /** A token followed by a delimiter (or by nothing) is split off as the first token. */
  lemma TokensOfTokenThen(t: string, rest: string)
    requires |t| > 0 && forall c :: c in t ==> !IsDelimiter(c)
    requires rest == [] || IsDelimiter(rest[0])
    ensures Tokens(t + rest) == [t] + Tokens(rest)
  {
    var s := t + rest;
    assert forall i :: 0 <= i < |t| ==> s[i] == t[i] && t[i] in t;
    TokenLengthIs(s, |t|);
    assert s[..|t|] == t;
    assert s[|t|..] == rest;
  }

  /** Splitting a space-separated list of identifiers gives the identifiers back. */
  lemma {:induction false} TokensOfJoinTokens(tokens: seq<string>)
    requires forall t :: t in tokens ==> |t| > 0 && forall c :: c in t ==> !IsDelimiter(c)
    ensures Tokens(JoinTokens(tokens)) == tokens
    decreases |tokens|
  {
    if |tokens| == 1 {
      TokensOfTokenThen(tokens[0], []);
      assert tokens[0] + [] == tokens[0];
    } else if |tokens| > 1 {
      var rest := [' '] + JoinTokens(tokens[1..]);
      assert JoinTokens(tokens) == tokens[0] + rest;
      TokensOfTokenThen(tokens[0], rest);
      assert rest[1..] == JoinTokens(tokens[1..]);
      TokensOfJoinTokens(tokens[1..]);
    }
  }

  /** A string of delimiters only, the empty string among them, has no tokens. */
  lemma {:induction false} NoTokensInBlank(s: string)
    requires forall i :: 0 <= i < |s| ==> IsDelimiter(s[i])
    ensures Tokens(s) == []
    decreases |s|
  {
    if s != [] {
      NoTokensInBlank(s[1..]);
    }
  }

  // ---------------------------------------------------------------------------
  // Attaching a branch set under the current leaves (specification)
  // ---------------------------------------------------------------------------

  /** A leaf is extended when the identifiers contain "ALL" or the leaf's own branchID. */
  predicate Targets(tokens: seq<string>, data: LogicTreeNode)
  {
    "ALL" in tokens || data.branchId in tokens
  }

  /** The node created for `branch`, carrying the attributes of its branch set. */
  function ChildNode(bs: BranchSet, branch: Branch): (n: LogicTreeNode)
    ensures n.branchId == branch.branchId && n.uncertaintyModel == branch.uncertaintyModel
    ensures n.uncertaintyWeight == branch.uncertaintyWeight && n.uncertaintyType == bs.uncertaintyType
    ensures n.applyToSources == AttributeOrEmpty(bs.applyToSources)
    ensures n.applyToSourceType == AttributeOrEmpty(bs.applyToSourceType)
    ensures n.applyToTectonicRegionType == AttributeOrEmpty(bs.applyToTectonicRegionType)
  {
    LogicTreeNode(branch.branchId, bs.uncertaintyType, branch.uncertaintyModel, branch.uncertaintyWeight,
                  AttributeOrEmpty(bs.applyToSources), AttributeOrEmpty(bs.applyToSourceType),
                  AttributeOrEmpty(bs.applyToTectonicRegionType))
  }

  /** One node per branch, in the order of the branches. */
  function ChildNodes(bs: BranchSet): (nodes: seq<LogicTreeNode>)
    ensures |nodes| == |bs.branches|
    ensures forall b :: 0 <= b < |nodes| ==> nodes[b] == ChildNode(bs, bs.branches[b])
  {
    seq(|bs.branches|, b requires 0 <= b < |bs.branches| => ChildNode(bs, bs.branches[b]))
  }

  /** The references start, start + 1, ..., start + len - 1. */
  function Range(start: nat, len: nat): (rs: seq<Ref>)
    ensures |rs| == len
    ensures forall k :: 0 <= k < len ==> rs[k] == start + k
  {
    seq(len, k requires 0 <= k < len => start + k)
  }

  /**
   * `nodes` appended to the store, each as a new childless cell, and hung in
   * order under `leaf`.
   */
  function AddBranches(cells: seq<Cell<LogicTreeNode>>, leaf: Ref, nodes: seq<LogicTreeNode>)
    : (r: seq<Cell<LogicTreeNode>>)
    requires leaf < |cells|
    ensures |r| == |cells| + |nodes|
    ensures forall i :: 0 <= i < |cells| ==> r[i].data == cells[i].data
    ensures forall i :: 0 <= i < |cells| && i != leaf ==> r[i].children == cells[i].children
    ensures r[leaf].children == cells[leaf].children + Range(|cells|, |nodes|)
    ensures forall i :: |cells| <= i < |r| ==> r[i] == Cell(nodes[i - |cells|], [])
    ensures WellFormed(cells) ==> WellFormed(r)
    decreases |nodes|
  {
    if nodes == [] then cells
    else
      var c := AddBranches(cells, leaf, nodes[..|nodes| - 1]);
      AddLeaf(c, leaf, nodes[|nodes| - 1])
  }

  lemma AddBranchesStep(cells: seq<Cell<LogicTreeNode>>, leaf: Ref, nodes: seq<LogicTreeNode>, j: nat)
    requires leaf < |cells| && j < |nodes|
    ensures AddBranches(cells, leaf, nodes[..j + 1]) == AddLeaf(AddBranches(cells, leaf, nodes[..j]), leaf, nodes[j])
  {
    assert nodes[..j + 1][..j] == nodes[..j];
  }

  /** Hanging new cells under a leaf shares no node. */
  lemma {:induction false} AddBranchesNoSharing(cells: seq<Cell<LogicTreeNode>>, leaf: Ref, nodes: seq<LogicTreeNode>)
    requires WellFormed(cells) && NoSharing(cells) && leaf < |cells|
    ensures NoSharing(AddBranches(cells, leaf, nodes))
    decreases |nodes|
  {
    if nodes != [] {
      AddBranchesNoSharing(cells, leaf, nodes[..|nodes| - 1]);
      AddLeafNoSharing(AddBranches(cells, leaf, nodes[..|nodes| - 1]), leaf, nodes[|nodes| - 1]);
    }
  }

  /** The leaves in `leaves` that the identifiers target, in order. */
  function TargetedLeaves(cells: seq<Cell<LogicTreeNode>>, leaves: seq<Ref>, tokens: seq<string>)
    : (targeted: seq<Ref>)
    requires InStore(cells, leaves)
    ensures InStore(cells, targeted)
    ensures forall x :: x in targeted <==> x in leaves && Targets(tokens, cells[x].data)
    decreases |leaves|
  {
    if leaves == [] then []
    else
      var rest := TargetedLeaves(cells, leaves[..|leaves| - 1], tokens);
      var leaf := leaves[|leaves| - 1];
      assert forall x :: x in leaves <==> x in leaves[..|leaves| - 1] || x == leaf;
      if Targets(tokens, cells[leaf].data) then rest + [leaf] else rest
  }

  /** The loop over the current leaves: every targeted leaf receives one child per branch. */
  function AttachToLeaves(cells: seq<Cell<LogicTreeNode>>, leaves: seq<Ref>, tokens: seq<string>, bs: BranchSet)
    : (r: seq<Cell<LogicTreeNode>>)
    requires InStore(cells, leaves)
    ensures |r| >= |cells|
    ensures forall i :: 0 <= i < |cells| ==> r[i].data == cells[i].data
    ensures WellFormed(cells) ==> WellFormed(r)
    decreases |leaves|
  {
    if leaves == [] then cells
    else
      var c := AttachToLeaves(cells, leaves[..|leaves| - 1], tokens, bs);
      var leaf := leaves[|leaves| - 1];
      if Targets(tokens, c[leaf].data) then AddBranches(c, leaf, ChildNodes(bs)) else c
  }

  lemma AttachToLeavesStep(cells: seq<Cell<LogicTreeNode>>, leaves: seq<Ref>, i: nat, tokens: seq<string>, bs: BranchSet)
    requires InStore(cells, leaves) && i < |leaves|
    ensures var c := AttachToLeaves(cells, leaves[..i], tokens, bs);
      AttachToLeaves(cells, leaves[..i + 1], tokens, bs) ==
      if Targets(tokens, c[leaves[i]].data) then AddBranches(c, leaves[i], ChildNodes(bs)) else c
  {
    assert leaves[..i + 1][..i] == leaves[..i] && leaves[..i + 1][i] == leaves[i];
  }

  lemma {:induction false} AttachToLeavesNoSharing(cells: seq<Cell<LogicTreeNode>>, leaves: seq<Ref>, tokens: seq<string>, bs: BranchSet)
    requires WellFormed(cells) && NoSharing(cells) && InStore(cells, leaves)
    ensures NoSharing(AttachToLeaves(cells, leaves, tokens, bs))
    decreases |leaves|
  {
    if leaves != [] {
      var c := AttachToLeaves(cells, leaves[..|leaves| - 1], tokens, bs);
      AttachToLeavesNoSharing(cells, leaves[..|leaves| - 1], tokens, bs);
      if Targets(tokens, c[leaves[|leaves| - 1]].data) {
        AddBranchesNoSharing(c, leaves[|leaves| - 1], ChildNodes(bs));
      }
    }
  }

  /** The effect of parsing one branch set on the tree rooted at `root`. */
  function Attach(cells: seq<Cell<LogicTreeNode>>, root: Ref, bs: BranchSet): (r: seq<Cell<LogicTreeNode>>)
    requires WellFormed(cells) && root < |cells|
    ensures WellFormed(r) && |r| >= |cells|
    ensures forall i :: 0 <= i < |cells| ==> r[i].data == cells[i].data
  {
    AttachToLeaves(cells, LeafFilter(cells, PreOrder(cells, root)), Tokens(AttributeOrEmpty(bs.applyToBranches)), bs)
  }

  /** Parsing a branch set keeps every node with at most one parent. */
  lemma AttachNoSharing(cells: seq<Cell<LogicTreeNode>>, root: Ref, bs: BranchSet)
    requires WellFormed(cells) && NoSharing(cells) && root < |cells|
    ensures NoSharing(Attach(cells, root, bs))
  {
    AttachToLeavesNoSharing(cells, LeafFilter(cells, PreOrder(cells, root)), Tokens(AttributeOrEmpty(bs.applyToBranches)), bs);
  }

  /** Branch sets parsed one after the other, each under the leaves the previous ones left. */
  function ApplyBranchSets(cells: seq<Cell<LogicTreeNode>>, sets: seq<BranchSet>): (r: seq<Cell<LogicTreeNode>>)
    requires WellFormed(cells) && 0 < |cells|
    ensures WellFormed(r) && |r| >= |cells|
    ensures forall i :: 0 <= i < |cells| ==> r[i].data == cells[i].data
    decreases |sets|
  {
    if sets == [] then cells
    else Attach(ApplyBranchSets(cells, sets[..|sets| - 1]), 0, sets[|sets| - 1])
  }

  lemma {:induction false} ApplyBranchSetsNoSharing(cells: seq<Cell<LogicTreeNode>>, sets: seq<BranchSet>)
    requires WellFormed(cells) && NoSharing(cells) && 0 < |cells|
    ensures NoSharing(ApplyBranchSets(cells, sets))
    decreases |sets|
  {
    if sets != [] {
      ApplyBranchSetsNoSharing(cells, sets[..|sets| - 1]);
      AttachNoSharing(ApplyBranchSets(cells, sets[..|sets| - 1]), 0, sets[|sets| - 1]);
    }
  }

  /** The store of a fresh builder: one root cell holding the empty node. */
  function InitialStore(): (cells: seq<Cell<LogicTreeNode>>)
    ensures WellFormed(cells) && NoSharing(cells)
  {
    [Cell(EmptyNode(), [])]
  }

  /** The logic tree built from `sets`; its root keeps the empty node. */
  function Build(sets: seq<BranchSet>): (cells: seq<Cell<LogicTreeNode>>)
    ensures WellFormed(cells) && NoSharing(cells) && 0 < |cells|
    ensures cells[0].data == EmptyNode()
  {
    ApplyBranchSetsNoSharing(InitialStore(), sets);
    ApplyBranchSets(InitialStore(), sets)
  }

  // ---------------------------------------------------------------------------
  // What parsing one branch set does
  // ---------------------------------------------------------------------------

  lemma TargetedLeavesDistinct(cells: seq<Cell<LogicTreeNode>>, leaves: seq<Ref>, tokens: seq<string>)
    requires InStore(cells, leaves) && Distinct(leaves)
    ensures Distinct(TargetedLeaves(cells, leaves, tokens))
    decreases |leaves|
  {
    if leaves != [] {
      var leaves' := leaves[..|leaves| - 1];
      TargetedLeavesDistinct(cells, leaves', tokens);
      assert leaves[|leaves| - 1] !in leaves' by {
        forall k | 0 <= k < |leaves'| ensures leaves'[k] != leaves[|leaves| - 1] {
          assert leaves'[k] == leaves[k];
        }
      }
    }
  }

  /**
   * `r` is `cells` after the targeted leaves `T` were extended by the branches
   * of `bs`: each of them has one new child per branch, in branch order, each
   * holding its branch's node; the new cells are leaves; every other cell
   * keeps its data and children.
   */
  ghost predicate Shaped(cells: seq<Cell<LogicTreeNode>>, r: seq<Cell<LogicTreeNode>>, T: seq<Ref>, bs: BranchSet)
  {
    KeepsOthers(cells, r, T) && ExtendsTargets(cells, r, T, bs)
  }

  /** Cells outside `T` keep their children, all keep their data, and the new cells are leaves. */
  ghost predicate KeepsOthers(cells: seq<Cell<LogicTreeNode>>, r: seq<Cell<LogicTreeNode>>, T: seq<Ref>)
  {
    && WellFormed(r) && |cells| <= |r|
    && (forall i :: 0 <= i < |cells| ==> r[i].data == cells[i].data)
    && (forall i :: 0 <= i < |cells| && i !in T ==> r[i].children == cells[i].children)
    && (forall i :: |cells| <= i < |r| ==> r[i].children == [])
  }

  /** Every cell of `T` has one new child per branch of `bs`, holding that branch's node. */
  ghost predicate ExtendsTargets(cells: seq<Cell<LogicTreeNode>>, r: seq<Cell<LogicTreeNode>>, T: seq<Ref>, bs: BranchSet)
    requires WellFormed(r) && |cells| <= |r|
  {
    forall x :: 0 <= x < |cells| && x in T ==> ExtendedBy(cells, r, x, bs)
  }

  lemma KeepsOthersStep(cells: seq<Cell<LogicTreeNode>>, c: seq<Cell<LogicTreeNode>>, T: seq<Ref>, leaf: Ref, bs: BranchSet)
    requires KeepsOthers(cells, c, T) && leaf < |cells|
    ensures KeepsOthers(cells, AddBranches(c, leaf, ChildNodes(bs)), T + [leaf])
  {
    var r := AddBranches(c, leaf, ChildNodes(bs));
    forall i | 0 <= i < |cells| && i !in T + [leaf] ensures r[i].children == cells[i].children {
      assert i !in T && i != leaf;
    }
  }

  /** A leaf extended earlier keeps its children when another leaf is extended. */
  lemma EarlierTargetKept(cells: seq<Cell<LogicTreeNode>>, c: seq<Cell<LogicTreeNode>>, T: seq<Ref>, leaf: Ref, bs: BranchSet, x: Ref)
    requires Shaped(cells, c, T, bs) && leaf < |cells| && x < |cells| && x in T && x != leaf
    ensures ExtendedBy(cells, AddBranches(c, leaf, ChildNodes(bs)), x, bs)
  {
    var r := AddBranches(c, leaf, ChildNodes(bs));
    assert r[x].children == c[x].children;
    forall b | 0 <= b < |r[x].children| ensures r[r[x].children[b]].data == ChildNode(bs, bs.branches[b]) {
      assert c[x].children[b] < |c|;
    }
  }

  /** The leaf just extended has the new cells as children, one per branch. */
  lemma NewTargetExtended(cells: seq<Cell<LogicTreeNode>>, c: seq<Cell<LogicTreeNode>>, T: seq<Ref>, leaf: Ref, bs: BranchSet)
    requires KeepsOthers(cells, c, T) && leaf < |cells| && leaf !in T && cells[leaf].children == []
    ensures ExtendedBy(cells, AddBranches(c, leaf, ChildNodes(bs)), leaf, bs)
  {
    var r := AddBranches(c, leaf, ChildNodes(bs));
    assert c[leaf].children == [];
    forall b | 0 <= b < |r[leaf].children| ensures r[r[leaf].children[b]].data == ChildNode(bs, bs.branches[b]) {
      assert r[leaf].children[b] == |c| + b;
      assert r[|c| + b] == Cell(ChildNodes(bs)[b], []);
    }
  }

  /** Extending one more leaf keeps the targeted leaves extended. */
  lemma ExtendsTargetsStep(cells: seq<Cell<LogicTreeNode>>, c: seq<Cell<LogicTreeNode>>, T: seq<Ref>, leaf: Ref, bs: BranchSet)
    requires Shaped(cells, c, T, bs) && leaf < |cells| && leaf !in T && cells[leaf].children == []
    ensures KeepsOthers(cells, AddBranches(c, leaf, ChildNodes(bs)), T + [leaf])
    ensures ExtendsTargets(cells, AddBranches(c, leaf, ChildNodes(bs)), T + [leaf], bs)
  {
    KeepsOthersStep(cells, c, T, leaf, bs);
    NewTargetExtended(cells, c, T, leaf, bs);
    var r := AddBranches(c, leaf, ChildNodes(bs));
    forall x | 0 <= x < |cells| && x in T
      ensures ExtendedBy(cells, r, x, bs)
    {
      EarlierTargetKept(cells, c, T, leaf, bs, x);
    }
    ExtendsTargetsAppend(cells, r, T, leaf, bs);
  }

  /** The cell `x` has one child per branch, each new and holding its branch's node. */
  ghost predicate ExtendedBy(cells: seq<Cell<LogicTreeNode>>, r: seq<Cell<LogicTreeNode>>, x: Ref, bs: BranchSet)
    requires WellFormed(r) && |cells| <= |r| && x < |cells|
  {
    && |r[x].children| == |bs.branches|
    && (forall b :: 0 <= b < |r[x].children| ==> |cells| <= r[x].children[b])
    && (forall b :: 0 <= b < |r[x].children| ==> r[r[x].children[b]].data == ChildNode(bs, bs.branches[b]))
  }

  lemma ExtendsTargetsAppend(cells: seq<Cell<LogicTreeNode>>, r: seq<Cell<LogicTreeNode>>, T: seq<Ref>, leaf: Ref, bs: BranchSet)
    requires WellFormed(r) && |cells| <= |r| && leaf < |cells|
    requires ExtendedBy(cells, r, leaf, bs)
    requires forall x :: 0 <= x < |cells| && x in T ==> ExtendedBy(cells, r, x, bs)
    ensures ExtendsTargets(cells, r, T + [leaf], bs)
  {
    forall x | 0 <= x < |cells| && x in T + [leaf] ensures ExtendedBy(cells, r, x, bs) {
      assert x in T || x == leaf;
    }
  }

  /** The loop over distinct leaves leaves the store shaped by the targeted ones. */
  lemma {:induction false} AttachToLeavesShape(cells: seq<Cell<LogicTreeNode>>, leaves: seq<Ref>, tokens: seq<string>, bs: BranchSet)
    requires WellFormed(cells) && InStore(cells, leaves) && Distinct(leaves)
    requires forall k :: 0 <= k < |leaves| ==> cells[leaves[k]].children == []
    ensures Shaped(cells, AttachToLeaves(cells, leaves, tokens, bs), TargetedLeaves(cells, leaves, tokens), bs)
    decreases |leaves|
  {
    if leaves != [] {
      var leaves' := leaves[..|leaves| - 1];
      var leaf := leaves[|leaves| - 1];
      AttachToLeavesShape(cells, leaves', tokens, bs);
      var T := TargetedLeaves(cells, leaves', tokens);
      var c := AttachToLeaves(cells, leaves', tokens, bs);
      assert leaf !in leaves' by {
        forall k | 0 <= k < |leaves'| ensures leaves'[k] != leaf {
          assert leaves'[k] == leaves[k];
        }
      }
      assert c[leaf].data == cells[leaf].data;
      if Targets(tokens, cells[leaf].data) {
        ExtendsTargetsStep(cells, c, T, leaf, bs);
      }
    }
  }

  /**
   * Parsing one branch set: the leaves under `root` that applyToBranches
   * targets each gain one new child per branch, in branch order, holding the
   * branch's node; the new cells are leaves and every other cell keeps its
   * data and children.
   */
  lemma AttachShape(cells: seq<Cell<LogicTreeNode>>, root: Ref, bs: BranchSet)
    requires WellFormed(cells) && NoSharing(cells) && root < |cells|
    ensures var T := TargetedLeaves(cells, LeavesOf(cells, root), Tokens(AttributeOrEmpty(bs.applyToBranches)));
            Shaped(cells, Attach(cells, root, bs), T, bs)
  {
    var leaves := LeafFilter(cells, PreOrder(cells, root));
    LeavesListedOnce(cells, root);
    LeafFilterOfPreOrder(cells, root);
    forall k | 0 <= k < |leaves| ensures cells[leaves[k]].children == [] {
      LeafFilterMembership(cells, PreOrder(cells, root), leaves[k]);
    }
    AttachToLeavesShape(cells, leaves, Tokens(AttributeOrEmpty(bs.applyToBranches)), bs);
  }

  /**
   * A leaf under `root` gains children exactly when applyToBranches contains
   * "ALL" or the leaf's branchID and the branch set has branches.
   */
  lemma AttachGrowsExactlyTargeted(cells: seq<Cell<LogicTreeNode>>, root: Ref, bs: BranchSet, x: Ref)
    requires WellFormed(cells) && NoSharing(cells) && root < |cells|
    requires x in LeavesOf(cells, root)
    ensures x < |cells|
    ensures Attach(cells, root, bs)[x].children != [] <==>
              Targets(Tokens(AttributeOrEmpty(bs.applyToBranches)), cells[x].data) && bs.branches != []
  {
    LeavesOfMembership(cells, root, x);
    AttachShape(cells, root, bs);
  }

  /** A branch set without any identifier in applyToBranches (absent or blank) changes nothing. */
  lemma AttachWithoutIdentifiers(cells: seq<Cell<LogicTreeNode>>, root: Ref, bs: BranchSet)
    requires WellFormed(cells) && root < |cells|
    requires Tokens(AttributeOrEmpty(bs.applyToBranches)) == []
    ensures Attach(cells, root, bs) == cells
  {
    NoTargetsNoChange(cells, LeafFilter(cells, PreOrder(cells, root)), [], bs);
  }

  lemma {:induction false} NoTargetsNoChange(cells: seq<Cell<LogicTreeNode>>, leaves: seq<Ref>, tokens: seq<string>, bs: BranchSet)
    requires InStore(cells, leaves) && tokens == []
    ensures AttachToLeaves(cells, leaves, tokens, bs) == cells
    decreases |leaves|
  {
    if leaves != [] {
      NoTargetsNoChange(cells, leaves[..|leaves| - 1], tokens, bs);
    }
  }

  /** After parsing one branch set, the leaves are the old leaves with every extended one replaced by its new children. */
  lemma LeavesAfterAttach(cells: seq<Cell<LogicTreeNode>>, root: Ref, bs: BranchSet)
    requires WellFormed(cells) && NoSharing(cells) && root < |cells|
    ensures var r := Attach(cells, root, bs);
            LeavesOf(r, root) == Expand(r, LeavesOf(cells, root))
  {
    var r := Attach(cells, root, bs);
    var T := TargetedLeaves(cells, LeavesOf(cells, root), Tokens(AttributeOrEmpty(bs.applyToBranches)));
    AttachShape(cells, root, bs);
    forall i | 0 <= i < |cells| && cells[i].children != [] ensures r[i].children == cells[i].children {
      if i in T {
        LeavesOfMembership(cells, root, i);
      }
    }
    forall i, k | 0 <= i < |cells| && cells[i].children == [] && 0 <= k < |r[i].children|
      ensures |cells| <= r[i].children[k]
    {
      if i in T {
        assert ExtendedBy(cells, r, i, bs);
      }
    }
    LeavesAfterGrowth(cells, r, root);
  }

  /**
   * Counting the entries `Expand` produces: an entry that gained B children
   * counts B, the others count 1.
   */
  lemma {:induction false} ExpandCount(cells: seq<Cell<LogicTreeNode>>, r: seq<Cell<LogicTreeNode>>, leaves: seq<Ref>, tokens: seq<string>, B: nat)
    requires InStore(cells, leaves) && |cells| <= |r| && B > 0
    requires forall k :: 0 <= k < |leaves| && Targets(tokens, cells[leaves[k]].data) ==> |r[leaves[k]].children| == B
    requires forall k :: 0 <= k < |leaves| && !Targets(tokens, cells[leaves[k]].data) ==> r[leaves[k]].children == []
    ensures |Expand(r, leaves)| + |TargetedLeaves(cells, leaves, tokens)| == |leaves| + |TargetedLeaves(cells, leaves, tokens)| * B
    decreases |leaves|
  {
    if leaves != [] {
      var leaves' := leaves[..|leaves| - 1];
      var x := leaves[|leaves| - 1];
      assert forall k :: 0 <= k < |leaves'| ==> leaves'[k] == leaves[k];
      ExpandCount(cells, r, leaves', tokens, B);
      var e := Expand(r, leaves');
      var t := TargetedLeaves(cells, leaves', tokens);
      if Targets(tokens, cells[x].data) {
        assert |r[x].children| == B;
        assert Expand(r, leaves) == e + r[x].children;
        assert TargetedLeaves(cells, leaves, tokens) == t + [x];
        CountStep(|e|, |t|, |leaves'|, B);
      } else {
        assert r[x].children == [];
        assert Expand(r, leaves) == e + [x];
        assert TargetedLeaves(cells, leaves, tokens) == t;
      }
    }
  }

  /**
   * Parsing a branch set with B > 0 branches replaces each of the T targeted
   * leaves by B new leaves: the leaf count grows by T * (B - 1).
   */
  lemma LeafCountAfterAttach(cells: seq<Cell<LogicTreeNode>>, root: Ref, bs: BranchSet)
    requires WellFormed(cells) && NoSharing(cells) && root < |cells| && bs.branches != []
    ensures var T := TargetedLeaves(cells, LeavesOf(cells, root), Tokens(AttributeOrEmpty(bs.applyToBranches)));
            |LeavesOf(Attach(cells, root, bs), root)| + |T| == |LeavesOf(cells, root)| + |T| * |bs.branches|
  {
    var r := Attach(cells, root, bs);
    var tokens := Tokens(AttributeOrEmpty(bs.applyToBranches));
    var L := LeavesOf(cells, root);
    var T := TargetedLeaves(cells, L, tokens);
    AttachShape(cells, root, bs);
    LeavesAfterAttach(cells, root, bs);
    forall k | 0 <= k < |L| && !Targets(tokens, cells[L[k]].data) ensures r[L[k]].children == [] {
      LeavesOfMembership(cells, root, L[k]);
    }
    forall k | 0 <= k < |L| && Targets(tokens, cells[L[k]].data) ensures |r[L[k]].children| == |bs.branches| {
      assert L[k] in T;
    }
    ExpandCount(cells, r, L, tokens, |bs.branches|);
  }

  lemma CountStep(e: nat, t: nat, n: nat, B: nat)
    requires e + t == n + t * B
    ensures (e + B) + (t + 1) == (n + 1) + (t + 1) * B
  {
    assert (t + 1) * B == t * B + B;
  }

  /** With "ALL" every leaf is targeted. */
  lemma {:induction false} AllTargetsEveryLeaf(cells: seq<Cell<LogicTreeNode>>, leaves: seq<Ref>, tokens: seq<string>)
    requires InStore(cells, leaves) && "ALL" in tokens
    ensures TargetedLeaves(cells, leaves, tokens) == leaves
    decreases |leaves|
  {
    if leaves != [] {
      AllTargetsEveryLeaf(cells, leaves[..|leaves| - 1], tokens);
      assert Targets(tokens, cells[leaves[|leaves| - 1]].data);
      assert leaves[..|leaves| - 1] + [leaves[|leaves| - 1]] == leaves;
    }
  }

  /** Number of end branches of a symmetric tree: the product of the branch counts. */
  function BranchProduct(sets: seq<BranchSet>): (n: nat)
    decreases |sets|
  {
    if sets == [] then 1 else BranchProduct(sets[..|sets| - 1]) * |sets[|sets| - 1].branches|
  }

  /**
   * A tree whose branch sets all apply to "ALL" and all have branches has as
   * many leaves as the product of the branch counts.
   */
  lemma {:induction false} SymmetricLeafCount(sets: seq<BranchSet>)
    requires forall k :: 0 <= k < |sets| ==> "ALL" in Tokens(AttributeOrEmpty(sets[k].applyToBranches))
    requires forall k :: 0 <= k < |sets| ==> sets[k].branches != []
    ensures |LeavesOf(Build(sets), 0)| == BranchProduct(sets)
    decreases |sets|
  {
    if sets != [] {
      var sets' := sets[..|sets| - 1];
      var bs := sets[|sets| - 1];
      assert forall k :: 0 <= k < |sets'| ==> sets'[k] == sets[k];
      SymmetricLeafCount(sets');
      var c := Build(sets');
      assert Build(sets) == Attach(c, 0, bs);
      var L := LeavesOf(c, 0);
      LeafCountAfterAttach(c, 0, bs);
      AllTargetsEveryLeaf(c, L, Tokens(AttributeOrEmpty(bs.applyToBranches)));
      assert |LeavesOf(Build(sets), 0)| == |L| * |bs.branches|;
    }
  }

  /** Two, then three, then three branches applied to "ALL" give 2 * 3 * 3 = 18 end branches. */
  lemma EighteenEndBranches(sets: seq<BranchSet>)
    requires |sets| == 3 && |sets[0].branches| == 2 && |sets[1].branches| == 3 && |sets[2].branches| == 3
    requires forall k :: 0 <= k < |sets| ==> "ALL" in Tokens(AttributeOrEmpty(sets[k].applyToBranches))
    ensures |LeavesOf(Build(sets), 0)| == 18
  {
    assert forall k :: 0 <= k < |sets| ==> sets[k].branches != [] by {
      forall k | 0 <= k < |sets| ensures sets[k].branches != [] {
        assert k == 0 || k == 1 || k == 2;
      }
    }
    SymmetricLeafCount(sets);
    assert sets[..1][..0] == [] && sets[..1][0] == sets[0];
    assert BranchProduct(sets[..1]) == 2;
    assert sets[..2][..1] == sets[..1] && sets[..2][1] == sets[1];
    assert BranchProduct(sets[..2]) == 2 * 3;
    assert sets[..|sets| - 1] == sets[..2];
  }

  // ---------------------------------------------------------------------------
  // Every node of a built tree is on its walk
  // ---------------------------------------------------------------------------

  /** New branch cells hang under `leaf`, so every cell still hangs under an earlier one. */
  lemma AddBranchesConnected(cells: seq<Cell<LogicTreeNode>>, leaf: Ref, nodes: seq<LogicTreeNode>)
    requires Connected(cells) && leaf < |cells|
    ensures Connected(AddBranches(cells, leaf, nodes))
  {
    var r := AddBranches(cells, leaf, nodes);
    forall x | 0 < x < |r| ensures HangsUnderEarlier(r, x) {
      if x < |cells| {
        assert HangsUnderEarlier(cells, x);
        var p :| 0 <= p < x && p < |cells| && x in cells[p].children;
        assert x in r[p].children;
      } else {
        assert r[leaf].children[|cells[leaf].children| + (x - |cells|)] == x;
      }
    }
  }

  lemma {:induction false} AttachToLeavesConnected(cells: seq<Cell<LogicTreeNode>>, leaves: seq<Ref>, tokens: seq<string>, bs: BranchSet)
    requires Connected(cells) && InStore(cells, leaves)
    ensures Connected(AttachToLeaves(cells, leaves, tokens, bs))
    decreases |leaves|
  {
    if leaves != [] {
      var c := AttachToLeaves(cells, leaves[..|leaves| - 1], tokens, bs);
      AttachToLeavesConnected(cells, leaves[..|leaves| - 1], tokens, bs);
      if Targets(tokens, c[leaves[|leaves| - 1]].data) {
        AddBranchesConnected(c, leaves[|leaves| - 1], ChildNodes(bs));
      }
    }
  }

  lemma {:induction false} ApplyBranchSetsConnected(cells: seq<Cell<LogicTreeNode>>, sets: seq<BranchSet>)
    requires WellFormed(cells) && Connected(cells) && 0 < |cells|
    ensures Connected(ApplyBranchSets(cells, sets))
    decreases |sets|
  {
    if sets != [] {
      var c := ApplyBranchSets(cells, sets[..|sets| - 1]);
      var bs := sets[|sets| - 1];
      ApplyBranchSetsConnected(cells, sets[..|sets| - 1]);
      AttachToLeavesConnected(c, LeafFilter(c, PreOrder(c, 0)), Tokens(AttributeOrEmpty(bs.applyToBranches)), bs);
    }
  }

  /**
   * The walk of a built tree (toList) lists every node created for it
   * exactly once: every node is on it and its length is the node count.
   */
  lemma BuiltTreeListsEveryNode(sets: seq<BranchSet>)
    ensures forall x :: 0 <= x < |Build(sets)| ==> x in PreOrder(Build(sets), 0)
    ensures |PreOrder(Build(sets), 0)| == |Build(sets)|
  {
    ApplyBranchSetsConnected(InitialStore(), sets);
    WalkListsEveryCell(Build(sets));
  }

  // ---------------------------------------------------------------------------
  // The documented default of applyToBranches
  // ---------------------------------------------------------------------------

  /**
   * A branch set read with the documented default of applyToBranches: when
   * the attribute names no identifier, the branch set applies to "ALL".
   */
  function WithDefaultTargets(bs: BranchSet): (d: BranchSet)
    ensures d.branches == bs.branches && ChildNodes(d) == ChildNodes(bs)
    ensures Tokens(AttributeOrEmpty(bs.applyToBranches)) != [] ==> d == bs
    ensures Tokens(AttributeOrEmpty(bs.applyToBranches)) == [] ==> Tokens(AttributeOrEmpty(d.applyToBranches)) == ["ALL"]
  {
    if Tokens(AttributeOrEmpty(bs.applyToBranches)) == [] then
      TokensOfJoinTokens(["ALL"]);
      bs.(applyToBranches := Some("ALL"))
    else bs
  }

  /** Parsing one branch set with the documented default of applyToBranches. */
  function AttachWithDefault(cells: seq<Cell<LogicTreeNode>>, root: Ref, bs: BranchSet): (r: seq<Cell<LogicTreeNode>>)
    requires WellFormed(cells) && root < |cells|
    ensures WellFormed(r) && |r| >= |cells|
    ensures forall i :: 0 <= i < |cells| ==> r[i].data == cells[i].data
  {
    Attach(cells, root, WithDefaultTargets(bs))
  }

  /**
   * With the documented default, a branch set whose applyToBranches names no
   * identifier extends every leaf: each gains one child per branch, so L
   * leaves become L * B.
   */
  lemma DefaultExtendsEveryLeaf(cells: seq<Cell<LogicTreeNode>>, root: Ref, bs: BranchSet)
    requires WellFormed(cells) && NoSharing(cells) && root < |cells| && bs.branches != []
    requires Tokens(AttributeOrEmpty(bs.applyToBranches)) == []
    ensures forall x :: x in LeavesOf(cells, root) ==>
              x < |cells| && |AttachWithDefault(cells, root, bs)[x].children| == |bs.branches|
    ensures |LeavesOf(AttachWithDefault(cells, root, bs), root)| == |LeavesOf(cells, root)| * |bs.branches|
  {
    var d := WithDefaultTargets(bs);
    var r := AttachWithDefault(cells, root, bs);
    var L := LeavesOf(cells, root);
    var tokens := Tokens(AttributeOrEmpty(d.applyToBranches));
    LeafCountAfterAttach(cells, root, d);
    AllTargetsEveryLeaf(cells, L, tokens);
    AttachShape(cells, root, d);
    forall x | x in L ensures x < |cells| && |r[x].children| == |bs.branches| {
      LeavesOfMembership(cells, root, x);
      assert ExtendedBy(cells, r, x, d);
    }
  }

  // ---------------------------------------------------------------------------
  // The builder
  // ---------------------------------------------------------------------------

  /** The parser's tree under construction. */
  class LogicTreeParser {
    const logicTree: Tree<LogicTreeNode>

    /** The tree has a root, at the start of the store, and no node is shared. */
    ghost predicate Valid()
      reads this, logicTree
    {
      logicTree.Valid() && logicTree.root == Some(0) && 0 < |logicTree.cells| && NoSharing(logicTree.cells)
    }

    /** A fresh builder holds a tree whose root carries the empty node and nothing else. */
    constructor ()
      ensures Valid() && fresh(logicTree)
      ensures logicTree.cells == InitialStore()
    {
      var tree := new Tree<LogicTreeNode>();
      var root := tree.NewNode(EmptyNode());
      tree.SetRootElement(root);
      logicTree := tree;
    }

    /**
     * Hangs one new node per branch of `branchSet`, in branch order, under
     * every current leaf that applyToBranches targets.
     */
    method ParseLogicTreeBranchSet(branchSet: BranchSet)
      requires Valid()
      modifies logicTree
      ensures Valid()
      ensures logicTree.cells == Attach(old(logicTree.cells), 0, branchSet)
    {
      AttachNoSharing(logicTree.cells, 0, branchSet);
      var applyToBranches := AttributeOrEmpty(branchSet.applyToBranches);
      var branchIds := Tokenize(applyToBranches);

      var nList := logicTree.GetLeafNodes();
      ghost var start := logicTree.cells;
      for i := 0 to |nList|
        invariant logicTree.Valid() && logicTree.root == Some(0)
        invariant logicTree.cells == AttachToLeaves(start, nList[..i], branchIds, branchSet)
      {
        AttachToLeavesStep(start, nList, i, branchIds, branchSet);
        AddBranchNodes(nList[i], branchIds, branchSet);
      }
      assert nList[..|nList|] == nList;
    }

    /**
     * The loop over the branches for one leaf `n`: a node per branch, hung
     * under `n` when the identifiers target it.
     */
    method AddBranchNodes(n: Ref, branchIds: seq<string>, branchSet: BranchSet)
      requires logicTree.Valid() && n < |logicTree.cells|
      modifies logicTree
      ensures logicTree.Valid() && logicTree.root == old(logicTree.root)
      ensures logicTree.cells ==
        if Targets(branchIds, old(logicTree.cells)[n].data)
        then AddBranches(old(logicTree.cells), n, ChildNodes(branchSet))
        else old(logicTree.cells)
    {
      var uncertaintyType := branchSet.uncertaintyType;
      var applyToSources := AttributeOrEmpty(branchSet.applyToSources);
      var applyToSourceType := AttributeOrEmpty(branchSet.applyToSourceType);
      var applyToTectonicRegionType := AttributeOrEmpty(branchSet.applyToTectonicRegionType);
      ghost var before := logicTree.cells;
      ghost var nodes := ChildNodes(branchSet);
      ghost var targeted := Targets(branchIds, before[n].data);
      for j := 0 to |branchSet.branches|
        invariant logicTree.Valid() && logicTree.root == old(logicTree.root)
        invariant targeted ==> logicTree.cells == AddBranches(before, n, nodes[..j])
        invariant !targeted ==> logicTree.cells == before
      {
        var branch := branchSet.branches[j];
        var logicTreeNode := LogicTreeNode(branch.branchId, uncertaintyType, branch.uncertaintyModel,
                                           branch.uncertaintyWeight, applyToSources, applyToSourceType,
                                           applyToTectonicRegionType);
        assert logicTree.cells[n].data == before[n].data;
        if "ALL" in branchIds || logicTree.cells[n].data.branchId in branchIds {
          assert nodes[j] == logicTreeNode;
          AddBranchesStep(before, n, nodes, j);
          ghost var c := logicTree.cells;
          var node := logicTree.NewNode(logicTreeNode);
          logicTree.AddChild(n, node);
          assert logicTree.cells == AddLeaf(c, n, logicTreeNode);
        }
      }
      assert nodes[..|branchSet.branches|] == nodes;
    }

    /** Parses the branch sets in document order, branching level after branching level. */
    method ParseBranchSets(branchSets: seq<BranchSet>) returns (tree: Tree<LogicTreeNode>)
      requires Valid()
      modifies logicTree
      ensures Valid() && tree == logicTree
      ensures tree.cells == ApplyBranchSets(old(logicTree.cells), branchSets)
    {
      ghost var start := logicTree.cells;
      for i := 0 to |branchSets|
        invariant Valid()
        invariant logicTree.cells == ApplyBranchSets(start, branchSets[..i])
      {
        assert branchSets[..i + 1][..i] == branchSets[..i];
        ParseLogicTreeBranchSet(branchSets[i]);
      }
      assert branchSets[..|branchSets|] == branchSets;
      tree := logicTree;
    }
  }
}
