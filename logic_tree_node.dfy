/**
 * The value record stored in every node of a logic tree
 * (src/parser/LogicTreeNode.java). The record is immutable: its fields are set
 * by a constructor only, so it is a datatype whose destructors are the getters.
 */
module LogicTreeNodes {

  /** One branch of a logic tree: which alternative it is, what it stands for and its weight. */
  datatype LogicTreeNode = LogicTreeNode(
    branchId: string,
    uncertaintyType: string,
    uncertaintyModel: string,
    uncertaintyWeight: real,
    applyToSources: string,
    applyToSourceType: string,
    applyToTectonicRegionType: string)

  /** The default constructor: the "empty" node that sits at the root of every logic tree. */
  function EmptyNode(): (n: LogicTreeNode)
    ensures n.branchId == "" && n.uncertaintyType == "" && n.uncertaintyModel == ""
    ensures n.uncertaintyWeight == 1.0
    ensures n.applyToSources == "" && n.applyToSourceType == "" && n.applyToTectonicRegionType == ""
  {
    LogicTreeNode("", "", "", 1.0, "", "", "")
  }

  /** The seven-argument constructor stores each argument, and each getter gives it back. */
  lemma ConstructorStoresArguments(branchId: string, uncertaintyType: string, uncertaintyModel: string,
                                   uncertaintyWeight: real, applyToSources: string,
                                   applyToSourceType: string, applyToTectonicRegionType: string)
    ensures var n := LogicTreeNode(branchId, uncertaintyType, uncertaintyModel, uncertaintyWeight,
                                   applyToSources, applyToSourceType, applyToTectonicRegionType);
      && n.branchId == branchId && n.uncertaintyType == uncertaintyType
      && n.uncertaintyModel == uncertaintyModel && n.uncertaintyWeight == uncertaintyWeight
      && n.applyToSources == applyToSources && n.applyToSourceType == applyToSourceType
      && n.applyToTectonicRegionType == applyToTectonicRegionType
  {
  }

  /**
   * The source's equals: a field-by-field comparison of all seven fields.
   * It coincides with structural identity of the record.
   */
  predicate Equals(a: LogicTreeNode, b: LogicTreeNode): (r: bool)
    ensures r <==> a == b
  {
    && a.branchId == b.branchId
    && a.uncertaintyType == b.uncertaintyType
    && a.uncertaintyModel == b.uncertaintyModel
    && a.uncertaintyWeight == b.uncertaintyWeight
    && a.applyToSources == b.applyToSources
    && a.applyToSourceType == b.applyToSourceType
    && a.applyToTectonicRegionType == b.applyToTectonicRegionType
  }

  /** The source's equals is reflexive and symmetric, as the equals contract of Java asks. */
  lemma EqualsReflexiveAndSymmetric(a: LogicTreeNode, b: LogicTreeNode)
    ensures Equals(a, a)
    ensures Equals(a, b) <==> Equals(b, a)
  {
  }

  /** Two nodes that differ only in their branch identifier, or only in their weight, are unequal. */
  lemma EqualsSeesBranchIdAndWeight(a: LogicTreeNode, id: string, w: real)
    ensures id != a.branchId ==> !Equals(a, a.(branchId := id))
    ensures w != a.uncertaintyWeight ==> !Equals(a, a.(uncertaintyWeight := w))
  {
  }
}
