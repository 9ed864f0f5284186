/**
 * The per-file work of the instrumenter: collect the directives for the
 * parsed buffer, then patch the buffer with them.
 */
module Instrumenter {
  import opened SyntaxTree
  import opened FunctionSites
  import opened SiteLemmas
  import opened TextPatcher

  /** The walk started at the root collects what CollectSite says of it. */
  lemma RootForest(root: Node, source: string)
    requires WellFormed(root, source)
    ensures ForestWellFormed([root], source)
    ensures CollectForest([root], source) == CollectSite(root, source)
  {
    assert [root][1..] == [];
  }

  /** Every directive collected over a well-formed tree points into the
      buffer. */
  lemma CollectedWithin(root: Node, source: string)
    requires WellFormed(root, source)
    ensures OffsetsWithin(CollectSite(root, source), |source|)
  {
    CollectedOffsetsInSource(root, source);
    var s := CollectSite(root, source);
    forall k | 0 <= k < |s| ensures s[k].offset <= |source| {
      assert s[k] in s;
    }
  }

  /** Instrument one parsed buffer: walk the tree from its root, then sort
      and insert the directives. */
  method InstrumentSource(source: string, root: Node) returns (patched: string)
    requires WellFormed(root, source)
    ensures OffsetsWithin(CollectSite(root, source), |source|)
    ensures patched == PatchPhase(source, CollectSite(root, source))
    ensures |patched| == |source| + TotalLength(CollectSite(root, source))
  {
    var insertions := TraverseAndPrint([root], source, []);
    RootForest(root, source);
    assert insertions == CollectSite(root, source);
    CollectedWithin(root, source);
    patched := PatchSource(source, insertions);
  }
}
