/**
 * The read-only lookups the instrumenter makes over the parse tree. They use
 * three different search scopes, and the classifier depends on each rule
 * using the right one:
 *  - ChildByNodeType: the direct children, unnamed tokens included;
 *  - FindNodeInFirstChildLevelByType: the named children, one level only;
 *  - FindNodeByType / FindErrorNode: the whole subtree, in pre-order.
 */
module TreeQueries {
  import opened SyntaxTree

  /** `cs[i]` is the first node of `cs` whose type is `kind`. */
  predicate IsFirstOfKind(cs: seq<Node>, kind: string, i: int)
  {
    && 0 <= i < |cs|
    && cs[i].kind == kind
    && forall j :: 0 <= j < i ==> cs[j].kind != kind
  }

  /** Left-to-right scan of `cs`, from index `i`, for a node of type `kind`. */
  function ScanForKind(cs: seq<Node>, kind: string, i: nat): (r: Option<nat>)
    requires i <= |cs|
    decreases |cs| - i
    ensures r.Some? ==> i <= r.value < |cs| && cs[r.value].kind == kind
    ensures r.Some? ==> forall j :: i <= j < r.value ==> cs[j].kind != kind
    ensures r.None? ==> forall j :: i <= j < |cs| ==> cs[j].kind != kind
  {
    if i == |cs| then None
    else if cs[i].kind == kind then Some(i)
    else ScanForKind(cs, kind, i + 1)
  }

  /** The first node of `cs` of type `kind`, or None. */
  function FirstOfKind(cs: seq<Node>, kind: string): (r: Option<Node>)
    ensures r.None? <==> forall c :: c in cs ==> c.kind != kind
    ensures r.Some? ==> exists i :: IsFirstOfKind(cs, kind, i) && cs[i] == r.value
  {
    match ScanForKind(cs, kind, 0)
    case None => None
    case Some(i) =>
      assert IsFirstOfKind(cs, kind, i);
      Some(cs[i])
  }

  /** Searching a concatenation finds the first match of its left part, if
      there is one, and otherwise the first match of its right part. */
  lemma {:induction false} FirstOfKindAppend(a: seq<Node>, b: seq<Node>, kind: string)
    ensures FirstOfKind(a + b, kind) ==
            (if FirstOfKind(a, kind).Some? then FirstOfKind(a, kind) else FirstOfKind(b, kind))
  {
    var ab := a + b;
    match ScanForKind(a, kind, 0)
    case Some(i) =>
      assert ab[i] == a[i];
      var k := ScanForKind(ab, kind, 0).value;
      assert k == i;
    case None =>
      match ScanForKind(b, kind, 0)
      case None =>
        forall c | c in ab ensures c.kind != kind {
          assert c in a || c in b;
        }
      case Some(i) =>
        assert ab[|a| + i] == b[i];
        var k := ScanForKind(ab, kind, 0).value;
        assert k == |a| + i;
        assert ab[k] == b[i];
  }

  /** ts_node_child_by_node_type: the first direct child, named or not, whose
      type is `kind`. It never looks below the children. */
  function ChildByNodeType(n: Node, kind: string): (r: Option<Node>)
    ensures r.Some? ==> r.value in n.children && r.value.kind == kind
    ensures r.None? <==> forall c :: c in n.children ==> c.kind != kind
  {
    FirstOfKind(n.children, kind)
  }

  /** What ts_node_child_by_node_type finds is the FIRST child of that type. */
  lemma ChildByNodeTypeIsFirst(n: Node, kind: string)
    ensures ChildByNodeType(n, kind).Some? ==>
              exists i :: IsFirstOfKind(n.children, kind, i) && n.children[i] == ChildByNodeType(n, kind).value
  {
  }

  /** ts_find_node_in_first_child_level_by_type: the first named child whose
      type is `kind`. Unnamed tokens and grandchildren are never returned. */
  function FindNodeInFirstChildLevelByType(n: Node, kind: string): (r: Option<Node>)
    ensures r.Some? ==> r.value in n.children && r.value.named && r.value.kind == kind
    ensures r.None? <==> forall c :: c in n.children && c.named ==> c.kind != kind
  {
    var r := FirstOfKind(NamedChildren(n), kind);
    assert r.None? ==> forall c :: c in n.children && c.named ==> c.kind != kind by {
      if r.None? {
        forall c | c in n.children && c.named ensures c.kind != kind {
          NamedContains(n.children, c);
        }
      }
    }
    r
  }

  /** What ts_find_node_in_first_child_level_by_type finds is the FIRST
      named child of that type. */
  lemma FirstLevelIsFirst(n: Node, kind: string)
    ensures FindNodeInFirstChildLevelByType(n, kind).Some? ==>
              exists i :: IsFirstOfKind(NamedChildren(n), kind, i)
                          && NamedChildren(n)[i] == FindNodeInFirstChildLevelByType(n, kind).value
  {
  }

  lemma {:induction false} NamedContains(cs: seq<Node>, c: Node)
    requires c in cs && c.named
    ensures c in Named(cs)
  {
    if cs[0] != c {
      NamedContains(cs[1..], c);
    }
  }

  /** Pre-order listing of a subtree over named children only: the node
      itself, then each named child's listing in order. */
  function NamedPreorder(n: Node): seq<Node>
    decreases TreeSize(n), 1
  {
    NamedChildrenSmaller(n);
    [n] + NamedPreorderForest(NamedChildren(n))
  }

  function NamedPreorderForest(cs: seq<Node>): seq<Node>
    decreases ForestSize(cs), 2
  {
    if cs == [] then [] else NamedPreorder(cs[0]) + NamedPreorderForest(cs[1..])
  }

  /** ts_find_node_by_type: the node itself if its type is `kind`, otherwise
      the first match found by searching each named child in turn; that is
      the first match in the named pre-order listing. */
  function FindNodeByType(n: Node, kind: string): (r: Option<Node>)
    decreases TreeSize(n), 1
    ensures r == FirstOfKind(NamedPreorder(n), kind)
    ensures n.kind == kind ==> r == Some(n)
    ensures r.Some? ==> r.value.kind == kind
  {
    if n.kind == kind then
      assert IsFirstOfKind(NamedPreorder(n), kind, 0);
      Some(n)
    else
      NamedChildrenSmaller(n);
      var r := FindAmongNamed(NamedChildren(n), kind);
      FirstOfKindAppend([n], NamedPreorderForest(NamedChildren(n)), kind);
      r
  }

  /** The loop of ts_find_node_by_type over the named children. */
  function FindAmongNamed(cs: seq<Node>, kind: string): (r: Option<Node>)
    decreases ForestSize(cs), 2
    ensures r == FirstOfKind(NamedPreorderForest(cs), kind)
  {
    if cs == [] then None
    else
      var here := FindNodeByType(cs[0], kind);
      FirstOfKindAppend(NamedPreorder(cs[0]), NamedPreorderForest(cs[1..]), kind);
      if here.Some? then here else FindAmongNamed(cs[1..], kind)
  }

  /** Pre-order listing of a subtree over all children, named or not. */
  function Preorder(n: Node): seq<Node>
    decreases TreeSize(n), 1
  {
    [n] + PreorderForest(n.children)
  }

  function PreorderForest(cs: seq<Node>): seq<Node>
    decreases ForestSize(cs), 2
  {
    if cs == [] then [] else Preorder(cs[0]) + PreorderForest(cs[1..])
  }

  const ErrorKind := "ERROR"

  /** ts_find_error_node: the first `ERROR` node of the subtree in pre-order,
      searching every child, unnamed tokens included. */
  function FindErrorNode(n: Node): (r: Option<Node>)
    decreases TreeSize(n), 1
    ensures r == FirstOfKind(Preorder(n), ErrorKind)
    ensures r.Some? ==> r.value.kind == ErrorKind
    ensures r.None? <==> forall m :: m in Preorder(n) ==> m.kind != ErrorKind
  {
    if n.kind == ErrorKind then
      assert IsFirstOfKind(Preorder(n), ErrorKind, 0);
      Some(n)
    else
      var r := FindErrorAmong(n.children);
      FirstOfKindAppend([n], PreorderForest(n.children), ErrorKind);
      r
  }

  /** The loop of ts_find_error_node over all children. */
  function FindErrorAmong(cs: seq<Node>): (r: Option<Node>)
    decreases ForestSize(cs), 2
    ensures r == FirstOfKind(PreorderForest(cs), ErrorKind)
  {
    if cs == [] then None
    else
      var here := FindErrorNode(cs[0]);
      FirstOfKindAppend(Preorder(cs[0]), PreorderForest(cs[1..]), ErrorKind);
      if here.Some? then here else FindErrorAmong(cs[1..])
  }

  /** ts_check_node_source_code: true exactly when the node exists, its
      range is as long as `code`, and the buffer holds `code` byte for byte
      at the node's start (std::string equality). */
  function CheckNodeSourceCode(source: string, n: Option<Node>, code: string): (r: bool)
    requires n.Some? ==> n.value.start <= n.value.end <= |source|
    ensures r <==> && n.Some?
                   && n.value.end - n.value.start == |code|
                   && forall k :: 0 <= k < |code| ==> source[n.value.start + k] == code[k]
  {
    n.Some? && Text(source, n.value) == code
  }
}
