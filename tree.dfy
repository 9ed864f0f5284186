/**
 * The parse tree the instrumenter reads. The grammar-driven parser itself is a
 * foreign library; this module only describes the shape of the tree it hands
 * over: typed nodes with a byte range into the source buffer, an ordered list
 * of children (some of them "named", the others punctuation or keyword tokens)
 * and, for declarators, the child reached through the `declarator` field.
 */
module SyntaxTree {

  datatype Option<T> = None | Some(value: T)

  /** One node of the tree. `declarator` is the index, among all children,
      of the child the grammar's `declarator` field points at, if any. */
  datatype Node = Node(
    kind: string,
    named: bool,
    start: nat,
    end: nat,
    children: seq<Node>,
    declarator: Option<nat>)

  /** Number of nodes in a subtree; used as the termination measure of every
      recursive walk over the tree. */
  function TreeSize(n: Node): (r: nat)
    ensures r >= 1
  {
    1 + ForestSize(n.children)
  }

  function ForestSize(cs: seq<Node>): nat
  {
    if cs == [] then 0 else TreeSize(cs[0]) + ForestSize(cs[1..])
  }

  /** The named children of a node, in order. */
  function Named(cs: seq<Node>): (r: seq<Node>)
    ensures |r| <= |cs|
    ensures forall c :: c in r ==> c in cs && c.named
  {
    if cs == [] then []
    else (if cs[0].named then [cs[0]] else []) + Named(cs[1..])
  }

  function NamedChildren(n: Node): seq<Node>
  {
    Named(n.children)
  }

  lemma {:induction false} ElementSize(cs: seq<Node>, c: Node)
    requires c in cs
    ensures TreeSize(c) <= ForestSize(cs)
  {
    if cs[0] != c {
      ElementSize(cs[1..], c);
    }
  }

  lemma {:induction false} NamedForestSize(cs: seq<Node>)
    ensures ForestSize(Named(cs)) <= ForestSize(cs)
  {
    if cs != [] {
      NamedForestSize(cs[1..]);
      var rest := Named(cs[1..]);
      if cs[0].named {
        assert Named(cs) == [cs[0]] + rest;
        assert ([cs[0]] + rest)[0] == cs[0];
        assert ([cs[0]] + rest)[1..] == rest;
      } else {
        assert Named(cs) == rest;
      }
    }
  }

  /** The named children of a node form a strictly smaller forest. */
  lemma NamedChildrenSmaller(n: Node)
    ensures ForestSize(NamedChildren(n)) < TreeSize(n)
  {
    NamedForestSize(n.children);
  }

  /** The source text a node covers. */
  function Text(source: string, n: Node): (r: string)
    requires n.start <= n.end <= |source|
    ensures |r| == n.end - n.start
  {
    source[n.start..n.end]
  }

  /** Shape of one node on its own: its range lies in the buffer, a node with
      children covers at least one byte, children lie inside the parent and
      follow one another without overlap, and a declarator field points at an
      existing child. */
  predicate LocallyWellFormed(n: Node, length: nat)
  {
    && n.start <= n.end <= length
    && (n.children != [] ==> n.start < n.end)
    && (forall i :: 0 <= i < |n.children| ==>
          n.start <= n.children[i].start && n.children[i].end <= n.end)
    && (forall i :: 0 <= i < |n.children| - 1 ==> n.children[i].end <= n.children[i + 1].start)
    && (n.declarator.Some? ==> n.declarator.value < |n.children|)
  }

  /** A tree the parser could have produced over `source`. */
  predicate WellFormed(n: Node, source: string)
  {
    && LocallyWellFormed(n, |source|)
    && forall c :: c in n.children ==> WellFormed(c, source)
  }

  predicate ForestWellFormed(cs: seq<Node>, source: string)
  {
    forall c :: c in cs ==> WellFormed(c, source)
  }

  /** A child of a well-formed node is well formed and lies inside it. */
  lemma ChildInside(n: Node, source: string, c: Node)
    requires WellFormed(n, source) && c in n.children
    ensures WellFormed(c, source)
    ensures n.start <= c.start <= c.end <= n.end <= |source|
  {
    var i :| 0 <= i < |n.children| && n.children[i] == c;
    assert n.start <= n.children[i].start;
  }

  lemma FoundChildInside(n: Node, source: string, c: Option<Node>)
    requires WellFormed(n, source) && (c.Some? ==> c.value in n.children)
    ensures c.Some? ==> WellFormed(c.value, source) && n.start <= c.value.start <= c.value.end <= n.end
  {
    if c.Some? {
      ChildInside(n, source, c.value);
    }
  }
}
