/**
 * Finding the function definitions to instrument and collecting one
 * insertion directive per accepted definition (traverse_and_print).
 *
 * Every `function_definition` node goes through an ordered rule chain; the
 * first rule that fails decides the outcome, and the outcome decides whether
 * the walk still descends into the node's named children. Classify states
 * the chain as a function, CollectSite/CollectForest state what the whole
 * walk collects, and TraverseAndPrint is the walk itself, a sibling loop
 * with recursion into the first named child, proved to collect exactly that.
 */
module FunctionSites {
  import opened SyntaxTree
  import opened TreeQueries

  /** The name of the tracing macro; its presence in a body's first
      statement marks the function as already instrumented. */
  const Marker := "TRACE_CPUPROFILER_EVENT_SCOPE"

  /** Byte offsets and lengths are computed by the parser library as 32-bit
      unsigned values. */
  const U32Modulus := 0x1_0000_0000

  /** An insertion directive: `text` goes in at byte `offset` of the
      original, unmodified source. */
  datatype Insertion = Insertion(offset: nat, text: string)

  /** Why a function definition was rejected; the log message names it. */
  datatype Rule =
    | ConstexprCannotTrace
    | NoFunctionDeclarator
    | NoIdentifier
    | NoParameterList
    | NoCompoundStatement
    | NoFunctionName
    | MultilineFunctionName

  /** The outcome of the rule chain for one node. */
  datatype Verdict =
    | NotADefinition
    | Rejected(rule: Rule)
    | EmptyBody
    | AlreadyTraced
    | Accepted(insertion: Insertion)

  /** Whether the walk still visits the node's named children after this
      outcome: the constexpr, missing-body, name and already-traced outcomes
      jump straight to the next sibling. */
  predicate Descends(v: Verdict)
    ensures v.Accepted? ==> Descends(v)
    ensures !Descends(v) ==> Emitted(v) == []
  {
    match v
    case Rejected(rule) => rule == NoFunctionDeclarator || rule == NoIdentifier || rule == NoParameterList
    case AlreadyTraced => false
    case _ => true
  }

  predicate OccursAt(text: string, pattern: string, i: int)
  {
    0 <= i && i + |pattern| <= |text| && text[i..i + |pattern|] == pattern
  }

  /** std::string::find(pattern) != npos. */
  predicate Contains(text: string, pattern: string)
    ensures Contains(text, pattern) ==> |pattern| <= |text|
    ensures OccursAt(text, pattern, 0) ==> Contains(text, pattern)
    ensures pattern == [] ==> Contains(text, pattern)
  {
    exists i :: 0 <= i <= |text| - |pattern| && OccursAt(text, pattern, i)
  }

  /** std::string::substr(pos, count): the count is cut back to what is left
      after `pos`. */
  function Substr(s: string, pos: nat, count: nat): (r: string)
    requires pos <= |s|
    ensures |r| <= count && pos + |r| <= |s| && r == s[pos..pos + |r|]
    ensures |r| == count || pos + |r| == |s|
  {
    if pos + count <= |s| then s[pos..pos + count] else s[pos..]
  }

  /** The whitespace between a body's opening brace and its first
      statement. The length is computed in 32-bit unsigned arithmetic, so a
      first statement starting at the body's own start byte wraps round to
      the largest count, and std::string::substr then keeps the rest of the
      file. */
  function BlankChars(source: string, body: Node, first: Node): (r: string)
    requires body.start < |source|
    ensures body.start + 1 + |r| <= |source| && r == source[body.start + 1..body.start + 1 + |r|]
    ensures |r| <= (first.start - body.start - 1) % U32Modulus
    ensures (first.start - body.start - 1) % U32Modulus <= |source| - body.start - 1
            ==> |r| == (first.start - body.start - 1) % U32Modulus
  {
    Substr(source, body.start + 1, (first.start - body.start - 1) % U32Modulus)
  }

  /** The statement inserted for a function named `name`. */
  function TraceLine(name: string): (r: string)
    ensures |r| == |Marker| + |name| + 3
    ensures OccursAt(r, Marker, 0) && r[|Marker|] == '('
    ensures r[|Marker| + 1..|r| - 2] == name && r[|r| - 2..] == ");"
  {
    Marker + "(" + name + ");"
  }

  /** The declarator names the function through one of its named children. */
  predicate HasNameChild(declarator: Node)
    ensures HasNameChild(declarator) <==>
              exists c :: c in declarator.children && c.named
                          && c.kind in {"identifier", "field_identifier", "qualified_identifier"}
  {
    || FindNodeInFirstChildLevelByType(declarator, "identifier").Some?
    || FindNodeInFirstChildLevelByType(declarator, "field_identifier").Some?
    || FindNodeInFirstChildLevelByType(declarator, "qualified_identifier").Some?
  }

  /** The first named `type_qualifier` child reads exactly `constexpr`. */
  predicate IsConstexpr(n: Node, source: string)
    requires WellFormed(n, source)
    ensures IsConstexpr(n, source) <==>
              exists i :: && IsFirstOfKind(NamedChildren(n), "type_qualifier", i)
                          && var q := NamedChildren(n)[i];
                             q.start <= q.end <= |source| && source[q.start..q.end] == "constexpr"
  {
    var qualifier := FindNodeInFirstChildLevelByType(n, "type_qualifier");
    FoundChildInside(n, source, qualifier);
    CheckNodeSourceCode(source, qualifier, "constexpr")
  }

  /** The rule chain of traverse_and_print for one node, in the order the
      source applies it: first the constexpr exclusion and the search for a
      function declarator among the named children. */
  function Classify(n: Node, source: string): (v: Verdict)
    requires WellFormed(n, source)
    ensures v.Accepted? ==> n.kind == "function_definition" && !IsConstexpr(n, source)
    ensures v.Accepted? ==> OccursAt(v.insertion.text, Marker, 0)
    ensures v.Accepted? ==> n.start <= v.insertion.offset <= n.end
  {
    if n.kind != "function_definition" then NotADefinition
    else if IsConstexpr(n, source) then Rejected(ConstexprCannotTrace)
    else match FindNodeInFirstChildLevelByType(n, "function_declarator")
      case None => Rejected(NoFunctionDeclarator)
      case Some(declarator) =>
        ChildInside(n, source, declarator);
        ClassifyDeclared(n, declarator, source)
  }

  /** The rules about the declarator's own named children and the search for
      the body among all children of the definition. */
  function ClassifyDeclared(n: Node, declarator: Node, source: string): (v: Verdict)
    requires WellFormed(n, source) && WellFormed(declarator, source)
    ensures v.Accepted? ==> OccursAt(v.insertion.text, Marker, 0)
    ensures v.Accepted? ==> n.start <= v.insertion.offset <= n.end
  {
    if !HasNameChild(declarator) then Rejected(NoIdentifier)
    else if FindNodeInFirstChildLevelByType(declarator, "parameter_list").None? then Rejected(NoParameterList)
    else ClassifyCompound(n, declarator, source)
  }

  /** The search for the body among all children of the definition. */
  function ClassifyCompound(n: Node, declarator: Node, source: string): (v: Verdict)
    requires WellFormed(n, source) && WellFormed(declarator, source)
    ensures v.Accepted? ==> OccursAt(v.insertion.text, Marker, 0)
    ensures v.Accepted? ==> n.start <= v.insertion.offset <= n.end
  {
    match ChildByNodeType(n, "compound_statement")
    case None => Rejected(NoCompoundStatement)
    case Some(body) =>
      ChildInside(n, source, body);
      ClassifyBody(declarator, body, source)
  }

  /** The rules that look inside the body, once the declarator and the body
      have been found. */
  function ClassifyBody(declarator: Node, body: Node, source: string): (v: Verdict)
    requires WellFormed(declarator, source) && WellFormed(body, source)
    ensures v.Accepted? || v.EmptyBody? || v.AlreadyTraced? || v == Rejected(NoFunctionName)
            || v == Rejected(MultilineFunctionName)
    ensures v.Accepted? ==> OccursAt(v.insertion.text, Marker, 0)
    ensures v.Accepted? ==> body.start <= v.insertion.offset <= body.end
  {
    if |body.children| <= 1 then EmptyBody
    else
      var first := body.children[1];
      ChildInside(body, source, first);
      match DeclaratorFieldText(declarator, source)
      case None => Rejected(NoFunctionName)
      case Some(name) =>
        if '\n' in name then Rejected(MultilineFunctionName)
        else if Contains(FirstStatementText(body, source), Marker) then AlreadyTraced
        else
          var text := TraceLine(name) + BlankChars(source, body, first);
          assert text[..|Marker|] == Marker;
          Accepted(Insertion(first.start, text))
  }

  /** The source text of the body's second child, the first statement
      after the opening brace. */
  function FirstStatementText(body: Node, source: string): string
    requires WellFormed(body, source) && |body.children| > 1
  {
    ChildInside(body, source, body.children[1]);
    Text(source, body.children[1])
  }

  /** The source text of the child the declarator's `declarator` field
      points at: the function's name as written. */
  function DeclaratorFieldText(declarator: Node, source: string): (r: Option<string>)
    requires WellFormed(declarator, source)
    ensures r.Some? <==> declarator.declarator.Some?
    ensures r.Some? ==> && declarator.declarator.value < |declarator.children|
                        && var c := declarator.children[declarator.declarator.value];
                           c.start <= c.end <= |source| && r.value == source[c.start..c.end]
  {
    match declarator.declarator
    case None => None
    case Some(k) =>
      ChildInside(declarator, source, declarator.children[k]);
      Some(Text(source, declarator.children[k]))
  }

  /** The directives the walk collects at a node and below it. */
  function CollectSite(n: Node, source: string): (r: seq<Insertion>)
    requires WellFormed(n, source)
    ensures forall k :: 0 <= k < |r| ==> OccursAt(r[k].text, Marker, 0)
    decreases TreeSize(n), 0
  {
    var v := Classify(n, source);
    Emitted(v)
    + (if Descends(v) && |n.children| > 0 then
         NamedChildrenSmaller(n);
         CollectForest(NamedChildren(n), source)
       else [])
  }

  /** The directives the walk collects along a chain of siblings. */
  function CollectForest(cs: seq<Node>, source: string): (r: seq<Insertion>)
    requires ForestWellFormed(cs, source)
    ensures forall k :: 0 <= k < |r| ==> OccursAt(r[k].text, Marker, 0)
    decreases ForestSize(cs), 1
  {
    if cs == [] then [] else CollectSite(cs[0], source) + CollectForest(cs[1..], source)
  }

  /** The directive an outcome contributes: one for an accepted definition,
      none otherwise. */
  function Emitted(v: Verdict): seq<Insertion>
  {
    if v.Accepted? then [v.insertion] else []
  }

  /** The `function_definition` branch of traverse_and_print's loop body:
      apply the rule chain, append the directive of an accepted definition,
      and report whether the walk may still descend into the node (each
      early exit stands for one of the source's logging-and-continue
      macros). */
  method VisitDefinition(node: Node, source: string, insertions: seq<Insertion>)
    returns (result: seq<Insertion>, descend: bool)
    requires WellFormed(node, source) && node.kind == "function_definition"
    ensures result == insertions + Emitted(Classify(node, source))
    ensures descend == Descends(Classify(node, source))
  {
    var constexprNode := FindNodeInFirstChildLevelByType(node, "type_qualifier");
    FoundChildInside(node, source, constexprNode);
    if CheckNodeSourceCode(source, constexprNode, "constexpr") {
      return insertions, false;
    }
    var declarator := FindNodeInFirstChildLevelByType(node, "function_declarator");
    if declarator.None? {
      return insertions, true;
    }
    ChildInside(node, source, declarator.value);
    result, descend := VisitDeclared(node, declarator.value, source, insertions);
  }

  /** The declarator and body checks of the loop body. */
  method VisitDeclared(node: Node, declarator: Node, source: string, insertions: seq<Insertion>)
    returns (result: seq<Insertion>, descend: bool)
    requires WellFormed(node, source) && WellFormed(declarator, source)
    ensures result == insertions + Emitted(ClassifyDeclared(node, declarator, source))
    ensures descend == Descends(ClassifyDeclared(node, declarator, source))
  {
    var identifier := FindNodeInFirstChildLevelByType(declarator, "identifier");
    var fieldIdentifier := FindNodeInFirstChildLevelByType(declarator, "field_identifier");
    var qualifiedIdentifier := FindNodeInFirstChildLevelByType(declarator, "qualified_identifier");
    var parameterList := FindNodeInFirstChildLevelByType(declarator, "parameter_list");
    if identifier.None? && fieldIdentifier.None? && qualifiedIdentifier.None? {
      assert ClassifyDeclared(node, declarator, source) == Rejected(NoIdentifier);
      return insertions, true;
    }
    if parameterList.None? {
      assert ClassifyDeclared(node, declarator, source) == Rejected(NoParameterList);
      return insertions, true;
    }
    result, descend := VisitCompound(node, declarator, source, insertions);
  }

  /** The search for the body, then the checks inside it. */
  method VisitCompound(node: Node, declarator: Node, source: string, insertions: seq<Insertion>)
    returns (result: seq<Insertion>, descend: bool)
    requires WellFormed(node, source) && WellFormed(declarator, source)
    ensures result == insertions + Emitted(ClassifyCompound(node, declarator, source))
    ensures descend == Descends(ClassifyCompound(node, declarator, source))
  {
    var body := ChildByNodeType(node, "compound_statement");
    if body.None? {
      return insertions, false;
    }
    ChildInside(node, source, body.value);
    result, descend := VisitBody(declarator, body.value, source, insertions);
  }

  /** The part of the loop body that looks inside the function body. */
  method VisitBody(declarator: Node, body: Node, source: string, insertions: seq<Insertion>)
    returns (result: seq<Insertion>, descend: bool)
    requires WellFormed(declarator, source) && WellFormed(body, source)
    ensures result == insertions + Emitted(ClassifyBody(declarator, body, source))
    ensures descend == Descends(ClassifyBody(declarator, body, source))
  {
    if |body.children| > 1 {
      var first := body.children[1];
      ChildInside(body, source, first);
      var firstStart := first.start;
      var nameField := declarator.declarator;
      if nameField.None? {
        return insertions, false;
      }
      ChildInside(declarator, source, declarator.children[nameField.value]);
      var name := Text(source, declarator.children[nameField.value]);
      if '\n' in name {
        return insertions, false;
      }
      var traceLine := TraceLine(name);
      if Contains(Text(source, first), Marker) {
        return insertions, false;
      }
      var blank := BlankChars(source, body, first);
      traceLine := traceLine + blank;
      result := insertions + [Insertion(firstStart, traceLine)];
    } else {
      result := insertions;
    }
    descend := true;
  }

  /** traverse_and_print: walk `siblings` (a node followed by its next named
      siblings) and append the directive of every accepted definition to
      `insertions`, descending into a node's named children unless its rule
      outcome forbids it. */
  method TraverseAndPrint(siblings: seq<Node>, source: string, insertions: seq<Insertion>)
    returns (result: seq<Insertion>)
    requires ForestWellFormed(siblings, source)
    decreases ForestSize(siblings)
    ensures result == insertions + CollectForest(siblings, source)
  {
    result := insertions;
    var i := 0;
    assert siblings[0..] == siblings;
    while i < |siblings|
      invariant 0 <= i <= |siblings|
      invariant result + CollectForest(siblings[i..], source) == insertions + CollectForest(siblings, source)
    {
      var node := siblings[i];
      ElementSize(siblings, node);
      NamedChildrenSmaller(node);
      ghost var before := result;
      var descend := true;
      if node.kind == "function_definition" {
        result, descend := VisitDefinition(node, source, result);
      }
      ghost var visited := result;
      if descend && |node.children| > 0 {
        result := TraverseAndPrint(NamedChildren(node), source, result);
      }
      SiteStep(node, source, before, visited, descend, result);
      LoopStep(siblings, i, source, before, result);
      i := i + 1;
    }
  }

  /** One step of the sibling loop: the forest collected from index `i` is
      what the node at `i` collects followed by what the rest collects. */
  lemma ForestStep(cs: seq<Node>, source: string, i: nat)
    requires ForestWellFormed(cs, source) && i < |cs|
    ensures WellFormed(cs[i], source) && ForestWellFormed(cs[i + 1..], source)
    ensures CollectForest(cs[i..], source) == CollectSite(cs[i], source) + CollectForest(cs[i + 1..], source)
  {
    assert cs[i..][0] == cs[i] && cs[i..][1..] == cs[i + 1..];
  }

  /** What the loop body appends for one node is what CollectSite says. */
  lemma SiteStep(node: Node, source: string, before: seq<Insertion>, visited: seq<Insertion>,
                 descend: bool, result: seq<Insertion>)
    requires WellFormed(node, source)
    requires visited == before + Emitted(Classify(node, source))
    requires descend == Descends(Classify(node, source))
    requires ForestWellFormed(NamedChildren(node), source)
    requires result == if descend && |node.children| > 0
                       then visited + CollectForest(NamedChildren(node), source) else visited
    ensures result == before + CollectSite(node, source)
  {
    var v := Classify(node, source);
    if descend && |node.children| > 0 {
      assert CollectSite(node, source) == Emitted(v) + CollectForest(NamedChildren(node), source);
      assert result == (before + Emitted(v)) + CollectForest(NamedChildren(node), source);
      Assoc(before, Emitted(v), CollectForest(NamedChildren(node), source));
    } else {
      assert CollectSite(node, source) == Emitted(v) + [];
      assert result == before + Emitted(v);
      assert Emitted(v) + [] == Emitted(v);
    }
  }

  /** Appending what the node at `i` collects keeps the loop invariant. */
  lemma LoopStep(siblings: seq<Node>, i: nat, source: string, before: seq<Insertion>, result: seq<Insertion>)
    requires ForestWellFormed(siblings, source) && i < |siblings|
    requires WellFormed(siblings[i], source) && result == before + CollectSite(siblings[i], source)
    ensures result + CollectForest(siblings[i + 1..], source) == before + CollectForest(siblings[i..], source)
  {
    ForestStep(siblings, source, i);
  }

  lemma Assoc(a: seq<Insertion>, b: seq<Insertion>, c: seq<Insertion>)
    ensures (a + b) + c == a + (b + c)
  {
  }
}
