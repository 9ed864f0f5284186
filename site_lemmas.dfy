/**
 * What the collection walk guarantees: where directives can land, where
 * each one comes from, what each rule of the chain does to the walk, and why
 * a second run over instrumented code adds nothing.
 */
module SiteLemmas {
  import opened SyntaxTree
  import opened TreeQueries
  import opened FunctionSites

  /** Every directive collected at a node points inside that node's range. */
  lemma {:induction false} SiteOffsetsInside(n: Node, source: string)
    requires WellFormed(n, source)
    decreases TreeSize(n), 0
    ensures forall ins :: ins in CollectSite(n, source) ==> n.start <= ins.offset <= n.end
  {
    var v := Classify(n, source);
    if Descends(v) && |n.children| > 0 {
      NamedChildrenSmaller(n);
      forall c | c in NamedChildren(n)
        ensures n.start <= c.start && c.end <= n.end
      {
        ChildInside(n, source, c);
      }
      ForestOffsetsInside(NamedChildren(n), source, n.start, n.end);
    }
  }

  lemma {:induction false} ForestOffsetsInside(cs: seq<Node>, source: string, lo: nat, hi: nat)
    requires ForestWellFormed(cs, source)
    requires forall c :: c in cs ==> lo <= c.start && c.end <= hi
    decreases ForestSize(cs), 1
    ensures forall ins :: ins in CollectForest(cs, source) ==> lo <= ins.offset <= hi
  {
    if cs != [] {
      SiteOffsetsInside(cs[0], source);
      ForestOffsetsInside(cs[1..], source, lo, hi);
    }
  }

  /** Offset validity: for a well-formed tree over `source`, every collected
      offset is a position of the original buffer. */
  lemma CollectedOffsetsInSource(root: Node, source: string)
    requires WellFormed(root, source)
    ensures forall ins :: ins in CollectSite(root, source) ==> ins.offset <= |source|
  {
    SiteOffsetsInside(root, source);
  }

  /** Every collected directive is the directive of some accepted
      definition found in the named pre-order of the tree. */
  lemma {:induction false} SiteProvenance(n: Node, source: string)
    requires WellFormed(n, source)
    decreases TreeSize(n), 0
    ensures forall ins :: ins in CollectSite(n, source) ==>
              exists m :: m in NamedPreorder(n) && WellFormed(m, source) && Classify(m, source) == Accepted(ins)
  {
    var v := Classify(n, source);
    forall ins | ins in CollectSite(n, source)
      ensures exists m :: m in NamedPreorder(n) && WellFormed(m, source) && Classify(m, source) == Accepted(ins)
    {
      if ins in Emitted(v) {
        assert n in NamedPreorder(n);
      } else {
        NamedChildrenSmaller(n);
        assert Descends(v) && |n.children| > 0;
        assert ins in CollectForest(NamedChildren(n), source);
        ForestProvenance(NamedChildren(n), source);
        var m :| m in NamedPreorderForest(NamedChildren(n)) && WellFormed(m, source) && Classify(m, source) == Accepted(ins);
        assert m in NamedPreorder(n);
      }
    }
  }

  lemma {:induction false} ForestProvenance(cs: seq<Node>, source: string)
    requires ForestWellFormed(cs, source)
    decreases ForestSize(cs), 1
    ensures forall ins :: ins in CollectForest(cs, source) ==>
              exists m :: m in NamedPreorderForest(cs) && WellFormed(m, source) && Classify(m, source) == Accepted(ins)
  {
    if cs != [] {
      SiteProvenance(cs[0], source);
      ForestProvenance(cs[1..], source);
      forall ins | ins in CollectForest(cs, source)
        ensures exists m :: m in NamedPreorderForest(cs) && WellFormed(m, source) && Classify(m, source) == Accepted(ins)
      {
        assert CollectForest(cs, source) == CollectSite(cs[0], source) + CollectForest(cs[1..], source);
        assert NamedPreorderForest(cs) == NamedPreorder(cs[0]) + NamedPreorderForest(cs[1..]);
        if ins in CollectSite(cs[0], source) {
          var m :| m in NamedPreorder(cs[0]) && WellFormed(m, source) && Classify(m, source) == Accepted(ins);
          assert m in NamedPreorderForest(cs);
        } else {
          assert ins in CollectForest(cs[1..], source);
          var m :| m in NamedPreorderForest(cs[1..]) && WellFormed(m, source) && Classify(m, source) == Accepted(ins);
          assert m in NamedPreorderForest(cs);
        }
      }
    }
  }

  /** An accepted definition collects its own directive, then what its
      named children collect. */
  lemma AcceptedCollects(n: Node, source: string)
    requires WellFormed(n, source) && Classify(n, source).Accepted?
    ensures CollectSite(n, source) == [Classify(n, source).insertion] + CollectForest(NamedChildren(n), source)
  {
    var v := Classify(n, source);
    CollectUnfold(n, source, v);
    assert Emitted(v) == [v.insertion];
  }

  /** CollectSite in terms of a given outcome. */
  lemma CollectUnfold(n: Node, source: string, v: Verdict)
    requires WellFormed(n, source) && v == Classify(n, source)
    ensures ForestWellFormed(NamedChildren(n), source)
    ensures CollectSite(n, source)
            == Emitted(v) + (if Descends(v) && |n.children| > 0 then CollectForest(NamedChildren(n), source) else [])
  {
  }

  /** Rule 1: a definition whose first named type qualifier reads
      `constexpr` is rejected, and nothing inside it is visited. */
  lemma ConstexprDefinitionSkipped(n: Node, source: string)
    requires WellFormed(n, source) && n.kind == "function_definition"
    requires IsConstexpr(n, source)
    ensures Classify(n, source) == Rejected(ConstexprCannotTrace)
    ensures CollectSite(n, source) == []
  {
    var v := Classify(n, source);
    assert v == Rejected(ConstexprCannotTrace);
    CollectUnfold(n, source, v);
  }

  /** Rules 2 to 4: no function declarator among the named children, no
      identifier, field identifier or qualified identifier among the
      declarator's named children, or no parameter list there. The
      definition gets no directive, but the walk still collects what its
      named children hold. */
  lemma DeclaratorRejectionsDescend(n: Node, source: string)
    requires WellFormed(n, source) && n.kind == "function_definition"
    requires !IsConstexpr(n, source)
    requires var d := FindNodeInFirstChildLevelByType(n, "function_declarator");
             || d.None?
             || !HasNameChild(d.value)
             || FindNodeInFirstChildLevelByType(d.value, "parameter_list").None?
    ensures Classify(n, source).Rejected?
    ensures CollectSite(n, source) == CollectForest(NamedChildren(n), source)
  {
    var v := Classify(n, source);
    assert v.Rejected? && Descends(v) by {
      match FindNodeInFirstChildLevelByType(n, "function_declarator")
      case None =>
      case Some(d) =>
        ChildInside(n, source, d);
        assert v == ClassifyDeclared(n, d, source);
    }
    CollectUnfold(n, source, v);
    if n.children == [] {
      assert NamedChildren(n) == [];
    }
  }

  /** The checks that pass before the body is examined. */
  predicate DeclaratorAccepted(n: Node, source: string, declarator: Node)
    requires WellFormed(n, source)
  {
    && n.kind == "function_definition"
    && !IsConstexpr(n, source)
    && FindNodeInFirstChildLevelByType(n, "function_declarator") == Some(declarator)
    && HasNameChild(declarator)
    && FindNodeInFirstChildLevelByType(declarator, "parameter_list").Some?
  }

  /** Once the declarator checks pass, the outcome is decided by the
      remaining rules alone. */
  lemma ClassifyPastDeclarator(n: Node, source: string, declarator: Node)
    requires WellFormed(n, source) && DeclaratorAccepted(n, source, declarator)
    ensures WellFormed(declarator, source)
    ensures Classify(n, source) == ClassifyDeclared(n, declarator, source)
  {
    ChildInside(n, source, declarator);
  }

  /** Rule 5: without a compound statement among all children the
      definition is rejected and nothing inside it is visited. */
  lemma MissingBodySkipped(n: Node, source: string, declarator: Node)
    requires WellFormed(n, source) && DeclaratorAccepted(n, source, declarator)
    requires ChildByNodeType(n, "compound_statement").None?
    ensures Classify(n, source) == Rejected(NoCompoundStatement)
    ensures CollectSite(n, source) == []
  {
    ClassifyPastDeclarator(n, source, declarator);
    DeclaredWithoutBody(n, declarator, source);
    var v := Rejected(NoCompoundStatement);
    assert !Descends(v) && Emitted(v) == [];
    CollectUnfold(n, source, v);
  }

  lemma DeclaredWithoutBody(n: Node, declarator: Node, source: string)
    requires WellFormed(n, source) && WellFormed(declarator, source)
    requires HasNameChild(declarator)
    requires FindNodeInFirstChildLevelByType(declarator, "parameter_list").Some?
    requires ChildByNodeType(n, "compound_statement").None?
    ensures ClassifyDeclared(n, declarator, source) == Rejected(NoCompoundStatement)
  {
  }

  /** Rule 6: a body with at most one child gets no directive; the walk
      still descends into the definition. */
  lemma ShortBodyDescends(n: Node, source: string, declarator: Node, body: Node)
    requires WellFormed(n, source) && DeclaratorAccepted(n, source, declarator)
    requires ChildByNodeType(n, "compound_statement") == Some(body)
    requires |body.children| <= 1
    ensures Classify(n, source) == EmptyBody
    ensures CollectSite(n, source) == CollectForest(NamedChildren(n), source)
  {
    ClassifyPastDeclarator(n, source, declarator);
    DeclaredReachesBody(n, declarator, body, source);
    assert ClassifyBody(declarator, body, source) == EmptyBody;
    CollectUnfold(n, source, EmptyBody);
  }

  /** With the declarator checks passed and a body found, the outcome is
      decided by the rules that look inside the body. */
  lemma DeclaredReachesBody(n: Node, declarator: Node, body: Node, source: string)
    requires WellFormed(n, source) && WellFormed(declarator, source)
    requires HasNameChild(declarator)
    requires FindNodeInFirstChildLevelByType(declarator, "parameter_list").Some?
    requires ChildByNodeType(n, "compound_statement") == Some(body)
    ensures WellFormed(body, source)
    ensures ClassifyDeclared(n, declarator, source) == ClassifyBody(declarator, body, source)
  {
    ChildInside(n, source, body);
  }

  /** The body rules that stop the walk at the definition. */
  lemma BodyRejectionsStop(declarator: Node, body: Node, source: string)
    requires WellFormed(declarator, source) && WellFormed(body, source)
    requires |body.children| > 1
    requires var name := DeclaratorFieldText(declarator, source);
             || name.None?
             || '\n' in name.value
             || Contains(FirstStatementText(body, source), Marker)
    ensures !ClassifyBody(declarator, body, source).Accepted?
    ensures !Descends(ClassifyBody(declarator, body, source))
  {
  }

  /** Rules 7 and 8: a missing `declarator` field, a name spanning several
      lines, or a first statement that already mentions the tracing macro:
      no directive, and nothing inside the definition is visited. */
  lemma NameAndMarkerRejectionsSkip(n: Node, source: string, declarator: Node, body: Node)
    requires WellFormed(n, source) && DeclaratorAccepted(n, source, declarator)
    requires ChildByNodeType(n, "compound_statement") == Some(body)
    requires |body.children| > 1
    requires WellFormed(declarator, source) && WellFormed(body, source)
    requires var name := DeclaratorFieldText(declarator, source);
             || name.None?
             || '\n' in name.value
             || Contains(FirstStatementText(body, source), Marker)
    ensures !Classify(n, source).Accepted? && !Descends(Classify(n, source))
    ensures CollectSite(n, source) == []
  {
    ClassifyPastDeclarator(n, source, declarator);
    DeclaredReachesBody(n, declarator, body, source);
    BodyRejectionsStop(declarator, body, source);
    CollectUnfold(n, source, Classify(n, source));
  }

  /** Rule 9, acceptance: the directive goes in at the start of the body's
      second child (the first statement after the opening brace), and its
      text is the tracing call naming the function, followed by the bytes
      that separate the opening brace from that statement. The walk then
      descends into the definition. */
  lemma AcceptedDefinition(n: Node, source: string, declarator: Node, body: Node, name: string)
    requires WellFormed(n, source) && DeclaratorAccepted(n, source, declarator)
    requires ChildByNodeType(n, "compound_statement") == Some(body)
    requires |body.children| > 1
    requires WellFormed(declarator, source) && WellFormed(body, source)
    requires declarator.declarator.Some? && declarator.declarator.value < |declarator.children|
    requires var c := declarator.children[declarator.declarator.value];
             c.start <= c.end <= |source| && name == source[c.start..c.end]
    requires '\n' !in name
    requires !Contains(FirstStatementText(body, source), Marker)
    ensures var first := body.children[1];
            && Classify(n, source) == Accepted(Insertion(first.start, TraceLine(name) + BlankChars(source, body, first)))
            && CollectSite(n, source)
               == [Insertion(first.start, TraceLine(name) + BlankChars(source, body, first))]
                  + CollectForest(NamedChildren(n), source)
  {
    ClassifyPastDeclarator(n, source, declarator);
    DeclaredReachesBody(n, declarator, body, source);
    BodyAccepted(declarator, body, source, name);
    AcceptedCollects(n, source);
  }

  /** The body rules all pass: the directive is built from the name and the
      first statement's position. */
  lemma BodyAccepted(declarator: Node, body: Node, source: string, name: string)
    requires WellFormed(declarator, source) && WellFormed(body, source)
    requires |body.children| > 1
    requires DeclaratorFieldText(declarator, source) == Some(name)
    requires '\n' !in name
    requires !Contains(FirstStatementText(body, source), Marker)
    ensures var first := body.children[1];
            ClassifyBody(declarator, body, source)
            == Accepted(Insertion(first.start, TraceLine(name) + BlankChars(source, body, first)))
  {
  }

  /** With the opening brace occupying at least one byte, the copied
      whitespace is exactly the text between the brace and the first
      statement. */
  lemma BlankCharsIsGap(source: string, body: Node, first: Node)
    requires body.start < first.start <= |source|
    requires first.start < U32Modulus
    ensures BlankChars(source, body, first) == source[body.start + 1..first.start]
  {
  }

  /** When the first statement starts at the body's own start byte (a
      zero-width opening brace), the 32-bit length wraps round and the
      copied text is the whole rest of the buffer. */
  lemma BlankCharsWrapsRound(source: string, body: Node, first: Node)
    requires first.start == body.start < |source| <= U32Modulus
    ensures BlankChars(source, body, first) == source[body.start + 1..]
  {
  }

  /** The inserted statement names exactly one function: different names
      give different statements. */
  lemma TraceLineInjective(a: string, b: string)
    ensures TraceLine(a) == TraceLine(b) ==> a == b
  {
    if TraceLine(a) == TraceLine(b) {
      var t := TraceLine(a);
      assert a == t[|Marker| + 1..|t| - 2] == b;
    }
  }

  /** The inserted statement begins with the tracing macro's name, so the
      text of an accepted site carries the marker rule 8 looks for. */
  lemma AcceptedTextCarriesMarker(n: Node, source: string)
    requires WellFormed(n, source) && Classify(n, source).Accepted?
    ensures Contains(Classify(n, source).insertion.text, Marker)
  {
    assert OccursAt(Classify(n, source).insertion.text, Marker, 0);
  }

  /** Idempotence at a site: once the body's first statement mentions the
      tracing macro, the definition gets no directive, whatever else holds. */
  lemma MarkedBodyNotAccepted(n: Node, source: string, body: Node)
    requires WellFormed(n, source)
    requires ChildByNodeType(n, "compound_statement") == Some(body)
    requires |body.children| > 1
    requires WellFormed(body, source)
    requires Contains(FirstStatementText(body, source), Marker)
    ensures !Classify(n, source).Accepted?
  {
    if n.kind == "function_definition" && !IsConstexpr(n, source) {
      match FindNodeInFirstChildLevelByType(n, "function_declarator")
      case None =>
      case Some(declarator) =>
        ChildInside(n, source, declarator);
        assert Classify(n, source) == ClassifyDeclared(n, declarator, source);
        if HasNameChild(declarator) && FindNodeInFirstChildLevelByType(declarator, "parameter_list").Some? {
          DeclaredReachesBody(n, declarator, body, source);
          BodyRejectionsStop(declarator, body, source);
        }
    }
  }
}
