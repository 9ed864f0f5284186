/**
 * The patch phase: the collected directives are sorted by offset, largest
 * first, and inserted one by one into the source buffer. Because every
 * insertion lands at or before all the ones already made, none of them
 * shifts a position that is still to be used, so each text ends up at its
 * offset in the ORIGINAL buffer.
 *
 * Layout describes the outcome without any shifting: the original buffer cut
 * at the offsets, with each directive's text placed in its cut.
 */
module TextPatcher {
  import opened FunctionSites

  /** Largest offset first: the order the comparator `a.first > b.first`
      produces. */
  predicate Descending(s: seq<Insertion>)
  {
    forall p, q :: 0 <= p < q < |s| ==> s[p].offset >= s[q].offset
  }

  /** Every directive points into a buffer of `length` bytes. */
  predicate OffsetsWithin(s: seq<Insertion>, length: nat)
  {
    forall k :: 0 <= k < |s| ==> s[k].offset <= length
  }

  /** No two directives share an offset. */
  predicate DistinctOffsets(s: seq<Insertion>)
  {
    forall p, q :: 0 <= p < q < |s| ==> s[p].offset != s[q].offset
  }

  /** Places `x` in a descending sequence, ahead of every element whose
      offset does not exceed its own. */
  function InsertDescending(x: Insertion, s: seq<Insertion>): (r: seq<Insertion>)
    requires Descending(s)
    ensures Descending(r)
    ensures multiset(r) == multiset(s) + multiset{x}
  {
    if s == [] || x.offset >= s[0].offset then
      [x] + s
    else
      var rest := InsertDescending(x, s[1..]);
      HeadBoundsRest(x, s, rest);
      [s[0]] + rest
  }

  /** The head of `s` bounds every element of the rest after `x`, smaller
      than the head, has been placed in it. */
  lemma HeadBoundsRest(x: Insertion, s: seq<Insertion>, rest: seq<Insertion>)
    requires Descending(s) && s != [] && x.offset < s[0].offset
    requires Descending(rest) && multiset(rest) == multiset(s[1..]) + multiset{x}
    ensures multiset(s) == multiset{s[0]} + multiset(s[1..])
    ensures Descending([s[0]] + rest)
  {
    assert s == [s[0]] + s[1..];
    forall e | e in rest ensures e.offset <= s[0].offset {
      assert e in multiset(rest);
      if e != x {
        assert e in multiset(s[1..]);
        var k :| 0 <= k < |s[1..]| && s[1..][k] == e;
        assert s[1 + k] == e;
      }
    }
    var r := [s[0]] + rest;
    forall p, q | 0 <= p < q < |r| ensures r[p].offset >= r[q].offset {
      assert r[q] == rest[q - 1];
      if p > 0 {
        assert r[p] == rest[p - 1];
      } else {
        assert rest[q - 1] in rest;
      }
    }
  }

  /** The std::sort call with the descending comparator: a permutation of
      its input, largest offset first. The library's order among equal
      offsets is unspecified; this one keeps earlier elements first. */
  function SortDescending(s: seq<Insertion>): (r: seq<Insertion>)
    ensures Descending(r)
    ensures multiset(r) == multiset(s)
  {
    if s == [] then []
    else
      assert s == [s[0]] + s[1..];
      InsertDescending(s[0], SortDescending(s[1..]))
  }

  /** One piece of the patched buffer: bytes of the original, or a
      directive's text. */
  datatype Segment = Kept(text: string) | Added(text: string)

  /** The patched form of `s[..upto]` when the directives `desc` (largest
      offset first, none beyond `upto`) are inserted: the bytes before the
      smallest offset, then in ascending order each directive's text
      followed by the original bytes up to the next offset. */
  function Layout(s: string, desc: seq<Insertion>, upto: nat): seq<Segment>
    requires upto <= |s| && Descending(desc) && OffsetsWithin(desc, upto)
    decreases |desc|
  {
    if desc == [] then [Kept(s[..upto])]
    else
      var o := desc[0].offset;
      Layout(s, desc[1..], o) + [Added(desc[0].text), Kept(s[o..upto])]
  }

  /** The buffer a sequence of segments spells. */
  function Flatten(segs: seq<Segment>): string
  {
    if segs == [] then [] else segs[0].text + Flatten(segs[1..])
  }

  /** The original bytes among the segments, in order. */
  function KeptText(segs: seq<Segment>): string
  {
    if segs == [] then []
    else (if segs[0].Kept? then segs[0].text else []) + KeptText(segs[1..])
  }

  /** The added texts among the segments, in order. */
  function AddedText(segs: seq<Segment>): string
  {
    if segs == [] then []
    else (if segs[0].Added? then segs[0].text else []) + AddedText(segs[1..])
  }

  /** The directives' texts concatenated in ascending offset order. */
  function AscendingTexts(desc: seq<Insertion>): string
  {
    if desc == [] then [] else AscendingTexts(desc[1..]) + desc[0].text
  }

  /** The number of bytes the directives add. */
  function TotalLength(s: seq<Insertion>): nat
  {
    if s == [] then 0 else |s[0].text| + TotalLength(s[1..])
  }

  /** The patched buffer the insertion loop must produce. */
  function Patched(source: string, desc: seq<Insertion>): string
    requires Descending(desc) && OffsetsWithin(desc, |source|)
  {
    Flatten(Layout(source, desc, |source|))
  }

  /** std::string::insert: `text` goes in at `offset`. */
  function InsertAt(s: string, offset: nat, text: string): (r: string)
    requires offset <= |s|
    ensures |r| == |s| + |text|
    ensures r[..offset] == s[..offset]
    ensures r[offset..offset + |text|] == text
    ensures r[offset + |text|..] == s[offset..]
  {
    assert (s[..offset] + text + s[offset..])[offset + |text|..] == s[offset..];
    s[..offset] + text + s[offset..]
  }

  /** The insertion loop of the patch phase: apply the sorted directives one
      by one to the growing buffer. */
  method ApplyInsertions(source: string, sorted: seq<Insertion>) returns (patched: string)
    requires Descending(sorted) && OffsetsWithin(sorted, |source|)
    ensures patched == Patched(source, sorted)
  {
    patched := source;
    ghost var m := |source|;
    ghost var done: string := [];
    var i := 0;
    assert sorted[0..] == sorted;
    assert source[..m] == source;
    while i < |sorted|
      invariant 0 <= i <= |sorted|
      invariant m <= |source| && OffsetsWithin(sorted[i..], m)
      invariant patched == source[..m] + done
      invariant Patched(source, sorted) == Flatten(Layout(source, sorted[i..], m)) + done
    {
      var insertion := sorted[i];
      var o := insertion.offset;
      assert o <= m by { assert sorted[i..][0] == insertion; }
      InsertionStep(source, sorted, i, m, done);
      InsertIntoPrefix(source, m, done, o, insertion.text);
      patched := InsertAt(patched, o, insertion.text);
      done := insertion.text + source[o..m] + done;
      m := o;
      i := i + 1;
    }
    assert Flatten(Layout(source, [], m)) == source[..m] by {
      assert Flatten([Kept(source[..m])]) == source[..m] + Flatten([]);
    }
  }

  /** Inserting inside the untouched prefix of the buffer. */
  lemma InsertIntoPrefix(source: string, m: nat, done: string, o: nat, text: string)
    requires o <= m <= |source|
    ensures o <= |source[..m] + done|
    ensures InsertAt(source[..m] + done, o, text) == source[..o] + (text + source[o..m] + done)
  {
    var b := source[..m] + done;
    assert b[..o] == source[..o];
    assert b[o..] == source[o..m] + done;
  }

  /** One step of the insertion loop, in terms of the layout. */
  lemma InsertionStep(source: string, sorted: seq<Insertion>, i: nat, m: nat, done: string)
    requires Descending(sorted) && OffsetsWithin(sorted, |source|) && i < |sorted|
    requires m <= |source| && OffsetsWithin(sorted[i..], m)
    requires Patched(source, sorted) == Flatten(Layout(source, sorted[i..], m)) + done
    ensures sorted[i].offset <= m
    ensures OffsetsWithin(sorted[i + 1..], sorted[i].offset)
    ensures Patched(source, sorted)
            == Flatten(Layout(source, sorted[i + 1..], sorted[i].offset))
               + (sorted[i].text + source[sorted[i].offset..m] + done)
  {
    var rest := sorted[i..];
    DescendingSuffix(sorted, i);
    LayoutStep(source, rest, m);
    assert rest[0] == sorted[i] && rest[1..] == sorted[i + 1..];
    var front := Flatten(Layout(source, sorted[i + 1..], sorted[i].offset));
    var piece := sorted[i].text + source[sorted[i].offset..m];
    assert Flatten(Layout(source, rest, m)) == front + piece;
    assert (front + piece) + done == front + (piece + done);
  }

  /** Peeling the largest offset off the layout. */
  lemma LayoutStep(s: string, desc: seq<Insertion>, upto: nat)
    requires upto <= |s| && Descending(desc) && OffsetsWithin(desc, upto) && desc != []
    ensures desc[0].offset <= upto
    ensures Descending(desc[1..]) && OffsetsWithin(desc[1..], desc[0].offset)
    ensures Flatten(Layout(s, desc, upto))
            == Flatten(Layout(s, desc[1..], desc[0].offset)) + (desc[0].text + s[desc[0].offset..upto])
  {
    LayoutTail(desc, upto);
    var o := desc[0].offset;
    var tail := [Added(desc[0].text), Kept(s[o..upto])];
    FlattenAppend(Layout(s, desc[1..], o), tail);
    assert Flatten(tail) == desc[0].text + s[o..upto] by {
      assert tail[1..] == [Kept(s[o..upto])];
      assert Flatten([Kept(s[o..upto])]) == s[o..upto] + Flatten([]);
    }
  }

  /** A suffix of a descending sequence is descending. */
  lemma DescendingSuffix(s: seq<Insertion>, i: nat)
    requires Descending(s) && i <= |s|
    ensures Descending(s[i..])
  {
    forall p, q | 0 <= p < q < |s[i..]| ensures s[i..][p].offset >= s[i..][q].offset {
      assert s[i..][p] == s[i + p] && s[i..][q] == s[i + q];
    }
  }

  lemma {:induction false} FlattenAppend(a: seq<Segment>, b: seq<Segment>)
    ensures Flatten(a + b) == Flatten(a) + Flatten(b)
  {
    if a != [] {
      assert (a + b)[0] == a[0] && (a + b)[1..] == a[1..] + b;
      FlattenAppend(a[1..], b);
    } else {
      assert a + b == b;
    }
  }

  lemma {:induction false} KeptAppend(a: seq<Segment>, b: seq<Segment>)
    ensures KeptText(a + b) == KeptText(a) + KeptText(b)
  {
    if a != [] {
      assert (a + b)[0] == a[0] && (a + b)[1..] == a[1..] + b;
      KeptAppend(a[1..], b);
    } else {
      assert a + b == b;
    }
  }

  lemma {:induction false} AddedAppend(a: seq<Segment>, b: seq<Segment>)
    ensures AddedText(a + b) == AddedText(a) + AddedText(b)
  {
    if a != [] {
      assert (a + b)[0] == a[0] && (a + b)[1..] == a[1..] + b;
      AddedAppend(a[1..], b);
    } else {
      assert a + b == b;
    }
  }

  /** The original bytes survive the patch untouched and in order. */
  lemma {:induction false} LayoutKeepsSource(s: string, desc: seq<Insertion>, upto: nat)
    requires upto <= |s| && Descending(desc) && OffsetsWithin(desc, upto)
    decreases |desc|
    ensures KeptText(Layout(s, desc, upto)) == s[..upto]
  {
    if desc == [] {
      assert KeptText([Kept(s[..upto])]) == s[..upto] + KeptText([]);
    } else {
      var o := desc[0].offset;
      LayoutTail(desc, upto);
      LayoutKeepsSource(s, desc[1..], o);
      var tail := [Added(desc[0].text), Kept(s[o..upto])];
      KeptAppend(Layout(s, desc[1..], o), tail);
      assert KeptText(tail) == s[o..upto] by {
        assert tail[1..] == [Kept(s[o..upto])];
        assert KeptText([Kept(s[o..upto])]) == s[o..upto] + KeptText([]);
      }
      assert s[..o] + s[o..upto] == s[..upto];
    }
  }

  /** The added texts appear once each, in ascending offset order. */
  lemma {:induction false} LayoutAddsTexts(s: string, desc: seq<Insertion>, upto: nat)
    requires upto <= |s| && Descending(desc) && OffsetsWithin(desc, upto)
    decreases |desc|
    ensures AddedText(Layout(s, desc, upto)) == AscendingTexts(desc)
  {
    if desc == [] {
      assert AddedText([Kept(s[..upto])]) == [] + AddedText([]);
    } else {
      var o := desc[0].offset;
      LayoutTail(desc, upto);
      LayoutAddsTexts(s, desc[1..], o);
      var tail := [Added(desc[0].text), Kept(s[o..upto])];
      AddedAppend(Layout(s, desc[1..], o), tail);
      assert AddedText(tail) == desc[0].text by {
        assert tail[1..] == [Kept(s[o..upto])];
        assert AddedText([Kept(s[o..upto])]) == [] + AddedText([]);
      }
    }
  }

  /** The rest of a descending list lies at or before its head. */
  lemma LayoutTail(desc: seq<Insertion>, upto: nat)
    requires Descending(desc) && OffsetsWithin(desc, upto) && desc != []
    ensures desc[0].offset <= upto
    ensures Descending(desc[1..]) && OffsetsWithin(desc[1..], desc[0].offset)
  {
    forall k | 0 <= k < |desc[1..]| ensures desc[1..][k].offset <= desc[0].offset {
      assert desc[1..][k] == desc[k + 1];
    }
  }

  /** Both the kept and the added bytes make up the patched buffer. */
  lemma {:induction false} LayoutLength(s: string, desc: seq<Insertion>, upto: nat)
    requires upto <= |s| && Descending(desc) && OffsetsWithin(desc, upto)
    decreases |desc|
    ensures |Flatten(Layout(s, desc, upto))| == upto + TotalLength(desc)
  {
    if desc == [] {
      assert Flatten([Kept(s[..upto])]) == s[..upto] + Flatten([]);
    } else {
      var o := desc[0].offset;
      LayoutTail(desc, upto);
      LayoutLength(s, desc[1..], o);
      var tail := [Added(desc[0].text), Kept(s[o..upto])];
      FlattenAppend(Layout(s, desc[1..], o), tail);
      assert Flatten(tail) == desc[0].text + s[o..upto] by {
        assert tail[1..] == [Kept(s[o..upto])];
        assert Flatten([Kept(s[o..upto])]) == s[o..upto] + Flatten([]);
      }
    }
  }

  /** The patched buffer is the original, with the directives' texts,
      in ascending offset order, woven in: its original bytes are the whole
      source, its added bytes are every text, and nothing else is there. */
  lemma PatchedPreservesSource(source: string, desc: seq<Insertion>)
    requires Descending(desc) && OffsetsWithin(desc, |source|)
    ensures KeptText(Layout(source, desc, |source|)) == source
    ensures AddedText(Layout(source, desc, |source|)) == AscendingTexts(desc)
    ensures |Patched(source, desc)| == |source| + TotalLength(desc)
  {
    LayoutKeepsSource(source, desc, |source|);
    assert source[..|source|] == source;
    LayoutAddsTexts(source, desc, |source|);
    LayoutLength(source, desc, |source|);
  }

  /** Removing one element takes its text's length off the total. */
  lemma {:induction false} TotalLengthRemove(s: seq<Insertion>, i: nat)
    requires i < |s|
    ensures TotalLength(s) == |s[i].text| + TotalLength(s[..i] + s[i + 1..])
  {
    var r := s[..i] + s[i + 1..];
    if i == 0 {
      assert r == s[1..];
    } else {
      var t := s[1..];
      TotalLengthRemove(t, i - 1);
      assert t[i - 1] == s[i];
      assert r[0] == s[0];
      assert r[1..] == t[..i - 1] + t[i..];
    }
  }

  /** How many bytes the patch adds does not depend on the order the
      directives were collected in. */
  lemma {:induction false} TotalLengthPermutation(a: seq<Insertion>, b: seq<Insertion>)
    requires multiset(a) == multiset(b)
    decreases |a|
    ensures TotalLength(a) == TotalLength(b)
  {
    if a == [] {
      assert |b| == |multiset(b)| == 0;
    } else {
      assert a[0] in multiset(b);
      var i :| 0 <= i < |b| && b[i] == a[0];
      var rest := b[..i] + b[i + 1..];
      RemoveAt(b, i);
      HeadRemoved(a);
      TotalLengthPermutation(a[1..], rest);
      TotalLengthRemove(b, i);
    }
  }

  lemma RemoveAt(b: seq<Insertion>, i: nat)
    requires i < |b|
    ensures multiset(b[..i] + b[i + 1..]) == multiset(b) - multiset{b[i]}
  {
    assert b == b[..i] + [b[i]] + b[i + 1..];
  }

  lemma HeadRemoved(a: seq<Insertion>)
    requires a != []
    ensures multiset(a[1..]) == multiset(a) - multiset{a[0]}
  {
    assert a == [a[0]] + a[1..];
  }

  /** With distinct offsets there is only one descending arrangement of a
      collection of directives. */
  lemma {:induction false} DescendingUnique(a: seq<Insertion>, b: seq<Insertion>)
    requires Descending(a) && Descending(b) && DistinctOffsets(a)
    requires multiset(a) == multiset(b)
    decreases |a|
    ensures a == b
  {
    if a == [] {
      assert |b| == |multiset(b)| == 0;
    } else {
      SameHead(a, b);
      HeadRemoved(a);
      HeadRemoved(b);
      DescendingSuffix(a, 1);
      DescendingSuffix(b, 1);
      DistinctSuffix(a);
      DescendingUnique(a[1..], b[1..]);
      assert a == [a[0]] + a[1..] && b == [b[0]] + b[1..];
    }
  }

  /** The largest offset heads both arrangements, and it belongs to one
      directive only. */
  lemma SameHead(a: seq<Insertion>, b: seq<Insertion>)
    requires Descending(a) && Descending(b) && DistinctOffsets(a)
    requires multiset(a) == multiset(b) && a != []
    ensures b != [] && a[0] == b[0]
  {
    assert a[0] in multiset(b);
    var j :| 0 <= j < |b| && b[j] == a[0];
    assert b[0] in multiset(a);
    var k :| 0 <= k < |a| && a[k] == b[0];
    assert a[0].offset >= a[k].offset;
    assert b[0].offset >= b[j].offset;
    assert k == 0;
  }

  lemma DistinctSuffix(a: seq<Insertion>)
    requires DistinctOffsets(a) && a != []
    ensures DistinctOffsets(a[1..])
  {
    forall p, q | 0 <= p < q < |a[1..]| ensures a[1..][p].offset != a[1..][q].offset {
      assert a[1..][p] == a[p + 1] && a[1..][q] == a[q + 1];
    }
  }

  /** What the patch phase makes of a buffer and the directives collected
      for it, in whatever order they were collected. */
  function PatchPhase(source: string, insertions: seq<Insertion>): string
    requires OffsetsWithin(insertions, |source|)
  {
    SortedWithin(insertions, |source|);
    Patched(source, SortDescending(insertions))
  }

  /** The patch phase: sort the directives, largest offset first, then
      insert them one by one. The result is longer than the source by
      exactly the added texts, and cutting those out gives the source back. */
  method PatchSource(source: string, insertions: seq<Insertion>) returns (patched: string)
    requires OffsetsWithin(insertions, |source|)
    ensures patched == PatchPhase(source, insertions)
    ensures |patched| == |source| + TotalLength(insertions)
  {
    var sorted := SortDescending(insertions);
    SortedWithin(insertions, |source|);
    patched := ApplyInsertions(source, sorted);
    PatchedPreservesSource(source, sorted);
    TotalLengthPermutation(sorted, insertions);
  }

  /** Sorting keeps every offset in range. */
  lemma SortedWithin(s: seq<Insertion>, length: nat)
    requires OffsetsWithin(s, length)
    ensures OffsetsWithin(SortDescending(s), length)
  {
    var r := SortDescending(s);
    forall k | 0 <= k < |r| ensures r[k].offset <= length {
      assert r[k] in multiset(s);
    }
  }

  /** When no two directives share an offset, the patched buffer does not
      depend on the order in which the walk collected them. */
  lemma PatchOrderIndependent(source: string, a: seq<Insertion>, b: seq<Insertion>)
    requires OffsetsWithin(a, |source|) && OffsetsWithin(b, |source|)
    requires multiset(a) == multiset(b)
    requires DistinctOffsets(a)
    ensures PatchPhase(source, a) == PatchPhase(source, b)
  {
    DistinctPermutation(a, SortDescending(a));
    DescendingUnique(SortDescending(a), SortDescending(b));
  }

  /** Distinct offsets are a property of the collection, not of its order. */
  lemma DistinctPermutation(a: seq<Insertion>, b: seq<Insertion>)
    requires multiset(a) == multiset(b) && DistinctOffsets(a)
    ensures DistinctOffsets(b)
  {
    forall p, q | 0 <= p < q < |b| ensures b[p].offset != b[q].offset {
      if b[p] == b[q] {
        var x := b[p];
        assert b == b[..q] + b[q..];
        assert x in b[..q] && x in b[q..];
        assert multiset(b)[x] == multiset(b[..q])[x] + multiset(b[q..])[x];
        TwoPositions(a, x);
      } else {
        assert b[p] in multiset(a) && b[q] in multiset(a);
        var i :| 0 <= i < |a| && a[i] == b[p];
        var j :| 0 <= j < |a| && a[j] == b[q];
        assert i != j;
      }
    }
  }

  /** A directive counted twice in a sequence sits at two positions of it. */
  lemma TwoPositions(a: seq<Insertion>, x: Insertion)
    requires multiset(a)[x] >= 2
    ensures exists i, j :: 0 <= i < j < |a| && a[i] == x && a[j] == x
  {
    assert x in multiset(a);
    var i :| 0 <= i < |a| && a[i] == x;
    assert a == a[..i] + [x] + a[i + 1..];
    assert multiset(a)[x] == multiset(a[..i])[x] + 1 + multiset(a[i + 1..])[x];
    if x in a[..i] {
      var j :| 0 <= j < i && a[..i][j] == x;
      assert a[j] == x;
    } else {
      assert x in multiset(a[i + 1..]);
      var j :| 0 <= j < |a| - i - 1 && a[i + 1..][j] == x;
      assert a[i + 1 + j] == x;
    }
  }
}
