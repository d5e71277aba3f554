/**
 * The declaration text both definers build from a parsed method declaration (the loop of
 * `Definer.defineMethod` in src/core/definer.ts and of `defineMethod` in src/extension.ts):
 * the class name and `::` just before the name segment, and every segment whose text is
 * not discarded, each followed by one space.
 */
module Declarations {
  import opened Text
  import opened Grammar

  /** A kept segment's text and one space; nothing for a discarded one. */
  function Part(sg: Segment, discarded: seq<string>): string
  {
    if sg.text in discarded then "" else sg.text + " "
  }

  /** The parts of the segments, in their order. */
  function Spaced(segs: seq<Segment>, discarded: seq<string>): (r: string)
    ensures (forall i :: 0 <= i < |segs| ==> segs[i].text in discarded) ==> r == ""
  {
    if segs == [] then ""
    else
      var init := segs[..|segs| - 1];
      assert forall i :: 0 <= i < |init| ==> init[i] == segs[i];
      Spaced(init, discarded) + Part(segs[|segs| - 1], discarded)
  }

  /**
   * The untrimmed declaration: the parts before the name segment, the class name and `::`,
   * then the parts from the name segment on. `Class::` is written even when the name
   * segment itself is discarded, and not at all when the index is out of range.
   */
  function Decl(className: string, m: MethodDecl, discarded: seq<string>): (r: string)
    ensures r == Written(className, m, discarded, |m.segments|)
  {
    var k := m.nameSegment;
    assert m.segments[..|m.segments|] == m.segments;
    assert k < |m.segments| ==> m.segments[k..|m.segments|] == m.segments[k..];
    if k < |m.segments| then Spaced(m.segments[..k], discarded) + className + "::" + Spaced(m.segments[k..], discarded)
    else Spaced(m.segments, discarded)
  }

  /** The segments whose text is not discarded, in their order. */
  function Kept(segs: seq<Segment>, discarded: seq<string>): (r: seq<Segment>)
    ensures |r| <= |segs|
  {
    if segs == [] then []
    else
      var last := segs[|segs| - 1];
      Kept(segs[..|segs| - 1], discarded) + (if last.text in discarded then [] else [last])
  }

  /** Exactly the segments whose text is not discarded are kept. */
  lemma {:induction false} KeptMembers(segs: seq<Segment>, discarded: seq<string>)
    ensures forall sg :: sg in Kept(segs, discarded) <==> sg in segs && sg.text !in discarded
    decreases |segs|
  {
    if segs != [] {
      var init := segs[..|segs| - 1];
      KeptMembers(init, discarded);
      assert segs == init + [segs[|segs| - 1]];
    }
  }

  /** The parts are the kept segments' texts, each followed by one space. */
  lemma {:induction false} SpacedIsKept(segs: seq<Segment>, discarded: seq<string>)
    ensures Spaced(segs, discarded) == SpacedTexts(Kept(segs, discarded))
    decreases |segs|
  {
    if segs != [] {
      var init := segs[..|segs| - 1];
      var last := segs[|segs| - 1];
      SpacedIsKept(init, discarded);
      if last.text in discarded {
        assert Kept(init, discarded) + [] == Kept(init, discarded);
      } else {
        SpacedTextsAppend(Kept(init, discarded), last);
      }
    }
  }

  /** One more segment in the range adds its part at the end. */
  lemma SpacedSnoc(segs: seq<Segment>, j: nat, n: nat, discarded: seq<string>)
    requires j <= n < |segs|
    ensures Spaced(segs[j..n + 1], discarded) == Spaced(segs[j..n], discarded) + Part(segs[n], discarded)
  {
    var x := segs[j..n + 1];
    assert x[..|x| - 1] == segs[j..n];
    assert x[|x| - 1] == segs[n];
  }

  /** The loop over `index`: the declaration is written segment by segment. */
  method BuildDecl(className: string, m: MethodDecl, discarded: seq<string>) returns (decl: string)
    ensures decl == Decl(className, m, discarded)
  {
    var segs := m.segments;
    var index := 0;
    decl := "";
    while index < |segs|
      invariant index <= |segs|
      invariant decl == Written(className, m, discarded, index)
    {
      ghost var before := decl;
      if index == m.nameSegment {
        decl := decl + className + "::";
      }
      var newText := segs[index].text;
      if newText !in discarded {
        decl := decl + newText + " ";
      }
      WrittenStep(className, m, discarded, index, before, decl);
      index := index + 1;
    }
    if m.nameSegment < |segs| {
      assert segs[m.nameSegment..index] == segs[m.nameSegment..];
    } else {
      assert segs[..index] == segs;
    }
  }

  /** The text the loop has written after `n` turns. */
  function Written(className: string, m: MethodDecl, discarded: seq<string>, n: nat): string
    requires n <= |m.segments|
  {
    var k := m.nameSegment;
    if n <= k then Spaced(m.segments[..n], discarded)
    else Spaced(m.segments[..k], discarded) + className + "::" + Spaced(m.segments[k..n], discarded)
  }

  /** One turn of the loop extends `Written` to the next segment. */
  lemma WrittenStep(className: string, m: MethodDecl, discarded: seq<string>, n: nat, before: string, after: string)
    requires n < |m.segments| && before == Written(className, m, discarded, n)
    requires m.segments[n].text in discarded ==>
      after == if n == m.nameSegment then before + className + "::" else before
    requires m.segments[n].text !in discarded ==>
      after == (if n == m.nameSegment then before + className + "::" else before) + m.segments[n].text + " "
    ensures after == Written(className, m, discarded, n + 1)
  {
    var segs := m.segments;
    var k := m.nameSegment;
    var p := Part(segs[n], discarded);
    if n < k {
      assert after == before + p;
      SpacedSnoc(segs, 0, n, discarded);
      assert segs[0..n] == segs[..n] && segs[0..n + 1] == segs[..n + 1];
    } else if n == k {
      assert after == before + className + "::" + p;
      SpacedSnoc(segs, k, k, discarded);
      assert segs[k..k] == [];
      assert Spaced(segs[k..k + 1], discarded) == p;
      Assoc(before + className, "::", p);
    } else {
      assert after == before + p;
      var x := Spaced(segs[..k], discarded) + className + "::";
      assert before == x + Spaced(segs[k..n], discarded);
      SpacedSnoc(segs, k, n, discarded);
      Assoc(x, Spaced(segs[k..n], discarded), p);
    }
  }

  /** A range of segments with a kept one has parts that end with the space after it. */
  lemma {:induction false} SpacedEndsWithSpace(segs: seq<Segment>, discarded: seq<string>, i: nat)
    requires i < |segs| && segs[i].text !in discarded
    ensures Spaced(segs, discarded) != [] && Spaced(segs, discarded)[|Spaced(segs, discarded)| - 1] == ' '
    decreases |segs|
  {
    var init := segs[..|segs| - 1];
    if segs[|segs| - 1].text in discarded {
      assert i < |init| && init[i] == segs[i];
      SpacedEndsWithSpace(init, discarded, i);
      assert Spaced(segs, discarded) == Spaced(init, discarded) + "";
    }
  }

  /** With the name segment in range and kept, the declaration ends with the space after a kept segment. */
  lemma DeclEndsWithKept(className: string, m: MethodDecl, discarded: seq<string>)
    requires m.nameSegment < |m.segments| && m.segments[m.nameSegment].text !in discarded
    ensures var r := Decl(className, m, discarded); r != [] && r[|r| - 1] == ' '
  {
    var k := m.nameSegment;
    var tail := m.segments[k..];
    var x := Spaced(m.segments[..k], discarded) + className + "::";
    assert tail[0] == m.segments[k];
    SpacedEndsWithSpace(tail, discarded, 0);
    EndsWithLast(x, Spaced(tail, discarded));
  }

  lemma EndsWithLast(x: string, y: string)
    requires y != []
    ensures (x + y)[|x + y| - 1] == y[|y| - 1]
  {
  }

  /**
   * With the name segment in range, the declaration is the kept segments before it, the
   * class name and `::`, then the kept segments from it on, each followed by one space.
   */
  lemma DeclIsKept(className: string, m: MethodDecl, discarded: seq<string>)
    requires m.nameSegment < |m.segments|
    ensures Decl(className, m, discarded) ==
      SpacedTexts(Kept(m.segments[..m.nameSegment], discarded)) + className + "::" +
      SpacedTexts(Kept(m.segments[m.nameSegment..], discarded))
  {
    SpacedIsKept(m.segments[..m.nameSegment], discarded);
    SpacedIsKept(m.segments[m.nameSegment..], discarded);
  }
}
