/**
 What removing dot segments means: an absolute path is a list of segments, and "."
 and ".." are steps on a stack of them.
 */
module PathSegments {
  import opened Bytes
  import opened DotSegments

  /** A segment is a text without a slash. */
  predicate AreSegments(segs: seq<Text>) {
    forall i, k :: 0 <= i < |segs| && 0 <= k < |segs[i]| ==> segs[i][k] != 0x2F
  }

  /** Each segment behind a slash. */
  function Path(segs: seq<Text>): Text {
    if segs == [] then [] else [0x2F] + segs[0] + Path(segs[1..])
  }

  function Pop(stack: seq<Text>): seq<Text> {
    if stack == [] then [] else stack[..|stack| - 1]
  }

  /** "." stays, ".." goes up, and at the end both leave the path with a slash. */
  function Walk(stack: seq<Text>, segs: seq<Text>): seq<Text>
    decreases |segs|
  {
    if segs == [] then stack
    else
      var last := |segs| == 1;
      if segs[0] == [0x2E] then Walk(if last then stack + [[]] else stack, segs[1..])
      else if segs[0] == [0x2E, 0x2E] then Walk(if last then Pop(stack) + [[]] else Pop(stack), segs[1..])
      else Walk(stack + [segs[0]], segs[1..])
  }

  lemma {:induction false} PathConcat(a: seq<Text>, b: seq<Text>)
    ensures Path(a + b) == Path(a) + Path(b)
    decreases |a|
  {
    if a == [] {
      assert a + b == b;
    } else {
      assert (a + b)[1..] == a[1..] + b;
      PathConcat(a[1..], b);
    }
  }

  lemma PathOne(seg: Text)
    ensures Path([seg]) == [0x2F] + seg
  {
    assert [seg][1..] == [];
  }

  lemma PathFirst(segs: seq<Text>)
    requires segs != [] && AreSegments(segs)
    ensures var p := Path(segs);
            IsAbsolute(p) && FirstSegment(p) == segs[0] && AfterFirst(p) == Path(segs[1..])
    ensures (Path(segs[1..]) == [] <==> |segs| == 1) && AreSegments(segs[1..])
  {
    var p, seg, rest := Path(segs), segs[0], Path(segs[1..]);
    var e := 1 + |seg|;
    assert rest != [] ==> rest[0] == 0x2F;
    assert forall k :: 1 <= k < e ==> p[k] == seg[k - 1];
    SegEndUnique(p, 1, e);
    assert p[1..e] == seg && p[e..] == rest;
    assert forall i :: 0 <= i < |segs| - 1 ==> segs[1..][i] == segs[i + 1];
  }

  lemma PopRemovesLast(stack: seq<Text>)
    requires AreSegments(stack)
    ensures RemoveLast(Path(stack)) == Path(Pop(stack)) && AreSegments(Pop(stack))
  {
    if stack != [] {
      var n := |stack| - 1;
      var rest, seg, p := Path(stack[..n]), stack[n], Path(stack);
      assert stack == stack[..n] + [seg];
      PathConcat(stack[..n], [seg]);
      PathOne(seg);
      assert p == rest + ([0x2F] + seg);
      assert p[|rest|] == 0x2F;
      forall j | |rest| < j < |p|
        ensures p[j] != 0x2F
      {
        assert p[j] == stack[n][j - |rest| - 1];
      }
      assert LastSlash(p) == |rest|;
      assert p[..|rest|] == rest;
    } else {
      assert Path(stack) == [];
    }
  }

  lemma Pushed(stack: seq<Text>, seg: Text)
    requires AreSegments(stack) && AreSegments([seg])
    ensures AreSegments(stack + [seg]) && Path(stack + [seg]) == Path(stack) + [0x2F] + seg
  {
    PathConcat(stack, [seg]);
    PathOne(seg);
    assert seg == [seg][0];
  }

  /** The algorithm of section 5.2.4 of RFC 3986, with its buffers read as segments, is that walk. */
  lemma {:induction false} RemoveWalks(segs: seq<Text>, stack: seq<Text>)
    requires AreSegments(segs) && AreSegments(stack)
    ensures Remove(Path(segs), Path(stack)) == Path(Walk(stack, segs))
    decreases |segs|
  {
    hide Remove, RemoveLast, FirstSegment, AfterFirst, Path, AreSegments, Pop;
    if segs == [] {
      NoPath();
      RemoveNothing(Path(stack));
    } else {
      var input, output, last := Path(segs), Path(stack), |segs| == 1;
      PathFirst(segs);
      RemoveStep(input, output);
      PopRemovesLast(stack);
      FirstIsSegment(segs);
      NoPath();
      if segs[0] == [0x2E] {
        Backwards(segs, stack, last);
      } else if segs[0] == [0x2E, 0x2E] {
        Backwards(segs, Pop(stack), last);
      } else {
        Pushed(stack, segs[0]);
        RemoveWalks(segs[1..], stack + [segs[0]]);
      }
    }
  }

  lemma NoPath()
    ensures Path([]) == [] && AreSegments([[]])
  {
  }

  lemma FirstIsSegment(segs: seq<Text>)
    requires segs != [] && AreSegments(segs)
    ensures AreSegments([segs[0]])
  {
  }

  /** Behind a dot segment: on with the rest, or a last slash. */
  lemma {:induction false} Backwards(segs: seq<Text>, stack: seq<Text>, last: bool)
    requires segs != [] && AreSegments(segs) && AreSegments(stack) && last == (|segs| == 1)
    ensures last ==> Remove([0x2F], Path(stack)) == Path(Walk(stack + [[]], segs[1..]))
    ensures !last ==> Remove(Path(segs[1..]), Path(stack)) == Path(Walk(stack, segs[1..]))
    decreases |segs|, 0
  {
    hide Remove, Path, AreSegments;
    PathFirst(segs);
    NoPath();
    if last {
      RemoveSlash(Path(stack));
      Pushed(stack, []);
      assert Path(stack) + [0x2F] + [] == Path(stack) + [0x2F];
    } else {
      RemoveWalks(segs[1..], stack);
    }
  }

  /** Every absolute path is the path of its segments. */
  lemma {:induction false} Segments(path: Text) returns (segs: seq<Text>)
    requires IsAbsolute(path)
    ensures segs != [] && AreSegments(segs) && Path(segs) == path
    decreases |path|
  {
    var e := SegEnd(path, 1);
    segs := [path[1..e]];
    PathOne(path[1..e]);
    if e < |path| {
      var rest := Segments(path[e..]);
      segs := segs + rest;
      assert segs[1..] == rest;
    }
    assert path == [0x2F] + path[1..e] + path[e..];
  }

  /** The normal form of a path is the path of where its segments lead. */
  lemma NormalizedWalks(segs: seq<Text>)
    requires AreSegments(segs)
    ensures Normalized(Path(segs)) == Path(Walk([], segs))
  {
    NoPath();
    RemoveWalks(segs, []);
  }
}
