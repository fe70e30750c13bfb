/**
 Removing "." and ".." from a path: the output-buffer algorithm of section 5.2.4
 of RFC 3986, and the in-place two-cursor loop of `GenericUri::RemoveDotSegments`
 proved equal to it on absolute paths.
 */
module DotSegments {
  import opened Bytes

  type Text = seq<Byte>

  const ONE_DOT: Text := [DOT]
  const TWO_DOTS: Text := [DOT, DOT]

  /** The next slash at or after `i`, or the end. */
  function SegEnd(s: Text, i: nat): (e: nat)
    requires i <= |s|
    ensures i <= e <= |s| && (e < |s| ==> s[e] == SLASH) && forall k :: i <= k < e ==> s[k] != SLASH
    decreases |s| - i
  {
    if i == |s| || s[i] == SLASH then i else SegEnd(s, i + 1)
  }

  lemma SegEndUnique(s: Text, i: nat, e: nat)
    requires i <= e <= |s| && (e < |s| ==> s[e] == SLASH) && forall k :: i <= k < e ==> s[k] != SLASH
    ensures SegEnd(s, i) == e
  {
  }

  /** The position of the last slash in `s`, or its length where there is none. */
  function LastSlash(s: Text): (k: nat)
    ensures k <= |s|
    ensures k < |s| ==> s[k] == SLASH && forall j :: k < j < |s| ==> s[j] != SLASH
    ensures k == |s| ==> forall j :: 0 <= j < |s| ==> s[j] != SLASH
  {
    if s == [] then 0
    else if s[|s| - 1] == SLASH then |s| - 1
    else
      var k := LastSlash(s[..|s| - 1]);
      if k == |s| - 1 then |s| else k
  }

  /** Drop the last segment and the slash before it. */
  function RemoveLast(s: Text): (r: Text)
    ensures |r| <= |s| && r == s[..|r|]
  {
    if LastSlash(s) == |s| then [] else s[..LastSlash(s)]
  }

  // ---- Section 5.2.4 of RFC 3986 ----

  predicate StartsWith(s: Text, part: Text) {
    |part| <= |s| && s[..|part|] == part
  }

  /** The rules 2A to 2E, until the input buffer is empty. */
  function Remove(input: Text, output: Text): Text
    decreases |input|
  {
    if input == [] then output
    else if StartsWith(input, TWO_DOTS + [SLASH]) then Remove(input[3..], output)
    else if StartsWith(input, ONE_DOT + [SLASH]) then Remove(input[2..], output)
    else if StartsWith(input, [SLASH] + ONE_DOT + [SLASH]) then Remove(input[2..], output)
    else if input == [SLASH] + ONE_DOT then Remove([SLASH], output)
    else if StartsWith(input, [SLASH] + TWO_DOTS + [SLASH]) then Remove(input[3..], RemoveLast(output))
    else if input == [SLASH] + TWO_DOTS then Remove([SLASH], RemoveLast(output))
    else if input == ONE_DOT || input == TWO_DOTS then Remove([], output)
    else
      var e := SegEnd(input, if input[0] == SLASH then 1 else 0);
      Remove(input[e..], output + input[..e])
  }

  predicate IsAbsolute(s: Text) {
    s != [] && s[0] == SLASH
  }

  function Normalized(path: Text): Text {
    Remove(path, [])
  }

  // ---- The rules, by the first segment of an absolute input ----

  /** The segment after the leading slash. */
  function FirstSegment(input: Text): Text
    requires IsAbsolute(input)
  {
    input[1..SegEnd(input, 1)]
  }

  /** What follows the first segment: nothing, or an absolute path. */
  function AfterFirst(input: Text): (r: Text)
    requires IsAbsolute(input)
    ensures |r| < |input| && (r != [] ==> IsAbsolute(r))
  {
    input[SegEnd(input, 1)..]
  }

  lemma RemoveStep(input: Text, output: Text)
    requires IsAbsolute(input)
    ensures var rest := if AfterFirst(input) == [] then [SLASH] else AfterFirst(input);
            Remove(input, output) ==
            if FirstSegment(input) == ONE_DOT then Remove(rest, output)
            else if FirstSegment(input) == TWO_DOTS then Remove(rest, RemoveLast(output))
            else Remove(AfterFirst(input), output + [SLASH] + FirstSegment(input))
  {
    hide Remove;
    if FirstSegment(input) == ONE_DOT {
      OneDotStep(input, output);
    } else if FirstSegment(input) == TWO_DOTS {
      TwoDotsStep(input, output);
    } else {
      OtherStep(input, output);
    }
  }

  lemma OneDotStep(input: Text, output: Text)
    requires IsAbsolute(input) && FirstSegment(input) == ONE_DOT
    ensures Remove(input, output) == Remove(if AfterFirst(input) == [] then [SLASH] else AfterFirst(input), output)
  {
    hide RemoveLast;
    var e := SegEnd(input, 1);
    assert input[1] == FirstSegment(input)[0] && e == 2;
    if e < |input| {
      assert input[..3] == [SLASH] + ONE_DOT + [SLASH];
    } else {
      assert input == [SLASH] + ONE_DOT;
    }
  }

  lemma TwoDotsStep(input: Text, output: Text)
    requires IsAbsolute(input) && FirstSegment(input) == TWO_DOTS
    ensures Remove(input, output) == Remove(if AfterFirst(input) == [] then [SLASH] else AfterFirst(input), RemoveLast(output))
  {
    hide RemoveLast;
    var e := SegEnd(input, 1);
    assert input[1] == FirstSegment(input)[0] && input[2] == FirstSegment(input)[1] && e == 3;
    if e < |input| {
      assert input[..4] == [SLASH] + TWO_DOTS + [SLASH];
    } else {
      assert input == [SLASH] + TWO_DOTS;
    }
  }

  lemma OtherStep(input: Text, output: Text)
    requires IsAbsolute(input) && FirstSegment(input) != ONE_DOT && FirstSegment(input) != TWO_DOTS
    ensures Remove(input, output) == Remove(AfterFirst(input), output + [SLASH] + FirstSegment(input))
  {
    hide RemoveLast, StartsWith;
    var e := SegEnd(input, 1);
    OtherSegment(input);
    assert input[..e] == [SLASH] + FirstSegment(input);
    assert output + input[..e] == output + [SLASH] + FirstSegment(input);
  }

  /** A prefix that triggers a dot rule is a dot segment. */
  lemma DotsAre(input: Text, n: nat)
    requires IsAbsolute(input) && 1 <= n <= 2 && n < |input| && (forall k :: 1 <= k <= n ==> input[k] == DOT)
    requires |input| == n + 1 || input[n + 1] == SLASH
    ensures IsDots(FirstSegment(input))
  {
    SegEndUnique(input, 1, n + 1);
    assert input[1..n + 1] == if n == 1 then ONE_DOT else TWO_DOTS;
  }

  /** Only a "." or ".." segment triggers a rule other than the last. */
  lemma OtherSegment(input: Text)
    requires IsAbsolute(input) && !IsDots(FirstSegment(input))
    ensures !StartsWith(input, TWO_DOTS + [SLASH]) && !StartsWith(input, ONE_DOT + [SLASH])
    ensures !StartsWith(input, [SLASH] + ONE_DOT + [SLASH]) && input != [SLASH] + ONE_DOT
    ensures !StartsWith(input, [SLASH] + TWO_DOTS + [SLASH]) && input != [SLASH] + TWO_DOTS
    ensures input != ONE_DOT && input != TWO_DOTS
  {
    hide FirstSegment, IsDots, StartsWith;
    StartsAt(input, TWO_DOTS + [SLASH]);
    StartsAt(input, ONE_DOT + [SLASH]);
    StartsAt(input, [SLASH] + ONE_DOT + [SLASH]);
    StartsAt(input, [SLASH] + TWO_DOTS + [SLASH]);
    if StartsWith(input, [SLASH] + ONE_DOT + [SLASH]) || input == [SLASH] + ONE_DOT {
      DotsAre(input, 1);
    }
    if StartsWith(input, [SLASH] + TWO_DOTS + [SLASH]) || input == [SLASH] + TWO_DOTS {
      DotsAre(input, 2);
    }
  }

  lemma StartsAt(s: Text, part: Text)
    ensures StartsWith(s, part) ==> |part| <= |s| && forall k :: 0 <= k < |part| ==> s[k] == part[k]
  {
    if StartsWith(s, part) {
      assert forall k :: 0 <= k < |part| ==> s[..|part|][k] == s[k];
    }
  }

  // ---- Idempotence ----

  /** The segment that starts at `i`. */
  function Segment(s: Text, i: nat): (seg: Text)
    requires i <= |s|
    ensures SLASH !in seg && i + |seg| <= |s| && seg == s[i..i + |seg|]
    ensures i + |seg| < |s| ==> s[i + |seg|] == SLASH
  {
    s[i..SegEnd(s, i)]
  }

  lemma SegmentIs(s: Text, i: nat, seg: Text)
    requires i + |seg| <= |s| && s[i..i + |seg|] == seg && SLASH !in seg
    requires i + |seg| < |s| ==> s[i + |seg|] == SLASH
    ensures Segment(s, i) == seg
  {
    forall k | i <= k < i + |seg|
      ensures s[k] != SLASH
    {
      assert s[k] == seg[k - i];
    }
    SegEndUnique(s, i, i + |seg|);
  }

  /** No complete segment is "." or "..". */
  ghost predicate DotFree(s: Text) {
    forall i :: 0 <= i < |s| && s[i] == SLASH ==> !IsDots(Segment(s, i + 1))
  }

  predicate IsDots(seg: Text) {
    seg == ONE_DOT || seg == TWO_DOTS
  }

  /** Appending a segment leaves the segments before it as they were. */
  lemma AppendDotFree(s: Text, seg: Text)
    requires DotFree(s) && !IsDots(seg) && SLASH !in seg
    ensures DotFree(s + [SLASH] + seg)
  {
    hide Segment, IsDots;
    var t := s + [SLASH] + seg;
    forall i | 0 <= i < |t| && t[i] == SLASH
      ensures !IsDots(Segment(t, i + 1))
    {
      if i < |s| {
        SegmentIs(t, i + 1, Segment(s, i + 1));
      } else {
        assert i == |s|;
        SegmentIs(t, i + 1, seg);
      }
    }
  }

  /** Cutting at a slash leaves the segments before it as they were. */
  lemma CutDotFree(s: Text, k: nat)
    requires DotFree(s) && k < |s| && s[k] == SLASH
    ensures DotFree(s[..k])
  {
    hide Segment, IsDots;
    var t := s[..k];
    forall i | 0 <= i < |t| && t[i] == SLASH
      ensures !IsDots(Segment(t, i + 1))
    {
      var seg := Segment(s, i + 1);
      assert i + 1 + |seg| <= k;
      SegmentIs(t, i + 1, seg);
    }
  }

  lemma {:induction false} RemoveDotFree(input: Text, output: Text)
    requires (input == [] || IsAbsolute(input)) && DotFree(output)
    ensures DotFree(Remove(input, output))
    decreases |input|
  {
    hide Remove;
    if input == [] {
      RemoveNothing(output);
    } else {
      RemoveStep(input, output);
      var seg, rest := FirstSegment(input), if AfterFirst(input) == [] then [SLASH] else AfterFirst(input);
      if seg == ONE_DOT {
        RemoveDotFree(rest, output);
      } else if seg == TWO_DOTS {
        if LastSlash(output) < |output| {
          CutDotFree(output, LastSlash(output));
        }
        RemoveDotFree(rest, RemoveLast(output));
      } else {
        AppendDotFree(output, seg);
        RemoveDotFree(AfterFirst(input), output + [SLASH] + seg);
      }
    }
  }

  lemma RemoveNothing(output: Text)
    ensures Remove([], output) == output
  {
  }

  /** So is the path after its first segment. */
  lemma RestDotFree(input: Text)
    requires IsAbsolute(input) && DotFree(input)
    ensures !IsDots(FirstSegment(input)) && DotFree(AfterFirst(input))
  {
    assert FirstSegment(input) == Segment(input, 0 + 1);
    SuffixDotFree(input, SegEnd(input, 1));
  }

  lemma SuffixDotFree(s: Text, d: nat)
    requires DotFree(s) && d <= |s|
    ensures DotFree(s[d..])
  {
    hide Segment, IsDots;
    var t := s[d..];
    forall i | 0 <= i < |t| && t[i] == SLASH
      ensures !IsDots(Segment(t, i + 1))
    {
      assert t[i] == s[d + i];
      var seg := Segment(s, d + i + 1);
      assert t[i + 1..i + 1 + |seg|] == s[d + i + 1..d + i + 1 + |seg|];
      SegmentIs(t, i + 1, seg);
    }
  }

  /** A path without dot segments is left alone. */
  lemma {:induction false} RemoveKeeps(input: Text, output: Text)
    requires (input == [] || IsAbsolute(input)) && DotFree(input)
    ensures Remove(input, output) == output + input
    decreases |input|
  {
    hide Remove, DotFree, SegEnd;
    if input == [] {
      RemoveNothing(output);
      assert output + [] == output;
    } else {
      RemoveStep(input, output);
      RestDotFree(input);
      RemoveKeeps(AfterFirst(input), output + [SLASH] + FirstSegment(input));
      assert output + input == output + [SLASH] + FirstSegment(input) + AfterFirst(input);
    }
  }

  lemma {:induction false} RemoveAbsolute(input: Text, output: Text)
    requires (input != [] && IsAbsolute(input)) || IsAbsolute(output)
    requires input == [] || IsAbsolute(input)
    requires output == [] || IsAbsolute(output)
    ensures IsAbsolute(Remove(input, output))
    decreases |input|
  {
    hide Remove;
    if input == [] {
      RemoveNothing(output);
    } else {
      RemoveStep(input, output);
      var seg, rest := FirstSegment(input), if AfterFirst(input) == [] then [SLASH] else AfterFirst(input);
      if seg == ONE_DOT {
        RemoveAbsolute(rest, output);
      } else if seg == TWO_DOTS {
        RemoveAbsolute(rest, RemoveLast(output));
      } else {
        RemoveAbsolute(AfterFirst(input), output + [SLASH] + seg);
      }
    }
  }

  /** Normalising an absolute path twice is the same as once. */
  lemma NormalizedTwice(path: Text)
    requires IsAbsolute(path)
    ensures IsAbsolute(Normalized(path)) && DotFree(Normalized(path)) && Normalized(Normalized(path)) == Normalized(path)
  {
    hide Remove;
    RemoveDotFree(path, []);
    RemoveAbsolute(path, []);
    RemoveKeeps(Normalized(path), []);
  }

  // ---- The in-place loop ----

  /** What the two cursors mean. Past the first slash, the bytes kept so far are the output buffer
      and one slash, and that slash begins the rest of the input. */
  ghost predicate Simulates(path: Text, kept: Text, pos: nat) {
    if pos == 0 then kept == []
    else if pos <= |path| then kept != [] && kept[|kept| - 1] == SLASH && IsAbsolute(kept)
                               && Remove([SLASH] + path[pos..], kept[..|kept| - 1]) == Normalized(path)
    else kept == Normalized(path)
  }

  /** What the loop keeps after backing up over the last segment. */
  function BackUp(kept: Text): (r: Text)
    ensures |r| <= |kept| && r == kept[..|r|]
  {
    if |kept| > 1 then
      var k := LastSlash(kept[..|kept| - 1]);
      if k == |kept| - 1 then [] else kept[..k + 1]
    else kept
  }

  lemma BackUpRemovesLast(kept: Text)
    requires IsAbsolute(kept) && kept[|kept| - 1] == SLASH
    ensures BackUp(kept) == RemoveLast(kept[..|kept| - 1]) + [SLASH] && IsAbsolute(BackUp(kept))
  {
    var out := kept[..|kept| - 1];
    if |kept| > 1 {
      assert out[0] == SLASH;
      var k := LastSlash(out);
      assert kept[..k + 1] == out[..k] + [SLASH];
    }
  }

  /** What one turn of the loop keeps: `seg` is the segment at the cursor, and `last` says that it
      reaches the end of the path. */
  function Turn(kept: Text, seg: Text, last: bool): Text {
    if seg == TWO_DOTS then BackUp(kept)
    else if seg == ONE_DOT then kept
    else kept + seg + if last then [] else [SLASH]
  }

  lemma RemoveSlash(output: Text)
    ensures Remove([SLASH], output) == output + [SLASH]
  {
    assert SegEnd([SLASH], 1) == 1;
    assert [SLASH][1..] == [] && [SLASH][..1] == [SLASH];
  }

  /** One turn of the loop carries out one rule. */
  lemma TurnSimulates(path: Text, kept: Text, pos: nat)
    requires IsAbsolute(path) && pos < |path| && Simulates(path, kept, pos)
    ensures Simulates(path, Turn(kept, Segment(path, pos), pos + |Segment(path, pos)| == |path|), pos + |Segment(path, pos)| + 1)
  {
    hide Remove, RemoveLast, BackUp;
    var seg := Segment(path, pos);
    var next := pos + |seg| + 1;
    if pos == 0 {
      assert seg == [] by { SegmentIs(path, 0, []); }
      assert [] + seg + [SLASH] == [SLASH];
      assert [SLASH] + path[1..] == path;
    } else {
      var input, output := [SLASH] + path[pos..], kept[..|kept| - 1];
      assert kept == output + [SLASH];
      SegmentIs(input, 1, seg);
      assert FirstSegment(input) == seg == Segment(input, 1);
      assert AfterFirst(input) == path[pos + |seg|..];
      RemoveStep(input, output);
      BackUpRemovesLast(kept);
      RemoveSlash(output);
      RemoveSlash(RemoveLast(output));
      RemoveNothing(output + [SLASH] + seg);
      if next <= |path| {
        assert AfterFirst(input) == [SLASH] + path[next..];
        assert (kept + seg + [SLASH])[..|kept| + |seg|] == output + [SLASH] + seg;
      } else {
        assert AfterFirst(input) == [];
        assert kept + seg + [] == output + [SLASH] + seg;
      }
    }
  }
}
