/**
 `GenericUri`: splitting a URI into scheme, authority, path, query and fragment,
 all kept with the rebuilt base and URI in one NUL-separated buffer.
 */
module Uri {
  import opened Bytes
  import opened DotSegments

  // ---- The split ----

  predicate IsGenDelim(b: Byte) {
    b == SLASH || b == QUESTION || b == HASH
  }

  /** What a scan looks for. */
  datatype Stop = Colon | AnyDelim | QueryOrFragment | Fragment

  predicate Stops(stop: Stop, b: Byte) {
    match stop
    case Colon => b == COLON
    case AnyDelim => IsGenDelim(b)
    case QueryOrFragment => b == QUESTION || b == HASH
    case Fragment => b == HASH
  }

  /** The first byte at or after `i` that stops the scan, or the end. */
  function Scan(s: Text, i: nat, stop: Stop): (e: nat)
    requires i <= |s|
    ensures i <= e <= |s| && (e < |s| ==> Stops(stop, s[e])) && forall k :: i <= k < e ==> !Stops(stop, s[k])
    decreases |s| - i
  {
    if i == |s| || Stops(stop, s[i]) then i else Scan(s, i + 1, stop)
  }

  /** Where the scheme ends: after the first colon, if no other delimiter comes before it. */
  function SchemeEnd(uri: Text): (e: nat)
    ensures e <= |uri|
  {
    var colon, delim := Scan(uri, 0, Colon), Scan(uri, 0, AnyDelim);
    if colon != |uri| && colon < delim then colon + 1 else 0
  }

  function AuthorityEnd(uri: Text, start: nat): (e: nat)
    requires start <= |uri|
    ensures start <= e <= |uri|
  {
    if start + 1 < |uri| && uri[start] == SLASH && uri[start + 1] == SLASH then Scan(uri, start + 2, AnyDelim)
    else start
  }

  function PathEnd(uri: Text, start: nat): (e: nat)
    requires start <= |uri|
    ensures start <= e <= |uri|
  {
    Scan(uri, start, QueryOrFragment)
  }

  function QueryEnd(uri: Text, start: nat): (e: nat)
    requires start <= |uri|
    ensures start <= e <= |uri|
  {
    if start < |uri| && uri[start] == QUESTION then Scan(uri, start + 1, Fragment) else start
  }

  datatype Parts = Parts(scheme: Text, auth: Text, path: Text, query: Text, frag: Text)

  /** The parts, with a scheme of length `a`. */
  function SplitFrom(uri: Text, a: nat): Parts
    requires a <= |uri|
  {
    var b := AuthorityEnd(uri, a);
    var c := PathEnd(uri, b);
    var d := QueryEnd(uri, c);
    Parts(uri[..a], uri[a..b], uri[b..c], uri[c..d], if d < |uri| && uri[d] == HASH then uri[d..] else [])
  }

  function Split(uri: Text): Parts {
    SplitFrom(uri, SchemeEnd(uri))
  }

  /** Only an absolute path is normalised. */
  function NormalizedPath(path: Text): Text {
    if IsAbsolute(path) then Normalized(path) else path
  }

  function Normal(p: Parts): Parts {
    p.(path := NormalizedPath(p.path))
  }

  function Base(p: Parts): Text {
    p.scheme + p.auth + p.path + p.query
  }

  function Whole(p: Parts): Text {
    Base(p) + p.frag
  }

  lemma Joined(s: Text, a: nat, b: nat)
    requires a <= b <= |s|
    ensures s[..a] + s[a..b] == s[..b]
  {
  }

  /** Behind the query there is nothing but a fragment. */
  lemma OnlyFragmentLeft(uri: Text, b: nat)
    requires b <= |uri|
    ensures var d := QueryEnd(uri, PathEnd(uri, b));
            (if d < |uri| && uri[d] == HASH then uri[d..] else []) == uri[d..]
  {
    hide Scan;
    var d := QueryEnd(uri, PathEnd(uri, b));
    if d < |uri| {
      assert uri[d] == HASH;
    } else {
      assert uri[d..] == [];
    }
  }

  lemma PartsFromMakeTheWhole(uri: Text, a: nat)
    requires a <= |uri|
    ensures Whole(SplitFrom(uri, a)) == uri
  {
    hide AuthorityEnd, PathEnd, QueryEnd;
    var b := AuthorityEnd(uri, a);
    var c := PathEnd(uri, b);
    var d := QueryEnd(uri, c);
    Joined(uri, a, b);
    Joined(uri, b, c);
    Joined(uri, c, d);
    Joined(uri, d, |uri|);
    OnlyFragmentLeft(uri, b);
    assert uri[d..|uri|] == uri[d..] && uri[..|uri|] == uri;
  }

  /** Nothing is lost: the five parts in order are the input. */
  lemma PartsMakeTheWhole(uri: Text)
    ensures Whole(Split(uri)) == uri
  {
    PartsFromMakeTheWhole(uri, SchemeEnd(uri));
  }

  // ---- The regular expression of appendix B of RFC 3986 ----

  predicate IsSchemeByte(b: Byte) {
    b != COLON && !IsGenDelim(b)
  }

  /** A colon behind a non-empty run of scheme bytes. */
  predicate EndsScheme(uri: Text, n: nat) {
    0 < n < |uri| && uri[n] == COLON && forall k :: 0 <= k < n ==> IsSchemeByte(uri[k])
  }

  predicate StartsAuthority(uri: Text, a: nat) {
    a + 1 < |uri| && uri[a] == SLASH && uri[a + 1] == SLASH
  }

  /** The groups that the expression matches, each taken when it can be and as long as it can be. */
  ghost predicate Matches(p: Parts, uri: Text) {
    var a := |p.scheme|;
    var b := a + |p.auth|;
    && Whole(p) == uri
    && (if a == 0 then forall n :: !EndsScheme(uri, n) else EndsScheme(uri, a - 1))
    && (if b == a then !StartsAuthority(uri, a)
        else b >= a + 2 && StartsAuthority(uri, a) && (b < |uri| ==> IsGenDelim(uri[b]))
             && forall k :: a + 2 <= k < b ==> !IsGenDelim(uri[k]))
    && (forall k :: 0 <= k < |p.path| ==> p.path[k] != QUESTION && p.path[k] != HASH)
    && (p.query != [] ==> p.query[0] == QUESTION && forall k :: 0 <= k < |p.query| ==> p.query[k] != HASH)
    && (p.frag != [] ==> p.frag[0] == HASH)
  }

  /** What the expression matches: a leading colon ends no scheme. */
  function RegexSplit(uri: Text): Parts {
    if uri != [] && uri[0] == COLON then SplitFrom(uri, 0) else Split(uri)
  }

  lemma SchemeEndEnds(uri: Text, n: nat)
    requires uri == [] || uri[0] != COLON
    ensures var e := SchemeEnd(uri);
            if e == 0 then !EndsScheme(uri, n) else EndsScheme(uri, e - 1)
    ensures EndsScheme(uri, n) ==> SchemeEnd(uri) == n + 1
  {
    hide Scan;
    var colon, delim := Scan(uri, 0, Colon), Scan(uri, 0, AnyDelim);
    assert forall k :: 0 <= k < colon ==> !Stops(Colon, uri[k]);
    assert forall k :: 0 <= k < delim ==> !Stops(AnyDelim, uri[k]);
    if EndsScheme(uri, n) {
      assert colon == n;
      assert delim > n;
    }
  }

  lemma AuthorityShape(uri: Text, a: nat)
    requires a <= |uri|
    ensures var b := AuthorityEnd(uri, a);
            if b == a then !StartsAuthority(uri, a)
            else b >= a + 2 && StartsAuthority(uri, a) && (b < |uri| ==> IsGenDelim(uri[b]))
                 && forall k :: a + 2 <= k < b ==> !IsGenDelim(uri[k])
  {
    hide Scan;
    if a + 1 < |uri| {
      assert forall k :: a + 2 <= k < Scan(uri, a + 2, AnyDelim) ==> !Stops(AnyDelim, uri[k]);
    }
  }

  lemma PathShape(uri: Text, b: nat)
    requires b <= |uri|
    ensures forall k :: b <= k < PathEnd(uri, b) ==> uri[k] != QUESTION && uri[k] != HASH
  {
    hide Scan;
    assert forall k :: b <= k < PathEnd(uri, b) ==> !Stops(QueryOrFragment, uri[k]);
  }

  lemma QueryShape(uri: Text, c: nat)
    requires c <= |uri|
    ensures var e := QueryEnd(uri, c);
            (c < e ==> uri[c] == QUESTION) && forall k :: c <= k < e ==> uri[k] != HASH
  {
    hide Scan;
    if c < |uri| {
      assert forall k :: c + 1 <= k < Scan(uri, c + 1, Fragment) ==> !Stops(Fragment, uri[k]);
    }
  }

  /** The parts with a scheme of length `a` match as soon as the scheme does. */
  lemma SplitFromMatches(uri: Text, a: nat)
    requires a <= |uri| && if a == 0 then forall n :: !EndsScheme(uri, n) else EndsScheme(uri, a - 1)
    ensures Matches(SplitFrom(uri, a), uri)
  {
    hide AuthorityEnd, PathEnd, QueryEnd, IsGenDelim, EndsScheme, StartsAuthority, Whole;
    var b := AuthorityEnd(uri, a);
    PartsFromMakeTheWhole(uri, a);
    AuthorityShape(uri, a);
    PathShape(uri, b);
    QueryShape(uri, PathEnd(uri, b));
  }

  lemma SchemesAgree(uri: Text, n: nat, m: nat)
    requires EndsScheme(uri, n) && EndsScheme(uri, m)
    ensures n == m
  {
  }

  lemma CutLast(s: Text, x: Text, y: Text, e: nat)
    requires e <= |s| && s[..e] == x + y
    ensures |x| <= e && s[..|x|] == x && s[|x|..e] == y
  {
    assert s[..|x|] == s[..e][..|x|] && s[|x|..e] == s[..e][|x|..];
  }

  /** The bytes of the parts, by their place in the whole. */
  lemma PartsInPlace(p: Parts, uri: Text)
    requires Whole(p) == uri
    ensures var a := |p.scheme|;
            var b := a + |p.auth|;
            var c := b + |p.path|;
            var d := c + |p.query|;
            d <= |uri| && p == Parts(uri[..a], uri[a..b], uri[b..c], uri[c..d], uri[d..])
  {
    var a := |p.scheme|;
    var b := a + |p.auth|;
    var c := b + |p.path|;
    var d := c + |p.query|;
    assert uri[..|uri|] == uri;
    CutLast(uri, Base(p), p.frag, |uri|);
    CutLast(uri, p.scheme + p.auth + p.path, p.query, d);
    CutLast(uri, p.scheme + p.auth, p.path, c);
    CutLast(uri, p.scheme, p.auth, b);
    assert uri[d..|uri|] == uri[d..];
  }

  /** A scan ends where the first stopping byte is. */
  lemma {:induction false} ScanEnds(s: Text, i: nat, e: nat, stop: Stop)
    requires i <= e <= |s| && (e < |s| ==> Stops(stop, s[e])) && forall k :: i <= k < e ==> !Stops(stop, s[k])
    ensures Scan(s, i, stop) == e
    decreases e - i
  {
    if i < e {
      ScanEnds(s, i + 1, e, stop);
    }
  }

  lemma MatchedAuthority(p: Parts, uri: Text)
    requires Matches(p, uri)
    ensures |p.scheme| <= |uri| && AuthorityEnd(uri, |p.scheme|) == |p.scheme| + |p.auth|
  {
    hide Scan, EndsScheme;
    PartsInPlace(p, uri);
    if p.auth != [] {
      ScanEnds(uri, |p.scheme| + 2, |p.scheme| + |p.auth|, AnyDelim);
    }
  }

  lemma MatchedPath(p: Parts, uri: Text)
    requires Matches(p, uri)
    ensures var b := |p.scheme| + |p.auth|;
            b <= |uri| && PathEnd(uri, b) == b + |p.path|
  {
    hide Scan, EndsScheme, StartsAuthority, IsGenDelim, Whole;
    PartsInPlace(p, uri);
    var b := |p.scheme| + |p.auth|;
    var c := b + |p.path|;
    forall k | b <= k < c
      ensures !Stops(QueryOrFragment, uri[k])
    {
      assert uri[k] == p.path[k - b];
    }
    if c < |uri| {
      assert uri[c] == if p.query != [] then p.query[0] else p.frag[0];
    }
    ScanEnds(uri, b, c, QueryOrFragment);
  }

  lemma MatchedQuery(p: Parts, uri: Text)
    requires Matches(p, uri)
    ensures var c := |p.scheme| + |p.auth| + |p.path|;
            c <= |uri| && QueryEnd(uri, c) == c + |p.query|
  {
    hide Scan, EndsScheme, StartsAuthority, IsGenDelim, Whole;
    PartsInPlace(p, uri);
    var c := |p.scheme| + |p.auth| + |p.path|;
    var d := c + |p.query|;
    if p.query == [] {
      assert c < |uri| ==> uri[c] == p.frag[0];
    } else {
      forall k | c + 1 <= k < d
        ensures !Stops(Fragment, uri[k])
      {
        assert uri[k] == p.query[k - c];
      }
      assert uri[c] == p.query[0];
      if d < |uri| {
        assert uri[d] == p.frag[0];
      }
      ScanEnds(uri, c + 1, d, Fragment);
    }
  }

  lemma SplitFromEnds(uri: Text, a: nat)
    requires a <= |uri|
    ensures var b := AuthorityEnd(uri, a);
            var c := PathEnd(uri, b);
            var d := QueryEnd(uri, c);
            SplitFrom(uri, a) == Parts(uri[..a], uri[a..b], uri[b..c], uri[c..d], uri[d..])
  {
    hide AuthorityEnd, PathEnd, QueryEnd;
    OnlyFragmentLeft(uri, AuthorityEnd(uri, a));
  }

  lemma MatchIsWhole(p: Parts, uri: Text)
    requires Matches(p, uri)
    ensures Whole(p) == uri
  {
  }

  /** Whatever matches has the parts that follow from its scheme. */
  lemma MatchIsSplitFrom(p: Parts, uri: Text)
    requires Matches(p, uri)
    ensures |p.scheme| <= |uri| && p == SplitFrom(uri, |p.scheme|)
  {
    hide Matches, AuthorityEnd, PathEnd, QueryEnd, Whole, SplitFrom;
    MatchIsWhole(p, uri);
    PartsInPlace(p, uri);
    MatchedAuthority(p, uri);
    MatchedPath(p, uri);
    MatchedQuery(p, uri);
    SplitFromEnds(uri, |p.scheme|);
  }

  /** The expression matches every text in exactly one way. */
  lemma RegexSplitsOneWay(p: Parts, uri: Text)
    ensures Matches(p, uri) <==> p == RegexSplit(uri)
  {
    hide SplitFrom, SchemeEnd;
    var q := RegexSplit(uri);
    assert Matches(q, uri) by {
      if uri != [] && uri[0] == COLON {
        assert forall n :: !EndsScheme(uri, n);
        SplitFromMatches(uri, 0);
      } else {
        forall n
          ensures SchemeEnd(uri) == 0 ==> !EndsScheme(uri, n)
        {
          SchemeEndEnds(uri, n);
        }
        SchemeEndEnds(uri, 0);
        SplitFromMatches(uri, SchemeEnd(uri));
      }
    }
    if Matches(p, uri) {
      MatchIsSplitFrom(p, uri);
      MatchIsSplitFrom(q, uri);
      if p.scheme != [] && q.scheme != [] {
        SchemesAgree(uri, |p.scheme| - 1, |q.scheme| - 1);
      }
    }
  }

  /** The split is that match exactly when the text does not begin with a colon: a leading colon is
      taken for a scheme with no name. */
  lemma SplitFollowsRegex(uri: Text)
    ensures Matches(Split(uri), uri) <==> uri == [] || uri[0] != COLON
    ensures uri != [] && uri[0] == COLON ==> Split(uri).scheme == [COLON] && RegexSplit(uri).scheme == []
  {
    hide Matches, AuthorityEnd, PathEnd, QueryEnd;
    RegexSplitsOneWay(Split(uri), uri);
  }

  // ---- Lengths ----

  lemma {:induction false} RemoveShortens(input: Text, output: Text)
    requires input == [] || IsAbsolute(input)
    ensures |Remove(input, output)| <= |output| + |input|
    decreases |input|
  {
    hide Remove;
    if input == [] {
      RemoveNothing(output);
    } else {
      RemoveStep(input, output);
      var seg, rest := FirstSegment(input), if AfterFirst(input) == [] then [SLASH] else AfterFirst(input);
      if seg == ONE_DOT {
        RemoveShortens(rest, output);
      } else if seg == TWO_DOTS {
        RemoveShortens(rest, RemoveLast(output));
      } else {
        RemoveShortens(AfterFirst(input), output + [SLASH] + seg);
      }
    }
  }

  /** The seven strings, each with its NUL, fit in 3 * len + 7 units. */
  lemma SevenStringsFit(uri: Text)
    ensures var p := Normal(Split(uri));
            |p.scheme| + |p.auth| + |p.path| + |p.query| + |p.frag| + |Base(p)| + |Whole(p)| + 7 <= 3 * |uri| + 7
  {
    hide Split, Remove;
    PartsMakeTheWhole(uri);
    var p := Split(uri);
    if IsAbsolute(p.path) {
      RemoveShortens(p.path, []);
    }
  }

  // ---- Strings in the buffer ----

  /** No NUL inside. */
  ghost predicate IsClean(s: Text) {
    NUL !in s
  }

  /** The NUL-terminated string at `pos` is `s`. */
  ghost predicate CString(a: array<Byte>, pos: nat, s: Text)
    reads a
  {
    pos + |s| < a.Length && a[pos..pos + |s|] == s && a[pos + |s|] == NUL && IsClean(s)
  }

  method StrLen(a: array<Byte>, pos: nat, ghost s: Text) returns (n: nat)
    requires CString(a, pos, s)
    ensures n == |s|
  {
    n := 0;
    while a[pos + n] != NUL
      invariant n <= |s|
      decreases |s| - n
    {
      assert n < |s|;
      n := n + 1;
    }
  }

  /** memcpy of `s` and a NUL after it. */
  method PutString(a: array<Byte>, pos: nat, s: Text)
    requires pos + |s| < a.Length && IsClean(s)
    modifies a
    ensures CString(a, pos, s)
    ensures forall i :: 0 <= i < a.Length && (i < pos || i > pos + |s|) ==> a[i] == old(a[i])
  {
    var k := 0;
    while k < |s|
      invariant k <= |s| && a[pos..pos + k] == s[..k]
      invariant forall i :: 0 <= i < a.Length && (i < pos || i >= pos + k) ==> a[i] == old(a[i])
    {
      a[pos + k] := s[k];
      k := k + 1;
    }
    a[pos + k] := NUL;
  }

  /** memmove towards the front. */
  method MoveDown(a: array<Byte>, dst: nat, src: nat, n: nat)
    requires dst <= src && src + n <= a.Length
    modifies a
    ensures a[dst..dst + n] == old(a[src..src + n])
    ensures forall i :: 0 <= i < a.Length && (i < dst || i >= dst + n) ==> a[i] == old(a[i])
  {
    var k := 0;
    while k < n
      invariant k <= n
      invariant a[dst..dst + k] == old(a[src..src + k])
      invariant forall i :: 0 <= i < a.Length && (i < dst || i >= dst + k) ==> a[i] == old(a[i])
    {
      a[dst + k] := a[src + k];
      k := k + 1;
    }
  }

  // ---- RemoveDotSegments ----

  /** The next segment, bounded by a slash or the end of the path. */
  method SegmentLength(a: array<Byte>, off: nat, len: nat, pos: nat, ghost path: Text) returns (n: nat)
    requires off + len <= a.Length && |path| == len && pos <= len && a[off + pos..off + len] == path[pos..]
    ensures pos + n <= len && Segment(path, pos) == a[off + pos..off + pos + n]
  {
    n := 0;
    while pos + n < len && a[off + pos + n] != SLASH
      invariant pos + n <= len && SLASH !in path[pos..pos + n]
    {
      assert a[off + pos..off + len][n] == path[pos..][n];
      n := n + 1;
    }
    if pos + n < len {
      assert a[off + pos..off + len][n] == path[pos..][n];
    }
    SegmentIs(path, pos, path[pos..pos + n]);
    assert a[off + pos..off + pos + n] == a[off + pos..off + len][..n] == path[pos..][..n] == path[pos..pos + n];
  }

  /** Back up to the next to last slash of what is kept. */
  method BackUpLength(a: array<Byte>, off: nat, n: nat) returns (r: nat)
    requires off + n <= a.Length
    ensures r == |BackUp(a[off..off + n])|
  {
    if n <= 1 {
      return n;
    }
    ghost var kept := a[off..off + n];
    ghost var out := kept[..n - 1];
    r := n - 1;
    while r > 0 && a[off + r - 1] != SLASH
      invariant r <= n - 1 && forall k :: r <= k < n - 1 ==> out[k] != SLASH
    {
      assert out[r - 1] == a[off + r - 1];
      r := r - 1;
    }
    if r > 0 {
      assert out[r - 1] == SLASH;
      assert LastSlash(out) == r - 1;
    } else {
      assert LastSlash(out) == n - 1;
    }
  }

  /** In place with two cursors: the bytes kept so far never reach past the bytes read. */
  method RemoveDotSegments(a: array<Byte>, off: nat, ghost path: Text) returns (newpos: nat)
    requires CString(a, off, path) && IsAbsolute(path)
    modifies a
    ensures newpos <= |path| && a[off..off + newpos] == Normalized(path) && a[off + newpos] == NUL
    ensures forall i :: 0 <= i < a.Length && (i < off || i > off + |path|) ==> a[i] == old(a[i])
  {
    hide Remove, Normalized, Segment, BackUp, Simulates;
    var len := StrLen(a, off, path);
    var pathpos := 0;
    newpos := 0;
    SimulationStarts(path);
    assert a[off..off] == [];
    while pathpos < len
      invariant newpos <= pathpos && newpos <= len && pathpos <= len + 1
      invariant Simulates(path, a[off..off + newpos], pathpos)
      invariant pathpos <= len ==> a[off + pathpos..off + len] == path[pathpos..]
      invariant forall i :: 0 <= i < a.Length && (i < off || i >= off + len) ==> a[i] == old(a[i])
      decreases len + 1 - pathpos
    {
      pathpos, newpos := OneTurn(a, off, len, pathpos, newpos, path);
    }
    a[off + newpos] := NUL;
    SimulationEnds(path, a[off..off + newpos], pathpos);
  }

  lemma SimulationStarts(path: Text)
    ensures Simulates(path, [], 0)
  {
  }

  lemma SimulationEnds(path: Text, kept: Text, pos: nat)
    requires IsAbsolute(path) && Simulates(path, kept, pos) && |path| <= pos
    ensures kept == Normalized(path)
  {
    hide Remove;
    if pos == |path| {
      assert path[pos..] == [] && [SLASH] + [] == [SLASH];
      RemoveSlash(kept[..|kept| - 1]);
      assert kept == kept[..|kept| - 1] + [SLASH];
    }
  }

  /** One segment of the loop. */
  method OneTurn(a: array<Byte>, off: nat, len: nat, pathpos: nat, newpos: nat, ghost path: Text)
    returns (pathpos': nat, newpos': nat)
    requires off + len < a.Length && |path| == len && IsAbsolute(path) && newpos <= pathpos < len
    requires Simulates(path, a[off..off + newpos], pathpos) && a[off + pathpos..off + len] == path[pathpos..]
    modifies a
    ensures pathpos < pathpos' <= len + 1 && newpos' <= pathpos' && newpos' <= len
    ensures Simulates(path, a[off..off + newpos'], pathpos')
    ensures pathpos' <= len ==> a[off + pathpos'..off + len] == path[pathpos'..]
    ensures forall i :: 0 <= i < a.Length && (i < off || i >= off + len) ==> a[i] == old(a[i])
  {
    hide Remove, Normalized, Segment, Simulates, Turn;
    var slashpos := SegmentLength(a, off, len, pathpos, path);
    TurnSimulates(path, a[off..off + newpos], pathpos);
    RestOfRest(a[off + pathpos..off + len], path, pathpos, slashpos + 1);
    ghost var rest := a[off + pathpos..off + len];
    pathpos' := pathpos + slashpos + 1;
    assert pathpos' <= len ==> a[off + pathpos'..off + len] == rest[slashpos + 1..];
    newpos' := TurnInPlace(a, off, len, pathpos, newpos, slashpos);
  }

  /** What one segment does to the bytes kept. */
  method TurnInPlace(a: array<Byte>, off: nat, len: nat, pathpos: nat, newpos: nat, n: nat) returns (r: nat)
    requires off + len < a.Length && newpos <= pathpos && pathpos + n <= len
    modifies a
    ensures r <= pathpos + n + 1 && r <= len
    ensures a[off..off + r] == Turn(old(a[off..off + newpos]), old(a[off + pathpos..off + pathpos + n]), pathpos + n == len)
    ensures pathpos + n < len ==> a[off + pathpos + n + 1..off + len] == old(a[off + pathpos + n + 1..off + len])
    ensures forall i :: 0 <= i < a.Length && (i < off || i >= off + len) ==> a[i] == old(a[i])
  {
    hide BackUp, Turn;
    ghost var kept, seg := a[off..off + newpos], a[off + pathpos..off + pathpos + n];
    TurnCases(kept, seg, pathpos + n == len);
    r := newpos;
    if n == 2 && a[off + pathpos] == DOT && a[off + pathpos + 1] == DOT {
      assert seg == TWO_DOTS;
      r := BackUpLength(a, off, newpos);
      ShorterSlice(a, off, newpos, r);
    } else if n == 1 && a[off + pathpos] == DOT {
      assert seg == ONE_DOT;
    } else {
      NotDots(seg, a, off + pathpos);
      r := KeepSegment(a, off, len, pathpos, newpos, n);
    }
  }

  lemma ShorterSlice(a: array<Byte>, off: nat, n: nat, r: nat)
    requires r <= n && off + n <= a.Length
    ensures a[off..off + r] == a[off..off + n][..r]
  {
  }

  lemma SlicesJoin(a: array<Byte>, i: nat, j: nat, k: nat)
    requires i <= j <= k <= a.Length
    ensures a[i..j] + a[j..k] == a[i..k]
  {
  }

  lemma TurnCases(kept: Text, seg: Text, last: bool)
    ensures seg == TWO_DOTS ==> Turn(kept, seg, last) == BackUp(kept)
    ensures seg == ONE_DOT ==> Turn(kept, seg, last) == kept
    ensures seg != TWO_DOTS && seg != ONE_DOT ==> Turn(kept, seg, last) == kept + seg + if last then [] else [SLASH]
  {
  }

  lemma RestOfRest(rest: Text, path: Text, pos: nat, n: nat)
    requires pos <= |path| && rest == path[pos..]
    ensures pos + n <= |path| ==> rest[n..] == path[pos + n..]
  {
  }

  lemma NotDots(seg: Text, a: array<Byte>, pos: nat)
    requires pos + |seg| <= a.Length && seg == a[pos..pos + |seg|]
    requires !(|seg| == 2 && a[pos] == DOT && a[pos + 1] == DOT) && !(|seg| == 1 && a[pos] == DOT)
    ensures seg != TWO_DOTS && seg != ONE_DOT
  {
    if |seg| == 2 {
      assert seg[0] == a[pos] && seg[1] == a[pos + 1];
    }
    if |seg| == 1 {
      assert seg[0] == a[pos];
    }
  }

  /** Move a segment down to what is kept, with a slash if it is not the last. */
  method KeepSegment(a: array<Byte>, off: nat, len: nat, pathpos: nat, newpos: nat, n: nat) returns (r: nat)
    requires off + len < a.Length && newpos <= pathpos && pathpos + n <= len
    modifies a
    ensures r == newpos + n + if pathpos + n < len then 1 else 0
    ensures a[off..off + r] == old(a[off..off + newpos]) + old(a[off + pathpos..off + pathpos + n]) + if pathpos + n < len then [SLASH] else []
    ensures pathpos + n < len ==> a[off + pathpos + n + 1..off + len] == old(a[off + pathpos + n + 1..off + len])
    ensures forall i :: 0 <= i < a.Length && (i < off || i >= off + len) ==> a[i] == old(a[i])
  {
    MoveSegment(a, off, pathpos, newpos, n);
    r := newpos + n;
    if pathpos + n < len {
      ghost var kept := a[off..off + r];
      a[off + r] := SLASH;
      r := r + 1;
      assert a[off..off + r] == kept + [SLASH];
    }
  }

  method MoveSegment(a: array<Byte>, off: nat, pathpos: nat, newpos: nat, n: nat)
    requires off + pathpos + n < a.Length && newpos <= pathpos
    modifies a
    ensures a[off..off + newpos + n] == old(a[off..off + newpos]) + old(a[off + pathpos..off + pathpos + n])
    ensures forall i :: 0 <= i < a.Length && (i < off + newpos || i >= off + newpos + n) ==> a[i] == old(a[i])
  {
    ghost var kept := a[off..off + newpos];
    MoveDown(a, off + newpos, off + pathpos, n);
    assert a[off..off + newpos] == kept;
    SlicesJoin(a, off, off + newpos, off + newpos + n);
  }
}
