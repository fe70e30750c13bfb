/**
 `GenericUri::Parse`, writing the seven strings into one buffer.
 */
module UriParser {
  import opened Bytes
  import opened DotSegments
  import opened Uri
  import S = PathSegments

  /** A string with its terminator. */
  function Terminated(s: Text): (r: Text)
    ensures |r| == |s| + 1
  {
    s + [NUL]
  }

  /** The five parts, one after the other. */
  function PartsLayout(p: Parts): Text {
    Terminated(p.scheme) + Terminated(p.auth) + Terminated(p.path) + Terminated(p.query) + Terminated(p.frag)
  }

  /** The whole buffer: scheme, authority, path, query, fragment, base, URI. */
  function Layout(p: Parts): Text {
    PartsLayout(p) + Terminated(Base(p)) + Terminated(Whole(p))
  }

  lemma {:induction false} RemoveNoNul(input: Text, output: Text)
    requires (input == [] || IsAbsolute(input)) && IsClean(input) && IsClean(output)
    ensures IsClean(Remove(input, output))
    decreases |input|
  {
    hide Remove;
    if input == [] {
      RemoveNothing(output);
    } else {
      RemoveStep(input, output);
      var seg, rest := FirstSegment(input), if AfterFirst(input) == [] then [SLASH] else AfterFirst(input);
      if seg == ONE_DOT {
        RemoveNoNul(rest, output);
      } else if seg == TWO_DOTS {
        RemoveNoNul(rest, RemoveLast(output));
      } else {
        RemoveNoNul(AfterFirst(input), output + [SLASH] + seg);
      }
    }
  }

  method ScanTo(s: Text, start: nat, stop: Stop) returns (e: nat)
    requires start <= |s|
    ensures e == Scan(s, start, stop)
  {
    e := start;
    while e < |s| && !Stops(stop, s[e])
      invariant start <= e <= |s| && Scan(s, start, stop) == Scan(s, e, stop)
    {
      e := e + 1;
    }
  }

  /** Write a string behind what is final. */
  method Place(a: array<Byte>, pos: nat, s: Text, ghost done: Text) returns (next: nat)
    requires pos + |s| < a.Length && IsClean(s) && a[..pos] == done
    modifies a
    ensures next == pos + |s| + 1 && a[..next] == done + Terminated(s)
  {
    hide IsClean;
    PutString(a, pos, s);
    var n := StrLen(a, pos, s);
    next := pos + n + 1;
    assert a[..pos] == done;
    assert a[..next] == a[..pos] + a[pos..pos + |s|] + [a[pos + |s|]];
  }

  /** The path is written as it is and then normalised where it stands. */
  method PlacePath(a: array<Byte>, pos: nat, s: Text, ghost done: Text) returns (next: nat)
    requires pos + |s| < a.Length && IsClean(s) && a[..pos] == done
    modifies a
    ensures next == pos + |NormalizedPath(s)| + 1 <= a.Length && |NormalizedPath(s)| <= |s|
    ensures a[..next] == done + Terminated(NormalizedPath(s))
  {
    hide Remove, IsClean;
    PutString(a, pos, s);
    assert a[..pos] == done;
    if s != [] && a[pos] == SLASH {
      assert s[0] == a[pos..pos + |s|][0];
      var n := RemoveDotSegments(a, pos, s);
      assert a[..pos] == done;
      next := pos + n + 1;
      assert a[..next] == a[..pos] + a[pos..pos + n] + [a[pos + n]];
    } else {
      assert s != [] ==> s[0] == a[pos..pos + |s|][0];
      next := pos + |s| + 1;
      assert a[..next] == a[..pos] + a[pos..pos + |s|] + [a[pos + |s|]];
    }
  }

  class GenericUri {
    var buffer: array<Byte>
    var scheme: nat
    var auth: nat
    var path: nat
    var query: nat
    var frag: nat
    var base: nat
    var uri: nat

    /** The cursors point at the strings of `p`, in order, in the buffer. */
    ghost predicate Holds(p: Parts)
      reads this, buffer
    {
      && scheme == 0 && auth == scheme + |p.scheme| + 1 && path == auth + |p.auth| + 1 && query == path + |p.path| + 1
      && frag == query + |p.query| + 1 && base == frag + |p.frag| + 1 && uri == base + |Base(p)| + 1
      && uri + |Whole(p)| + 1 <= buffer.Length
      && buffer[..uri + |Whole(p)| + 1] == Layout(p)
    }

    /** One buffer of 3 * len + 7 units holds everything. */
    constructor Parse(s: Text)
      requires IsClean(s)
      ensures fresh(buffer) && buffer.Length == 3 * |s| + 7
      ensures Holds(Normal(Split(s)))
    {
      var made, a, p, q, f, b, u := ParseAll(s);
      buffer := made;
      scheme, auth, path, query, frag, base, uri := 0, a, p, q, f, b, u;
    }
  }

  method ParseAll(s: Text) returns (buffer: array<Byte>, auth: nat, path: nat, query: nat, frag: nat, base: nat, uri: nat)
    requires IsClean(s)
    ensures fresh(buffer) && buffer.Length == 3 * |s| + 7
    ensures var p := Normal(Split(s));
            && auth == |p.scheme| + 1 && path == auth + |p.auth| + 1 && query == path + |p.path| + 1
            && frag == query + |p.query| + 1 && base == frag + |p.frag| + 1 && uri == base + |Base(p)| + 1
            && uri + |Whole(p)| + 1 <= buffer.Length && buffer[..uri + |Whole(p)| + 1] == Layout(p)
  {
    hide Split, Normal, Layout, PartsLayout, IsClean, Base, Whole;
    buffer := new Byte[3 * |s| + 7](_ => NUL);
    SevenStringsFit(s);
    NormalNoNul(s);
    auth, path, query, frag, base := FillParts(buffer, s);
    uri := SetBaseAndUri(buffer, auth, path, query, frag, base, Normal(Split(s)));
  }

  /** The five parts, each after the other. */
  method FillParts(buffer: array<Byte>, s: Text) returns (auth: nat, path: nat, query: nat, frag: nat, base: nat)
    requires IsClean(s) && buffer.Length == 3 * |s| + 7
    modifies buffer
    ensures var p := Normal(Split(s));
            && auth == |p.scheme| + 1 && path == auth + |p.auth| + 1 && query == path + |p.path| + 1
            && frag == query + |p.query| + 1 && base == frag + |p.frag| + 1 <= buffer.Length
            && buffer[..base] == PartsLayout(p)
  {
    hide Terminated, NormalizedPath, Split, Normal, IsClean;
    ghost var p := Normal(Split(s));
    var a, b, c, d := FindEnds(s);
    var last := if d < |s| && s[d] == HASH then s[d..] else [];
    SplitIs(s, a, b, c, d);
    CleanSlices(s);
    auth := Place(buffer, 0, s[..a], []);
    ghost var done := Terminated(p.scheme);
    assert [] + done == done;
    path := Place(buffer, auth, s[a..b], done);
    done := done + Terminated(p.auth);
    query := PlacePath(buffer, path, s[b..c], done);
    done := done + Terminated(p.path);
    frag := Place(buffer, query, s[c..d], done);
    done := done + Terminated(p.query);
    base := Place(buffer, frag, last, done);
  }

  lemma CleanSlices(s: Text)
    requires IsClean(s)
    ensures forall lo, hi :: 0 <= lo <= hi <= |s| ==> IsClean(s[lo..hi])
    ensures forall lo :: 0 <= lo <= |s| ==> IsClean(s[lo..]) && IsClean(s[..lo])
    ensures IsClean([])
  {
  }

  lemma SplitIs(s: Text, a: nat, b: nat, c: nat, d: nat)
    requires a == SchemeEnd(s) && b == AuthorityEnd(s, a) && c == PathEnd(s, b) && d == QueryEnd(s, c)
    ensures Normal(Split(s)) == Parts(s[..a], s[a..b], NormalizedPath(s[b..c]), s[c..d], if d < |s| && s[d] == HASH then s[d..] else [])
  {
  }

  /** Bytes that are known to be in the buffer. */
  method Read(a: array<Byte>, lo: nat, hi: nat, ghost all: Text) returns (t: Text)
    requires lo <= hi <= |all| <= a.Length && a[..|all|] == all
    ensures t == all[lo..hi]
  {
    t := a[lo..hi];
    forall k | 0 <= k < hi - lo
      ensures t[k] == all[lo..hi][k]
    {
      assert t[k] == a[lo + k] == a[..|all|][lo + k];
    }
  }

  /** The first four parts, as they stand in the buffer. */
  method BaseText(buffer: array<Byte>, auth: nat, path: nat, query: nat, frag: nat, ghost p: Parts) returns (t: Text)
    requires auth == |p.scheme| + 1 && path == auth + |p.auth| + 1 && query == path + |p.path| + 1
    requires frag == query + |p.query| + 1
    requires |PartsLayout(p)| <= buffer.Length && buffer[..|PartsLayout(p)|] == PartsLayout(p)
    ensures t == Base(p)
  {
    hide PartsLayout;
    ghost var all := PartsLayout(p);
    LayoutSlices(p);
    var scheme := Read(buffer, 0, auth - 1, all);
    var authority := Read(buffer, auth, path - 1, all);
    var route := Read(buffer, path, query - 1, all);
    var question := Read(buffer, query, frag - 1, all);
    t := scheme + authority + route + question;
  }

  /** SetBase and SetUri: copy the parts behind themselves. */
  method SetBaseAndUri(buffer: array<Byte>, auth: nat, path: nat, query: nat, frag: nat, base: nat, ghost p: Parts) returns (uri: nat)
    requires auth == |p.scheme| + 1 && path == auth + |p.auth| + 1 && query == path + |p.path| + 1
    requires frag == query + |p.query| + 1 && base == frag + |p.frag| + 1
    requires base + |Base(p)| + |Whole(p)| + 2 <= buffer.Length && IsClean(Base(p)) && IsClean(Whole(p))
    requires buffer[..base] == PartsLayout(p)
    modifies buffer
    ensures uri == base + |Base(p)| + 1
    ensures buffer[..uri + |Whole(p)| + 1] == Layout(p)
  {
    hide PartsLayout, Terminated, IsClean, Base;
    ghost var all := PartsLayout(p);
    assert |all| == base;
    var text := BaseText(buffer, auth, path, query, frag, p);
    LayoutSlices(p);
    var fragment := Read(buffer, frag, base - 1, all);
    uri := Place(buffer, base, text, all);
    all := all + Terminated(text);
    var _ := Place(buffer, uri, text + fragment, all);
  }

  /** The ends of the scheme, the authority, the path and the query. */
  method FindEnds(s: Text) returns (a: nat, b: nat, c: nat, d: nat)
    ensures a == SchemeEnd(s) && b == AuthorityEnd(s, a) && c == PathEnd(s, b) && d == QueryEnd(s, c)
  {
    hide Scan;
    a := 0;
    var colon := ScanTo(s, 0, Colon);
    if colon != |s| {
      var delim := ScanTo(s, 0, AnyDelim);
      if colon < delim {
        a := colon + 1;
      }
    }
    b := a;
    if a + 1 < |s| && s[a] == SLASH && s[a + 1] == SLASH {
      b := ScanTo(s, a + 2, AnyDelim);
    }
    c := ScanTo(s, b, QueryOrFragment);
    d := c;
    if c < |s| && s[c] == QUESTION {
      d := ScanTo(s, c + 1, Fragment);
    }
  }

  lemma NormalNoNul(s: Text)
    requires IsClean(s)
    ensures var p := Normal(Split(s)); IsClean(Base(p)) && IsClean(Whole(p))
  {
    hide Remove, SchemeEnd, AuthorityEnd, PathEnd, QueryEnd;
    var p := Split(s);
    assert IsClean(p.path) && IsClean(p.scheme) && IsClean(p.auth) && IsClean(p.query) && IsClean(p.frag);
    if IsAbsolute(p.path) {
      RemoveNoNul(p.path, []);
    }
  }

  /** Where each part stands. */
  lemma LayoutSlices(p: Parts)
    ensures var t := PartsLayout(p);
            var a := |p.scheme| + 1;
            var b := a + |p.auth| + 1;
            var c := b + |p.path| + 1;
            var d := c + |p.query| + 1;
            && |t| == d + |p.frag| + 1
            && t[0..a - 1] == p.scheme && t[a..b - 1] == p.auth && t[b..c - 1] == p.path && t[c..d - 1] == p.query
            && t[d..|t| - 1] == p.frag
  {
  }

  /** The path string in the buffer: of an absolute path where its segments lead, with no dot segment
      left; any other path as it was split off. */
  lemma PathInBuffer(uri: Text, segs: seq<Text>)
    requires S.AreSegments(segs)
    ensures var m, p := Split(uri), Normal(Split(uri));
            var start := |m.scheme| + 1 + |m.auth| + 1;
            var end := start + |p.path|;
            && end < |Layout(p)| && Layout(p)[end] == NUL
            && (segs != [] && m.path == S.Path(segs) ==>
                  Layout(p)[start..end] == S.Path(S.Walk([], segs)) && DotFree(Layout(p)[start..end]))
            && (m.path == [] || m.path[0] != 0x2F ==> Layout(p)[start..end] == m.path)
  {
    hide Split, PartsLayout, Base, Whole, Remove, S.Path, S.Walk, S.AreSegments, DotFree;
    var m, p := Split(uri), Normal(Split(uri));
    LayoutSlices(p);
    var start := |m.scheme| + 1 + |m.auth| + 1;
    var end := start + |p.path|;
    PathEndsInLayout(p);
    if segs != [] && m.path == S.Path(segs) {
      S.PathFirst(segs);
      S.NormalizedWalks(segs);
      NormalizedTwice(m.path);
    }
  }

  lemma PathEndsInLayout(p: Parts)
    ensures var start := |p.scheme| + 1 + |p.auth| + 1;
            var end := start + |p.path|;
            end < |Layout(p)| && Layout(p)[end] == NUL && Layout(p)[start..end] == p.path
  {
    hide Base, Whole;
    LayoutSlices(p);
    var t, rest := PartsLayout(p), Terminated(Base(p)) + Terminated(Whole(p));
    var start := |p.scheme| + 1 + |p.auth| + 1;
    var end := start + |p.path|;
    assert Layout(p) == t + rest;
    assert Layout(p)[start..end] == t[start..end];
    var head := Terminated(p.scheme) + Terminated(p.auth);
    assert t == head + Terminated(p.path) + (Terminated(p.query) + Terminated(p.frag));
    assert t[end] == Terminated(p.path)[|p.path|];
  }
}
