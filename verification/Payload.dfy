/**
 The text sent to a processor: the accepted body with a `requestedAt` member
 added at the end, and the amount read back out of it.
 */
module Payload {
  import opened Bytes

  const STAMP := ",\"requestedAt\":\""
  const STAMP_KEY := "\"requestedAt\""
  const AMOUNT_KEY := "\"amount\":"

  /** `create_processor_payload`: drop the closing brace and append the timestamp member. */
  function Stamped(body: string, ts: string): (p: string)
    requires body != ""
    ensures |p| == |body| + 17 + |ts|
  {
    body[..|body| - 1] + STAMP + ts + "\"}"
  }

  /** The characters of the timestamp format: digits, T, Z and punctuation. */
  predicate IsClockChar(c: char) {
    '0' <= c <= '9' || c == 'T' || c == 'Z' || c == '-' || c == ':' || c == '.'
  }

  predicate IsTimestamp(ts: string) {
    forall i :: 0 <= i < |ts| ==> IsClockChar(ts[i])
  }

  predicate IsBody(body: string) {
    body != "" && body[|body| - 1] == '}'
  }

  // ---- Searching ----

  predicate OccursAt(part: string, s: string, i: int) {
    0 <= i && i + |part| <= |s| && s[i..i + |part|] == part
  }

  function Find(part: string, s: string, start: nat): (r: Option<nat>)
    ensures r.Some? ==> start <= r.value && OccursAt(part, s, r.value) && forall i :: start <= i < r.value ==> !OccursAt(part, s, i)
    ensures r.None? ==> forall i :: start <= i ==> !OccursAt(part, s, i)
    decreases |s| - start
  {
    if start + |part| > |s| then None
    else if OccursAt(part, s, start) then Some(start)
    else Find(part, s, start + 1)
  }

  predicate IsDelimiter(c: char) {
    c == ',' || c == '}'
  }

  function FindDelimiter(s: string, start: nat): (r: Option<nat>)
    ensures r.Some? ==> start <= r.value < |s| && IsDelimiter(s[r.value])
                        && forall i :: start <= i < r.value ==> !IsDelimiter(s[i])
    ensures r.None? ==> forall i :: start <= i < |s| ==> !IsDelimiter(s[i])
    decreases |s| - start
  {
    if start >= |s| then None
    else if IsDelimiter(s[start]) then Some(start)
    else FindDelimiter(s, start + 1)
  }

  /** The text that `store_processed` hands to `stod`, if it finds any. */
  function AmountText(json: string): Option<string> {
    match Find(AMOUNT_KEY, json, 0)
    case None => None
    case Some(i) =>
      match FindDelimiter(json, i + 9)
      case None => None
      case Some(e) => Some(json[i + 9..e])
  }

  // ---- The amount ----

  predicate KeyAt(json: string, i: nat) {
    i + 9 <= |json| && json[i..i + 9] == "\"amount\":"
  }

  predicate FirstKeyAt(json: string, i: nat) {
    KeyAt(json, i) && forall j :: 0 <= j < i ==> !KeyAt(json, j)
  }

  /** In `json`, `t` stands between the first amount key, which begins at `i`, and the next comma or brace. */
  predicate IsAmount(json: string, i: nat, t: string) {
    && FirstKeyAt(json, i) && i + 9 + |t| < |json| && json[i + 9..i + 9 + |t|] == t
    && (json[i + 9 + |t|] == ',' || json[i + 9 + |t|] == '}')
    && forall k :: 0 <= k < |t| ==> t[k] != ',' && t[k] != '}'
  }

  lemma KeyFound(json: string)
    ensures var r := Find(AMOUNT_KEY, json, 0);
            && (r.Some? ==> FirstKeyAt(json, r.value))
            && (r.None? ==> forall j: nat :: !KeyAt(json, j))
  {
    hide Find;
    assert forall j: nat :: KeyAt(json, j) <==> OccursAt(AMOUNT_KEY, json, j);
  }

  /** The amount of a text is exactly what stands there. */
  lemma AmountIs(json: string, i: nat, t: string)
    requires IsAmount(json, i, t)
    ensures AmountText(json) == Some(t)
  {
    hide Find, FindDelimiter;
    KeyFound(json);
    var at := Find(AMOUNT_KEY, json, 0).value;
    assert at == i;
    var e, end := FindDelimiter(json, i + 9), i + 9 + |t|;
    assert forall k :: i + 9 <= k < end ==> json[k] == json[i + 9..end][k - (i + 9)];
    assert IsDelimiter(json[end]);
    assert e == Some(end);
  }

  /** As in a text made of something before, the key, the amount and the rest. */
  lemma AmountBetween(pre: string, t: string, rest: string)
    requires var json := pre + "\"amount\":" + t + rest; forall j :: 0 <= j < |pre| ==> !KeyAt(json, j)
    requires rest != "" && (rest[0] == ',' || rest[0] == '}') && forall k :: 0 <= k < |t| ==> t[k] != ',' && t[k] != '}'
    ensures AmountText(pre + "\"amount\":" + t + rest) == Some(t)
  {
    hide AmountText;
    var json, i := pre + "\"amount\":" + t + rest, |pre|;
    assert json[i..i + 9] == "\"amount\":" && json[i + 9..i + 9 + |t|] == t && json[i + 9 + |t|] == rest[0];
    AmountIs(json, i, t);
  }

  /** There is none exactly when the key is absent or neither a comma nor a brace follows the first one. */
  lemma NoAmount(json: string)
    ensures AmountText(json).None? <==>
            forall i: nat, e: nat :: FirstKeyAt(json, i) && i + 9 <= e < |json| ==> json[e] != ',' && json[e] != '}'
  {
    hide Find, FindDelimiter;
    KeyFound(json);
    var at := Find(AMOUNT_KEY, json, 0);
    if at.Some? {
      var end := FindDelimiter(json, at.value + 9);
      if end.Some? {
        assert FirstKeyAt(json, at.value) && at.value + 9 <= end.value < |json| && IsDelimiter(json[end.value]);
      } else {
        forall i: nat, e: nat | FirstKeyAt(json, i) && i + 9 <= e < |json|
          ensures json[e] != ',' && json[e] != '}'
        {
          assert i == at.value && !IsDelimiter(json[e]);
        }
      }
    }
  }

  // ---- The added member changes nothing else ----

  lemma StampedAt(body: string, ts: string, i: nat)
    requires body != "" && i < |Stamped(body, ts)|
    ensures var n, p := |body|, Stamped(body, ts);
            && (i < n - 1 ==> p[i] == body[i])
            && (n - 1 <= i < n + 15 ==> p[i] == STAMP[i - (n - 1)])
            && (n + 15 <= i < n + 15 + |ts| ==> p[i] == ts[i - (n + 15)])
            && (i == n + 15 + |ts| ==> p[i] == '"')
            && (i == n + 16 + |ts| ==> p[i] == '}')
  {
  }

  /** After the body, a quote that opens a word opens the key of the added member. */
  lemma WordsAfterBody(body: string, ts: string, i: nat)
    requires body != "" && IsTimestamp(ts)
    requires |body| <= i && i + 1 < |Stamped(body, ts)|
    requires Stamped(body, ts)[i] == '"' && 'a' <= Stamped(body, ts)[i + 1] <= 'z'
    ensures i == |body|
  {
    var n := |body|;
    StampedAt(body, ts, i);
    StampedAt(body, ts, i + 1);
    if i < n + 15 {
      var k := i - (n - 1);
      assert STAMP[1] == '"' && STAMP[13] == '"' && STAMP[14] == ':' && STAMP[15] == '"';
      assert k != 1 ==> k == 13 || k == 15;
    }
  }

  predicate IsWord(word: string) {
    && |word| > 1 && word[0] == '"' && 'a' <= word[1] <= 'z'
    && forall k :: 0 <= k < |word| ==> !IsDelimiter(word[k])
  }

  lemma WordOccurs(word: string, s: string, i: nat)
    requires IsWord(word) && OccursAt(word, s, i)
    ensures i + |word| <= |s| && s[i] == '"' && s[i + 1] == word[1]
    ensures forall j :: i <= j < i + |word| ==> !IsDelimiter(s[j])
  {
    forall j | i <= j < i + |word|
      ensures s[j] == word[j - i]
    {
      assert s[i..i + |word|][j - i] == s[j];
    }
  }

  /** A word that occurs in the payload lies inside the body or is the added key. */
  lemma WordInPayload(word: string, body: string, ts: string, i: nat)
    requires IsBody(body) && IsTimestamp(ts) && IsWord(word) && OccursAt(word, Stamped(body, ts), i)
    ensures i + |word| <= |body| - 1 || i == |body|
  {
    hide OccursAt, Stamped;
    var n := |body|;
    WordOccurs(word, Stamped(body, ts), i);
    StampedAt(body, ts, n - 1);
    if i >= n {
      WordsAfterBody(body, ts, i);
    }
  }

  lemma WordInBody(word: string, body: string, i: nat)
    requires IsBody(body) && IsWord(word) && OccursAt(word, body, i)
    ensures i + |word| <= |body| - 1
  {
    hide OccursAt;
    WordOccurs(word, body, i);
  }

  /** A word is in the payload where it is in the body, and nowhere else unless it is the added key. */
  lemma OccurrencesAgree(word: string, body: string, ts: string, i: nat)
    requires IsBody(body) && IsTimestamp(ts) && IsWord(word) && i != |body|
    ensures OccursAt(word, Stamped(body, ts), i) <==> OccursAt(word, body, i)
  {
    var p, m := Stamped(body, ts), |word|;
    if OccursAt(word, p, i) {
      WordInPayload(word, body, ts, i);
      assert body[i..i + m] == p[i..i + m];
    }
    if OccursAt(word, body, i) {
      WordInBody(word, body, i);
      assert body[i..i + m] == p[i..i + m];
    }
  }

  lemma AmountKeyAgrees(body: string, ts: string, i: nat)
    requires IsBody(body) && IsTimestamp(ts)
    ensures OccursAt(AMOUNT_KEY, Stamped(body, ts), i) <==> OccursAt(AMOUNT_KEY, body, i)
  {
    if i == |body| {
      StampedAt(body, ts, i + 1);
      if OccursAt(AMOUNT_KEY, Stamped(body, ts), i) {
        WordOccurs(AMOUNT_KEY, Stamped(body, ts), i);
        assert false;
      }
    } else {
      OccurrencesAgree(AMOUNT_KEY, body, ts, i);
    }
  }

  /** The amount counted for a payment is the amount in its body. */
  lemma AmountKept(body: string, ts: string)
    requires IsBody(body) && IsTimestamp(ts)
    ensures AmountText(Stamped(body, ts)) == AmountText(body)
  {
    hide Find, FindDelimiter, OccursAt, Stamped;
    var n, p := |body|, Stamped(body, ts);
    forall i: nat
      ensures OccursAt(AMOUNT_KEY, p, i) <==> OccursAt(AMOUNT_KEY, body, i)
    {
      AmountKeyAgrees(body, ts, i);
    }
    var at := Find(AMOUNT_KEY, body, 0);
    assert Find(AMOUNT_KEY, p, 0) == at;
    if at.Some? {
      WordInBody(AMOUNT_KEY, body, at.value);
      DelimiterKept(body, ts, at.value + 9);
    }
  }

  lemma DelimiterKept(body: string, ts: string, start: nat)
    requires IsBody(body) && start <= |body| - 1
    ensures FindDelimiter(body, start).Some? && FindDelimiter(Stamped(body, ts), start) == FindDelimiter(body, start)
    ensures Stamped(body, ts)[start..FindDelimiter(body, start).value] == body[start..FindDelimiter(body, start).value]
  {
    hide FindDelimiter, Stamped;
    var n, p := |body|, Stamped(body, ts);
    forall i | 0 <= i < n
      ensures (IsDelimiter(p[i]) <==> IsDelimiter(body[i])) && (i < n - 1 ==> p[i] == body[i])
    {
      StampedAt(body, ts, i);
    }
    assert IsDelimiter(p[n - 1]) && IsDelimiter(body[n - 1]);
  }

  ghost predicate Mentions(part: string, s: string) {
    exists i: nat :: OccursAt(part, s, i)
  }

  /** The payload has the key `requestedAt` where the body has it, and once more at the body's end. */
  lemma StampKeyAgrees(body: string, ts: string, i: nat)
    requires IsBody(body) && IsTimestamp(ts)
    ensures OccursAt(STAMP_KEY, Stamped(body, ts), i) <==> OccursAt(STAMP_KEY, body, i) || i == |body|
  {
    if i == |body| {
      assert Stamped(body, ts)[i..i + 13] == STAMP_KEY;
    } else {
      OccurrencesAgree(STAMP_KEY, body, ts, i);
    }
  }

  /** It has the key exactly once, at the body's end, exactly when the body does not mention it. */
  lemma StampedOnce(body: string, ts: string)
    requires IsBody(body) && IsTimestamp(ts)
    ensures (forall i: nat :: OccursAt(STAMP_KEY, Stamped(body, ts), i) <==> i == |body|) <==> !Mentions(STAMP_KEY, body)
  {
    hide OccursAt, Stamped;
    forall i: nat
      ensures OccursAt(STAMP_KEY, Stamped(body, ts), i) <==> OccursAt(STAMP_KEY, body, i) || i == |body|
    {
      StampKeyAgrees(body, ts, i);
    }
    if i: nat :| OccursAt(STAMP_KEY, body, i) {
      WordInBody(STAMP_KEY, body, i);
      assert i != |body| && OccursAt(STAMP_KEY, Stamped(body, ts), i);
    }
  }

  /** A body that brings its own `requestedAt` is accepted and sent with two. */
  lemma StampedTwice(ts: string)
    requires IsTimestamp(ts)
    ensures var body := "{\"requestedAt\":\"\"}";
            IsBody(body) && OccursAt(STAMP_KEY, Stamped(body, ts), 1) && OccursAt(STAMP_KEY, Stamped(body, ts), |body|)
  {
    var body := "{\"requestedAt\":\"\"}";
    assert body[1..14] == STAMP_KEY;
    StampKeyAgrees(body, ts, 1);
    StampKeyAgrees(body, ts, |body|);
  }
}
