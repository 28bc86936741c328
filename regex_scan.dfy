/** The three regular expressions of the analyser, each reduced to the one
    shape it has: a literal, a lazy group `(.*?)`, and a closing character.
    `/\((.*?)\)/`, `/data:(.*?)\//` and `/data:(.*?),/` are `Capture(s, "(", ')')`,
    `Capture(s, "data:", '/')` and `Capture(s, "data:", ',')`; a bare literal
    test such as `/data:/.test(s)` is `Contains(s, "data:")`.
    In ECMAScript regular expressions without the `s` flag, `.` matches any
    character except the four line terminators. */
module RegexScan {
  import opened Wrappers

  predicate IsLineTerminator(c: char) {
    c == '\n' || c == '\r' || c == '\U{2028}' || c == '\U{2029}'
  }

  /** `lit` occurs in `s` at index `i`. */
  predicate LiteralAt(s: string, lit: string, i: nat) {
    i + |lit| <= |s| && s[i..i + |lit|] == lit
  }

  /** The lazy group that starts at `from` ends just before the close character
      at `k`: no character before `k` is a close character or a line terminator. */
  ghost predicate LazyEnd(s: string, close: char, from: nat, k: nat) {
    from <= k < |s| && s[k] == close &&
    forall m :: from <= m < k ==> s[m] != close && !IsLineTerminator(s[m])
  }

  /** The lazy group starting at `from` finds its close character. */
  ghost predicate GroupCloses(s: string, close: char, from: nat) {
    exists k :: LazyEnd(s, close, from, k)
  }

  /** The whole pattern `lit(.*?)close` matches starting at index `i`. */
  ghost predicate MatchesAt(s: string, lit: string, close: char, i: nat) {
    LiteralAt(s, lit, i) && GroupCloses(s, close, i + |lit|)
  }

  /** A successful match: the literal starts at `at`, the close character sits
      at `end`, and the captured group is `s[at + |lit| .. end]`. */
  datatype Match = Match(at: nat, end: nat)

  /** Whether `lit` occurs in `s` at or after `i` (RegExp.prototype.test). */
  function ContainsFrom(s: string, lit: string, i: nat): (b: bool)
    requires i <= |s|
    decreases |s| - i
    ensures b <==> exists j :: i <= j && LiteralAt(s, lit, j)
  {
    if LiteralAt(s, lit, i) then true
    else if i == |s| then false
    else ContainsFrom(s, lit, i + 1)
  }

  function Contains(s: string, lit: string): (b: bool)
    ensures b <==> exists j :: LiteralAt(s, lit, j)
  {
    ContainsFrom(s, lit, 0)
  }

  /** Runs `(.*?)close` from `from`: the index of the nearest close character,
      or None when a line terminator or the end of `s` comes first. */
  function GroupEnd(s: string, close: char, from: nat): (r: Option<nat>)
    requires from <= |s|
    decreases |s| - from
    ensures r.Some? ==> LazyEnd(s, close, from, r.value)
    ensures r.None? ==> forall k :: !LazyEnd(s, close, from, k)
  {
    if from == |s| then None
    else if s[from] == close then Some(from)
    else if IsLineTerminator(s[from]) then None
    else
      var r := GroupEnd(s, close, from + 1);
      assert forall k :: LazyEnd(s, close, from, k) ==> k == from || LazyEnd(s, close, from + 1, k);
      r
  }

  /** The leftmost match of `lit(.*?)close` starting at or after `i`
      (RegExp.prototype.exec without the `g` flag, searching from `i`). */
  function FirstMatch(s: string, lit: string, close: char, i: nat): (r: Option<Match>)
    requires i <= |s|
    decreases |s| - i
    ensures r.Some? ==> i <= r.value.at && LiteralAt(s, lit, r.value.at)
                        && LazyEnd(s, close, r.value.at + |lit|, r.value.end)
    ensures forall j :: i <= j && (r.Some? ==> j < r.value.at) ==> !MatchesAt(s, lit, close, j)
  {
    if i == |s| then None
    else if LiteralAt(s, lit, i) && GroupEnd(s, close, i + |lit|).Some? then
      Some(Match(i, GroupEnd(s, close, i + |lit|).value))
    else
      FirstMatch(s, lit, close, i + 1)
  }

  /** Group 1 of the leftmost match, or None where `exec` returns null. The
      captured text never holds the close character or a line break. */
  function Capture(s: string, lit: string, close: char): (r: Option<string>)
    ensures r.None? <==> forall j :: !MatchesAt(s, lit, close, j)
    ensures r.Some? ==> close !in r.value
    ensures r.Some? ==> OneLine(r.value)
  {
    match FirstMatch(s, lit, close, 0)
    case None => None
    case Some(m) =>
      var c := s[m.at + |lit|..m.end];
      assert forall k :: 0 <= k < |c| ==> c[k] == s[m.at + |lit| + k];
      assert MatchesAt(s, lit, close, m.at);
      Some(c)
  }

  /** A close character reachable from `from` without crossing a line
      terminator is found by the lazy group, or an earlier one is. */
  lemma {:induction false} GroupEndReaches(s: string, close: char, from: nat, k: nat)
    requires from <= k < |s| && s[k] == close
    requires forall m :: from <= m < k ==> !IsLineTerminator(s[m])
    ensures GroupEnd(s, close, from).Some? && GroupEnd(s, close, from).value <= k
    decreases k - from
  {
    if s[from] != close {
      GroupEndReaches(s, close, from + 1, k);
    }
  }

  /** On a single line, a match can only begin at the first occurrence of the
      literal: any earlier occurrence would reach the same close character. */
  lemma FirstMatchAtFirstOccurrence(s: string, lit: string, close: char)
    requires OneLine(s)
    requires FirstMatch(s, lit, close, 0).Some?
    ensures forall j :: 0 <= j < FirstMatch(s, lit, close, 0).value.at ==> !LiteralAt(s, lit, j)
  {
    var m := FirstMatch(s, lit, close, 0).value;
    forall j | 0 <= j < m.at && LiteralAt(s, lit, j)
      ensures false
    {
      GroupEndReaches(s, close, j + |lit|, m.end);
      assert MatchesAt(s, lit, close, j);
    }
  }

  /** Building a string around a known group and parsing it back gives that
      group: the literal, then text free of the close character and of line
      breaks, then the close character. */
  lemma CaptureOfBuilt(pre: string, lit: string, body: string, close: char, rest: string)
    requires forall j :: 0 <= j < |pre| ==> !LiteralAt(pre + lit + body + [close] + rest, lit, j)
    requires close !in body
    requires OneLine(body)
    ensures Capture(pre + lit + body + [close] + rest, lit, close) == Some(body)
  {
    var s := pre + lit + body + [close] + rest;
    var at := |pre|;
    assert LiteralAt(s, lit, at) by {
      assert s[at..at + |lit|] == lit;
    }
    var end := at + |lit| + |body|;
    assert LazyEnd(s, close, at + |lit|, end) by {
      forall m | at + |lit| <= m < end
        ensures s[m] == body[m - at - |lit|]
      {
      }
    }
    GroupEndReaches(s, close, at + |lit|, end);
    assert MatchesAt(s, lit, close, at);
    var r := FirstMatch(s, lit, close, 0).value;
    assert r.at == at;
    assert r.end == end;
    assert s[at + |lit|..end] == body;
  }

  /** No character of `s` is a line terminator. */
  predicate OneLine(s: string) {
    forall m :: 0 <= m < |s| ==> !IsLineTerminator(s[m])
  }

  /** On one line, two captures after the same literal with different close
      characters start at the same place, so one is a prefix of the other. */
  lemma CapturesShareStart(s: string, lit: string, close1: char, close2: char)
    requires OneLine(s)
    requires Capture(s, lit, close1).Some? && Capture(s, lit, close2).Some?
    ensures Capture(s, lit, close1).value <= Capture(s, lit, close2).value
            || Capture(s, lit, close2).value <= Capture(s, lit, close1).value
  {
    var m1 := FirstMatch(s, lit, close1, 0).value;
    var m2 := FirstMatch(s, lit, close2, 0).value;
    FirstMatchAtFirstOccurrence(s, lit, close1);
    FirstMatchAtFirstOccurrence(s, lit, close2);
    assert m1.at == m2.at;
    var from := m1.at + |lit|;
    if m1.end <= m2.end {
      assert s[from..m2.end][..m1.end - from] == s[from..m1.end];
    } else {
      assert s[from..m1.end][..m2.end - from] == s[from..m2.end];
    }
  }

  /** Without its close character a pattern cannot match. */
  lemma NoCloseNoCapture(s: string, lit: string, close: char)
    requires close !in s
    ensures Capture(s, lit, close).None?
  {
  }

  /** Without its literal a pattern cannot match. */
  lemma NoLiteralNoCapture(s: string, lit: string, close: char)
    requires !Contains(s, lit)
    ensures Capture(s, lit, close).None?
  {
  }
}
