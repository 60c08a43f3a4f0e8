/**
 * The AS-path test applied to a PA-space route in PI mode: the text
 * "AS path: ..." is matched against the anchored pattern
 *
 *     AS path: ([\d\?I\s]+) [\w\(]
 *
 * and the first whitespace-separated token of the captured group decides
 * whether the route was originated inside the network ("I" or "?") or by an
 * external AS.
 *
 * The matcher below does what a backtracking engine does with this pattern:
 * the group first takes the longest run of class characters after the fixed
 * lead, then gives characters back one at a time until a space followed by a
 * word character or "(" comes next. Its result is the LARGEST group end with
 * that property (GroupEndsAt), which is what the proofs state.
 */
module AsPath {
  import opened Wrappers

  /** The fixed text the pattern starts with. */
  const Lead: string := "AS path: "

  /** Python's str.isspace, which is also what \s and split() use. */
  predicate IsSpace(ch: char)
  {
    || ch == ' '
    || ('\t' <= ch <= '\r')
    || ('\U{1C}' <= ch <= '\U{1F}')
    || ch == '\U{85}' || ch == '\U{A0}' || ch == '\U{1680}'
    || ('\U{2000}' <= ch <= '\U{200A}')
    || ch == '\U{2028}' || ch == '\U{2029}' || ch == '\U{202F}'
    || ch == '\U{205F}' || ch == '\U{3000}'
  }

  predicate IsDigit(ch: char) { '0' <= ch <= '9' }

  /** \w restricted to ASCII: letters, digits and underscore. */
  predicate IsWord(ch: char)
  {
    IsDigit(ch) || ('a' <= ch <= 'z') || ('A' <= ch <= 'Z') || ch == '_'
  }

  /** The group's character class [\d\?I\s]. */
  predicate InGroupClass(ch: char)
  {
    IsDigit(ch) || ch == '?' || ch == 'I' || IsSpace(ch)
  }

  /** What may follow the group: a space, then one of [\w\(]. */
  predicate FollowsGroup(t: string, j: int)
  {
    0 <= j && j + 1 < |t| && t[j] == ' ' && (IsWord(t[j + 1]) || t[j + 1] == '(')
  }

  /**
   * The pattern matches t at its start with the group ending at index j
   * (the group is t[|Lead|..j]).
   */
  predicate GroupEndsAt(t: string, j: int)
  {
    && FollowsGroup(t, j)
    && |Lead| < j
    && Lead <= t
    && (forall k :: |Lead| <= k < j ==> InGroupClass(t[k]))
  }

  /** End of the longest run of class characters starting at i. */
  function RunEnd(t: string, i: nat): (e: nat)
    requires i <= |t|
    ensures i <= e <= |t|
    ensures forall k :: i <= k < e ==> InGroupClass(t[k])
    ensures e == |t| || !InGroupClass(t[e])
    decreases |t| - i
  {
    if i == |t| || !InGroupClass(t[i]) then i else RunEnd(t, i + 1)
  }

  /** Give back characters from group end j downwards until the rest of the pattern fits. */
  function Backtrack(t: string, j: nat): (r: Option<nat>)
    ensures r.Some? ==> |Lead| < r.value <= j && FollowsGroup(t, r.value)
    ensures r.Some? ==> forall v :: r.value < v <= j ==> !FollowsGroup(t, v)
    ensures r.None? ==> forall v :: |Lead| < v <= j ==> !FollowsGroup(t, v)
  {
    if j <= |Lead| then None
    else if FollowsGroup(t, j) then Some(j)
    else Backtrack(t, j - 1)
  }

  /** re.match: where the group ends, or None when the pattern does not match. */
  function Match(t: string): (r: Option<nat>)
    ensures r.Some? ==> GroupEndsAt(t, r.value)
    ensures r.Some? ==> forall j :: GroupEndsAt(t, j) ==> j <= r.value
    ensures r.None? <==> forall j :: !GroupEndsAt(t, j)
  {
    if Lead <= t then
      var e := RunEnd(t, |Lead|);
      var r := Backtrack(t, e);
      assert forall j :: GroupEndsAt(t, j) ==> InGroupClass(t[j]);
      r
    else
      None
  }

  /** First index at or after i that is not whitespace (or |s|). */
  function SkipSpaces(s: string, i: nat): (k: nat)
    requires i <= |s|
    ensures i <= k <= |s|
    ensures forall m :: i <= m < k ==> IsSpace(s[m])
    ensures k == |s| || !IsSpace(s[k])
    decreases |s| - i
  {
    if i == |s| || !IsSpace(s[i]) then i else SkipSpaces(s, i + 1)
  }

  /** First index at or after i that is whitespace (or |s|). */
  function TokenEnd(s: string, i: nat): (k: nat)
    requires i <= |s|
    ensures i <= k <= |s|
    ensures forall m :: i <= m < k ==> !IsSpace(s[m])
    ensures k == |s| || IsSpace(s[k])
    decreases |s| - i
  {
    if i == |s| || IsSpace(s[i]) then i else TokenEnd(s, i + 1)
  }

  /** s.split()[0], or None where split() yields no token (the IndexError case). */
  function FirstToken(s: string): (r: Option<string>)
    ensures r.None? <==> forall m :: 0 <= m < |s| ==> IsSpace(s[m])
    ensures r.Some? ==> exists i :: IsTokenAt(s, i, r.value)
  {
    var i := SkipSpaces(s, 0);
    if i == |s| then None
    else
      var tok := s[i..TokenEnd(s, i)];
      assert IsTokenAt(s, i, tok);
      Some(tok)
  }

  /**
   * tok is the first token of s, starting at index i: only whitespace
   * before it, no whitespace in it, and whitespace or the end after it.
   */
  predicate IsTokenAt(s: string, i: int, tok: string)
  {
    && 0 <= i && i + |tok| <= |s| && tok != []
    && (forall m :: 0 <= m < i ==> IsSpace(s[m]))
    && s[i..i + |tok|] == tok
    && (forall m :: 0 <= m < |tok| ==> !IsSpace(tok[m]))
    && (i + |tok| == |s| || IsSpace(s[i + |tok|]))
  }

  /** The first token of s is unique. */
  lemma FirstTokenUnique(s: string, i: int, tok: string, i': int, tok': string)
    requires IsTokenAt(s, i, tok) && IsTokenAt(s, i', tok')
    ensures i == i' && tok == tok'
  {
    assert forall m :: 0 <= m < |tok| ==> s[i + m] == tok[m];
    assert forall m :: 0 <= m < |tok'| ==> s[i' + m] == tok'[m];
    assert !IsSpace(s[i]) && !IsSpace(s[i']);
    assert i == i';
  }

  /** Outcome of the AS-path test on one route. */
  datatype PathTest =
    | NoMatch                   // the pattern does not match: the record is skipped
    | NoToken                   // the group is all whitespace: split()[0] raises
    | Origin(token: string)     // the first token of the AS path

  /** Match the AS-path text and take the first token of the group. */
  function TestAsPath(t: string): (r: PathTest)
    ensures r == NoMatch <==> forall j :: !GroupEndsAt(t, j)
    ensures r.NoToken? ==> Match(t).Some? && forall m :: |Lead| <= m < Match(t).value ==> IsSpace(t[m])
    ensures r.Origin? ==> Match(t).Some? && exists i :: IsTokenAt(t[|Lead|..Match(t).value], i, r.token)
  {
    match Match(t)
    case None => NoMatch
    case Some(j) =>
      var g := t[|Lead|..j];
      match FirstToken(g)
      case None =>
        assert forall m :: |Lead| <= m < j ==> t[m] == g[m - |Lead|];
        NoToken
      case Some(tok) => Origin(tok)
  }

  /** Routes originated inside the network: the AS path starts with I or ?. */
  predicate IsOwnOrigin(tok: string) { tok == "I" || tok == "?" }

  /**
   * When the group is followed by " (", no longer group can match: that is
   * where the match ends.
   */
  lemma MatchBeforeParen(t: string, j: int)
    requires GroupEndsAt(t, j) && t[j + 1] == '('
    ensures Match(t) == Some(j)
  {
    assert !InGroupClass(t[j + 1]);
  }

  /** The first token of the matched group is what the test reports. */
  lemma TestAsPathToken(t: string, j: nat, i: int, tok: string)
    requires Match(t) == Some(j) && IsTokenAt(t[|Lead|..j], i, tok)
    ensures TestAsPath(t) == Origin(tok)
  {
    var g := t[|Lead|..j];
    var r := FirstToken(g);
    assert r.Some? by {
      assert !IsSpace(g[i]) by { assert g[i] == tok[0]; }
    }
    var i' :| IsTokenAt(g, i', r.value);
    FirstTokenUnique(g, i, tok, i', r.value);
  }

  /** A path the network originated itself ("I") is recognised as such. */
  lemma InternalOrigin()
    ensures TestAsPath("AS path: I (Originator)") == Origin("I")
  {
    var t := "AS path: I (Originator)";
    assert GroupEndsAt(t, 10);
    MatchBeforeParen(t, 10);
    assert IsTokenAt(t[9..10], 0, "I");
    TestAsPathToken(t, 10, 0, "I");
  }

  /** A path learned from an external AS yields that AS as the first token. */
  lemma ExternalOrigin()
    ensures TestAsPath("AS path: 65001 I (Originator)") == Origin("65001")
  {
    var t := "AS path: 65001 I (Originator)";
    ExternalMatch();
    ExternalToken();
    assert t[|Lead|..16] == "65001 I";
    TestAsPathToken(t, 16, 0, "65001");
  }

  /** The pattern matches the external path with the group "65001 I". */
  lemma ExternalMatch()
    ensures Match("AS path: 65001 I (Originator)") == Some(16)
  {
    var t := "AS path: 65001 I (Originator)";
    assert Lead <= t;
    assert forall k :: |Lead| <= k < 16 ==> InGroupClass(t[k]);
    assert GroupEndsAt(t, 16);
    MatchBeforeParen(t, 16);
  }

  /** The first token of "65001 I" is "65001". */
  lemma ExternalToken()
    ensures IsTokenAt("65001 I", 0, "65001")
  {
  }

  /** A group of whitespace only leaves split() with no token. */
  lemma BlankGroup()
    ensures TestAsPath("AS path:   (x)") == NoToken
  {
    var t := "AS path:   (x)";
    assert GroupEndsAt(t, 10);
    MatchBeforeParen(t, 10);
    assert t[9..10] == " ";
  }

  /** Text without the fixed lead never matches. */
  lemma MissingLead()
    ensures TestAsPath("65001 I (x)") == NoMatch
  {
    assert !(Lead <= "65001 I (x)") by {
      assert "65001 I (x)"[0] != Lead[0];
    }
  }
}
