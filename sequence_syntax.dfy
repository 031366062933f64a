/**
 * The two regular expressions of the sequence parser, written out as
 * matchers: the message pattern `^(.*[^-]+)(-->>|->>)(.+):(.*)$` and the
 * closure-start pattern `^(loop|alt) (.+)$`. Go's `regexp` reports the
 * match a backtracking search finds first: greedy groups take as much as
 * they can, and the left alternative `-->>` is tried before `->>`. The
 * parser applies both patterns to trimmed lines of the source, which hold
 * no newline, so the matchers are stated for text without one.
 */
module SequenceSyntax {
  import opened Wrappers
  import opened Text

  const CallArrow: string := "->>"
  const ReturnArrow: string := "-->>"

  predicate NoNewline(s: string) {
    forall k :: 0 <= k < |s| ==> s[k] != '\n'
  }

  predicate NoDash(s: string) {
    forall k :: 0 <= k < |s| ==> s[k] != '-'
  }

  predicate NoColon(s: string) {
    forall k :: 0 <= k < |s| ==> s[k] != ':'
  }

  /** The length of the arrow of the pattern that starts at position `e` of `s`, `-->>` tried first, or 0. */
  function ArrowLength(s: string, e: nat): (n: nat)
    ensures n == 0 || n == 3 || n == 4
    ensures n == 4 ==> e + 4 <= |s| && s[e] == '-' && s[e + 1] == '-' && s[e + 2] == '>' && s[e + 3] == '>'
    ensures n == 3 ==> e + 3 <= |s| && s[e] == '-' && s[e + 1] == '>' && s[e + 2] == '>'
  {
    if e + 4 <= |s| && s[e] == '-' && s[e + 1] == '-' && s[e + 2] == '>' && s[e + 3] == '>' then 4
    else if e + 3 <= |s| && s[e] == '-' && s[e + 1] == '>' && s[e + 2] == '>' then 3
    else 0
  }

  /**
   * The pattern matches with its first group ending at `e`: a non-dash
   * character just before, an arrow at `e`, and the last colon of the line
   * at least one character after the arrow.
   */
  predicate MessageAt(s: string, e: nat) {
    1 <= e <= |s| && s[e - 1] != '-' && ArrowLength(s, e) > 0
    && LastIndexOf(s, ':') > e + ArrowLength(s, e)
  }

  /** The four groups: source, arrow, target and text. */
  datatype MessageMatch = MessageMatch(source: string, arrow: string, target: string, text: string)

  /** The groups of the match whose first group ends at `e`; the third group runs to the last colon. */
  function GroupsAt(s: string, e: nat): (m: MessageMatch)
    requires MessageAt(s, e)
    ensures |m.source| == e && |m.arrow| == ArrowLength(s, e)
  {
    var n := ArrowLength(s, e);
    var c := LastIndexOf(s, ':');
    MessageMatch(s[..e], s[e..e + n], s[e + n..c], s[c + 1..])
  }

  /** The groups put back together, with a colon between the third and the fourth, are the line. */
  lemma GroupsJoin(s: string, e: nat)
    requires MessageAt(s, e)
    ensures var m := GroupsAt(s, e); s == m.source + m.arrow + m.target + ":" + m.text
  {
    var n := ArrowLength(s, e);
    var c := LastIndexOf(s, ':');
    assert s == s[..e] + s[e..e + n] + s[e + n..c] + [s[c]] + s[c + 1..];
  }

  /** The search from the right: the largest end of the first group not above `e` at which the pattern matches. */
  function LastMessageAt(s: string, e: nat): (r: int)
    requires e <= |s|
    ensures r == -1 || (1 <= r <= e && MessageAt(s, r))
    ensures forall k :: r < k <= e ==> !MessageAt(s, k)
  {
    if e < 1 then -1
    else if MessageAt(s, e) then e
    else LastMessageAt(s, e - 1)
  }

  /**
   * `reMessage.FindStringSubmatch`: `.*` takes all it can, so the first
   * group ends at the last position where the rest of the pattern can
   * still match, and `.+` ends the third group at the last colon.
   */
  function MatchMessage(s: string): (r: Option<MessageMatch>)
    requires NoNewline(s)
    ensures r.None? <==> forall e :: 1 <= e <= |s| ==> !MessageAt(s, e)
    ensures r.Some? ==> exists e :: 1 <= e <= |s| && MessageAt(s, e) && r.value == GroupsAt(s, e)
                                    && forall k :: e < k <= |s| ==> !MessageAt(s, k)
  {
    var e := LastMessageAt(s, |s|);
    if e < 0 then None else Some(GroupsAt(s, e))
  }

  /** The arrow the matcher reads at `e` is `-->>` for length 4 and `->>` for length 3. */
  lemma ArrowText(s: string, e: nat)
    requires ArrowLength(s, e) > 0
    ensures s[e..e + ArrowLength(s, e)] == if ArrowLength(s, e) == 4 then ReturnArrow else CallArrow
  {
  }

  /**
   * What a match says about the line: it is the source, an arrow, the
   * target, a colon and the text; the source is non-empty and does not end
   * with a dash, the target is non-empty, and the text holds no colon.
   */
  lemma MatchMessageShape(s: string)
    requires NoNewline(s) && MatchMessage(s).Some?
    ensures var m := MatchMessage(s).value;
      s == m.source + m.arrow + m.target + ":" + m.text
      && m.source != [] && m.source[|m.source| - 1] != '-'
      && (m.arrow == CallArrow || m.arrow == ReturnArrow)
      && m.target != [] && NoColon(m.text)
  {
    var e := LastMessageAt(s, |s|);
    assert MatchMessage(s).value == GroupsAt(s, e);
    GroupsShape(s, e);
  }

  lemma GroupsShape(s: string, e: nat)
    requires MessageAt(s, e)
    ensures var m := GroupsAt(s, e);
      s == m.source + m.arrow + m.target + ":" + m.text
      && m.source != [] && m.source[|m.source| - 1] != '-'
      && (m.arrow == CallArrow || m.arrow == ReturnArrow)
      && m.target != [] && NoColon(m.text)
  {
    var m := GroupsAt(s, e);
    var c := LastIndexOf(s, ':');
    GroupsJoin(s, e);
    ArrowText(s, e);
    assert m.source[e - 1] == s[e - 1];
    assert m.text == s[c + 1..];
    forall k | 0 <= k < |m.text| ensures m.text[k] != ':' {
      assert m.text[k] == s[c + 1 + k];
    }
  }

  /**
   * Composing a message line and matching it gives the parts back, when
   * the source does not end with a dash, the target is non-empty without a
   * dash, and the text holds no colon: no later position can end the first
   * group then.
   */
  lemma MatchMessageCompose(f: string, a: string, t: string, x: string)
    requires f != [] && f[|f| - 1] != '-'
    requires a == CallArrow || a == ReturnArrow
    requires t != [] && NoDash(t) && NoColon(x)
    requires NoNewline(f + a + t + ":" + x)
    ensures MatchMessage(f + a + t + ":" + x) == Some(MessageMatch(f, a, t, x))
  {
    var s := f + a + t + ":" + x;
    var e := |f|;
    var p := e + |a|;
    var c := p + |t|;
    ComposedParts(f, a, t, x);
    assert LastIndexOf(s, ':') == c by {
      LastIndexOfIs(s, ':', c);
    }
    assert ArrowLength(s, e) == |a|;
    assert MessageAt(s, e);
    forall k | e < k <= |s| ensures !MessageAt(s, k) {
      NoMessageAfter(f, a, t, x, k);
    }
    LastMessageAtIs(s, |s|, e);
    ComposedGroups(f, a, t, x);
  }

  /** The search from the right stops at the first match it meets. */
  lemma {:induction false} LastMessageAtIs(s: string, n: nat, e: nat)
    requires 1 <= e <= n <= |s| && MessageAt(s, e)
    requires forall k :: e < k <= n ==> !MessageAt(s, k)
    ensures LastMessageAt(s, n) == e
    decreases n
  {
    if n > e {
      LastMessageAtIs(s, n - 1, e);
    }
  }

  /** With the arrow and the last colon where they were put, the groups are the parts. */
  lemma ComposedGroups(f: string, a: string, t: string, x: string)
    requires MessageAt(f + a + t + ":" + x, |f|)
    requires ArrowLength(f + a + t + ":" + x, |f|) == |a|
    requires LastIndexOf(f + a + t + ":" + x, ':') == |f| + |a| + |t|
    ensures GroupsAt(f + a + t + ":" + x, |f|) == MessageMatch(f, a, t, x)
  {
    ComposedParts(f, a, t, x);
  }

  /** Where the parts of a composed message line sit in it. */
  lemma ComposedParts(f: string, a: string, t: string, x: string)
    ensures var s := f + a + t + ":" + x;
      var p := |f| + |a|;
      var c := p + |t|;
      |s| == c + 1 + |x| && s[..|f|] == f && s[|f|..p] == a && s[p..c] == t && s[c] == ':' && s[c + 1..] == x
      && (forall i :: 0 <= i < |a| ==> s[|f| + i] == a[i])
      && (forall i :: 0 <= i < |t| ==> s[p + i] == t[i])
      && (forall i :: 0 <= i < |x| ==> s[c + 1 + i] == x[i])
  {
  }

  /** `r` is the last index of `c` when `c` sits there and nowhere after. */
  lemma LastIndexOfIs(s: string, c: char, r: nat)
    requires r < |s| && s[r] == c
    requires forall j :: r < j < |s| ==> s[j] != c
    ensures LastIndexOf(s, c) == r
  {
  }

  /** No position past the composed source can end the first group of a match. */
  lemma NoMessageAfter(f: string, a: string, t: string, x: string, k: nat)
    requires f != [] && (a == CallArrow || a == ReturnArrow)
    requires t != [] && NoDash(t)
    requires LastIndexOf(f + a + t + ":" + x, ':') == |f| + |a| + |t|
    requires |f| < k <= |f + a + t + ":" + x|
    ensures !MessageAt(f + a + t + ":" + x, k)
  {
    var s := f + a + t + ":" + x;
    var p := |f| + |a|;
    ComposedParts(f, a, t, x);
    if k < p {
      assert s[k] == a[k - |f|] && s[k - 1] == a[k - 1 - |f|];
      assert s[k] != '-' || s[k - 1] == '-';
    } else if k < p + |t| {
      assert s[k] == t[k - p];
      assert ArrowLength(s, k) == 0;
    }
  }

  /** `reClosureStart.FindStringSubmatch`: the keyword and the non-empty condition after one space. */
  function MatchClosureStart(s: string): (r: Option<(string, string)>)
    requires NoNewline(s)
    ensures r.Some? ==> (r.value.0 == "loop" || r.value.0 == "alt") && r.value.1 != []
                        && s == r.value.0 + " " + r.value.1
  {
    if |s| > 5 && s[..5] == "loop " then
      assert s == "loop" + " " + s[5..];
      Some(("loop", s[5..]))
    else if |s| > 4 && s[..4] == "alt " then
      assert s == "alt" + " " + s[4..];
      Some(("alt", s[4..]))
    else None
  }

  /** A `loop` or `alt` line gives back its condition. */
  lemma MatchClosureStartCompose(w: string, c: string)
    requires (w == "loop" || w == "alt") && c != [] && NoNewline(w + " " + c)
    ensures MatchClosureStart(w + " " + c) == Some((w, c))
  {
    var s := w + " " + c;
    if w == "loop" {
      assert s[..5] == "loop " && s[5..] == c;
    } else {
      assert s[..4] == "alt " && s[4..] == c;
      assert s[..5] != "loop " by { assert s[0] == 'a'; }
    }
  }
}
