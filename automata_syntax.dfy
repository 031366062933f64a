/**
 * The two regular expressions of the automata parser, written out as
 * matchers: the link pattern `^([^-]*)-(.*)->(.*)$` and the final-state
 * pattern `^\((.+)\)$`. As in Go's `regexp`, `.` matches anything but a
 * newline, `[^-]` matches a newline, and `$` is the end of the text.
 */
module AutomataSyntax {
  import opened Wrappers
  import opened Text

  const Arrow: string := "->"

  predicate NoNewline(s: string) {
    forall k :: 0 <= k < |s| ==> s[k] != '\n'
  }

  predicate NoDash(s: string) {
    forall k :: 0 <= k < |s| ==> s[k] != '-'
  }

  /** An arrow `->` starts at position `k` of `s`. */
  predicate ArrowAt(s: string, k: int) {
    0 <= k < |s| - 1 && s[k] == '-' && s[k + 1] == '>'
  }

  predicate HasArrow(s: string) {
    exists k :: 0 <= k < |s| && ArrowAt(s, k)
  }

  /** `HasArrow` is the substring test `strings.Contains(s, "->")`. */
  lemma HasArrowIsContains(s: string)
    ensures HasArrow(s) <==> Contains(s, Arrow)
  {
    forall k ensures OccursAt(s, Arrow, k) <==> ArrowAt(s, k) {
      if 0 <= k < |s| - 1 {
        assert s[k..k + 2] == [s[k], s[k + 1]];
      }
    }
  }

  /** The last arrow that lies wholly inside `s[..n]`, or -1. */
  function LastArrowIn(s: string, n: nat): (r: int)
    requires n <= |s|
    ensures r == -1 || (0 <= r && r + 1 < n)
    ensures r >= 0 ==> ArrowAt(s, r)
    ensures forall k :: r < k && k + 1 < n ==> !ArrowAt(s, k)
  {
    if n < 2 then -1
    else if ArrowAt(s, n - 2) then n - 2
    else LastArrowIn(s, n - 1)
  }

  /** Text without an arrow is not split. */
  lemma SplitArrowNone(a: string)
    requires !HasArrow(a)
    ensures Split(a, Arrow) == [a]
  {
    HasArrowIsContains(a);
  }

  /** Splitting on arrows cuts at the first one: everything before it is the first piece. */
  lemma SplitArrowCons(a: string, rest: string)
    requires !HasArrow(a)
    ensures Split(a + Arrow + rest, Arrow) == [a] + Split(rest, Arrow)
  {
    var s := a + Arrow + rest;
    assert OccursAt(s, Arrow, |a|) by {
      assert s[|a|..|a| + 2] == Arrow;
    }
    forall k | 0 <= k < |a| ensures !OccursAt(s, Arrow, k) {
      if OccursAt(s, Arrow, k) {
        assert s[k..k + 2] == Arrow;
        assert s[k] == '-' && s[k + 1] == '>';
        if k + 1 < |a| {
          assert ArrowAt(a, k);
        }
      }
    }
    assert Find(s, Arrow) == |a|;
    assert s[..|a|] == a && s[|a| + 2..] == rest;
  }

  /** Three arrow-free pieces joined by arrows split back into those pieces. */
  lemma SplitThree(s1: string, s2: string, s3: string)
    requires !HasArrow(s1) && !HasArrow(s2) && !HasArrow(s3)
    ensures Split(s1 + Arrow + s2 + Arrow + s3, Arrow) == [s1, s2, s3]
  {
    var r := s2 + Arrow + s3;
    SplitArrowNone(s3);
    SplitArrowCons(s2, s3);
    assert Split(r, Arrow) == [s2, s3];
    SplitArrowCons(s1, r);
    Regroup(s1 + Arrow, s2, Arrow, s3);
    assert [s1] + [s2, s3] == [s1, s2, s3];
  }

  /** Concatenation regrouped after a common prefix. */
  lemma Regroup(p: string, a: string, b: string, c: string)
    ensures p + a + b + c == p + (a + b + c)
  {
  }

  /** The three capture groups of the link pattern: source, label, target. */
  datatype LinkMatch = LinkMatch(source: string, text: string, target: string)

  /**
   * The link pattern. Group 1 cannot hold a `-`, so it ends at the first
   * `-`; group 2 is greedy, so the arrow it stops at is the last one; and
   * nothing after that first `-` may be a newline.
   */
  function MatchLink(s: string): (r: Option<LinkMatch>)
    ensures r.Some? ==> s == r.value.source + "-" + r.value.text + Arrow + r.value.target
    ensures r.Some? ==> NoDash(r.value.source) && NoNewline(r.value.text) && NoNewline(r.value.target)
    ensures r.Some? ==> !HasArrow(r.value.target)
  {
    var i := IndexOf(s, '-');
    if i < 0 then None
    else
      var k := LastArrowIn(s, |s|);
      if k <= i || exists j :: i < j < |s| && s[j] == '\n' then None
      else
        GroupsOf(s, i, k);
        Some(LinkMatch(s[..i], s[i + 1..k], s[k + 2..]))
  }

  /** The three groups cut out of `s` around its first dash `i` and its last arrow `k`. */
  lemma GroupsOf(s: string, i: int, k: int)
    requires 0 <= i < k && k == LastArrowIn(s, |s|) && i == IndexOf(s, '-')
    requires forall j :: i < j < |s| ==> s[j] != '\n'
    ensures s == s[..i] + "-" + s[i + 1..k] + Arrow + s[k + 2..]
    ensures NoDash(s[..i]) && NoNewline(s[i + 1..k]) && NoNewline(s[k + 2..])
    ensures !HasArrow(s[k + 2..])
  {
    CutAround(s, i, k);
    GroupsOneLine(s, i, k);
    var target := s[k + 2..];
    forall j | 0 <= j < |target| && ArrowAt(target, j) ensures false {
      assert ArrowAt(s, k + 2 + j);
    }
  }

  lemma CutAround(s: string, i: int, k: int)
    requires 0 <= i < k < |s| - 1 && s[i] == '-' && s[k] == '-' && s[k + 1] == '>'
    ensures s == s[..i] + "-" + s[i + 1..k] + Arrow + s[k + 2..]
  {
    assert s[i..i + 1] == "-";
    assert s[k..k + 2] == Arrow;
    assert s == s[..i] + s[i..i + 1] + s[i + 1..k] + s[k..k + 2] + s[k + 2..];
  }

  lemma GroupsOneLine(s: string, i: int, k: int)
    requires 0 <= i < k <= |s| - 2 && i == IndexOf(s, '-')
    requires forall j :: i < j < |s| ==> s[j] != '\n'
    ensures NoDash(s[..i]) && NoNewline(s[i + 1..k]) && NoNewline(s[k + 2..])
  {
    forall j | 0 <= j < i ensures s[..i][j] != '-' {
      assert s[..i][j] == s[j];
    }
    var mid, target := s[i + 1..k], s[k + 2..];
    forall j | 0 <= j < |mid| ensures mid[j] != '\n' {
      assert mid[j] == s[i + 1 + j];
    }
    forall j | 0 <= j < |target| ensures target[j] != '\n' {
      assert target[j] == s[k + 2 + j];
    }
  }

  /** The arrow right after `pre` is the last one when `post` holds none. */
  lemma LastArrowOf(pre: string, post: string)
    requires !HasArrow(post)
    ensures var s := pre + Arrow + post; LastArrowIn(s, |s|) == |pre|
  {
    var s := pre + Arrow + post;
    assert ArrowAt(s, |pre|);
    assert s[|pre| + 1] == '>';
    forall k | |pre| + 1 < k && ArrowAt(s, k) ensures false {
      assert ArrowAt(post, k - |pre| - 2);
    }
  }

  /**
   * One segment of a chained link line, put back in front of the target it
   * points to: the source is the text before the first `-` of the segment,
   * the label is the rest of it, the target comes back unchanged, and a
   * segment without a `-` does not match.
   */
  lemma MatchLinkSegment(seg: string, to: string)
    requires !HasArrow(seg) && !HasArrow(to)
    ensures var i := IndexOf(seg, '-');
      MatchLink(seg + Arrow + to)
        == if i < 0 || !NoNewline(seg[i + 1..] + Arrow + to) then None
           else Some(LinkMatch(seg[..i], seg[i + 1..], to))
  {
    if IndexOf(seg, '-') < 0 {
      SegmentWithoutDash(seg, to);
    } else {
      SegmentWithDash(seg, to);
    }
  }

  /** A segment matched in front of its target gives that target back. */
  lemma SegmentTarget(seg: string, to: string)
    requires !HasArrow(seg) && !HasArrow(to)
    ensures MatchLink(seg + Arrow + to).Some? ==> MatchLink(seg + Arrow + to).value.target == to
  {
    MatchLinkSegment(seg, to);
  }

  lemma SegmentWithoutDash(seg: string, to: string)
    requires !HasArrow(to) && IndexOf(seg, '-') < 0
    ensures MatchLink(seg + Arrow + to) == None
  {
    var s := seg + Arrow + to;
    LastArrowOf(seg, to);
    assert s[|seg|] == '-';
    assert IndexOf(s, '-') == |seg|;
  }

  lemma SegmentWithDash(seg: string, to: string)
    requires !HasArrow(to)
    requires 0 <= IndexOf(seg, '-')
    ensures var i := IndexOf(seg, '-');
      MatchLink(seg + Arrow + to)
        == if !NoNewline(seg[i + 1..] + Arrow + to) then None
           else Some(LinkMatch(seg[..i], seg[i + 1..], to))
  {
    var i := IndexOf(seg, '-');
    var rest := seg[i + 1..] + Arrow + to;
    if NoNewline(rest) {
      var text := seg[i + 1..];
      SegmentParts(seg, i, to);
      assert seg + Arrow + to == seg[..i] + "-" + text + Arrow + to;
      MatchLinkExact(seg[..i], text, to);
    } else {
      SegmentNewline(seg, to);
    }
  }

  lemma SegmentParts(seg: string, i: int, to: string)
    requires i == IndexOf(seg, '-') && 0 <= i
    requires NoNewline(seg[i + 1..] + Arrow + to)
    ensures NoDash(seg[..i]) && NoNewline(seg[i + 1..]) && NoNewline(to)
    ensures seg == seg[..i] + "-" + seg[i + 1..]
  {
    var rest := seg[i + 1..] + Arrow + to;
    var front, text := seg[..i], seg[i + 1..];
    forall j | 0 <= j < i ensures front[j] != '-' {
      assert front[j] == seg[j];
    }
    forall j | 0 <= j < |text| ensures text[j] != '\n' {
      assert text[j] == rest[j];
    }
    forall j | 0 <= j < |to| ensures to[j] != '\n' {
      assert to[j] == rest[|text| + 2 + j];
    }
    assert seg == front + seg[i..i + 1] + text;
  }

  lemma SegmentNewline(seg: string, to: string)
    requires 0 <= IndexOf(seg, '-')
    requires !NoNewline(seg[IndexOf(seg, '-') + 1..] + Arrow + to)
    ensures MatchLink(seg + Arrow + to) == None
  {
    var s := seg + Arrow + to;
    var i := IndexOf(seg, '-');
    PrefixIndex(seg, Arrow + to, '-');
    assert s == seg + (Arrow + to);
    var j := NewlinePosition(seg, to);
    NewlineAfterDash(s, i, j);
  }

  /** Where the newline of the tail sits in the whole text. */
  lemma NewlinePosition(seg: string, to: string) returns (j: int)
    requires 0 <= IndexOf(seg, '-')
    requires !NoNewline(seg[IndexOf(seg, '-') + 1..] + Arrow + to)
    ensures IndexOf(seg, '-') < j < |seg + Arrow + to| && (seg + Arrow + to)[j] == '\n'
  {
    var s := seg + Arrow + to;
    var i := IndexOf(seg, '-');
    var rest := seg[i + 1..] + Arrow + to;
    var k :| 0 <= k < |rest| && rest[k] == '\n';
    var m := |seg| - i - 1;
    if k < m {
      assert rest[k] == seg[i + 1 + k];
    } else {
      assert k >= m + 2;
      assert rest[k] == to[k - m - 2];
    }
    j := i + 1 + k;
  }

  /** A newline anywhere after the first dash defeats the pattern. */
  lemma NewlineAfterDash(s: string, i: int, j: int)
    requires 0 <= i == IndexOf(s, '-') && i < j < |s| && s[j] == '\n'
    ensures MatchLink(s) == None
  {
  }

  /** A character found in `a` is found at the same place in `a + b`. */
  lemma PrefixIndex(a: string, b: string, c: char)
    requires 0 <= IndexOf(a, c)
    ensures IndexOf(a + b, c) == IndexOf(a, c)
  {
    var i := IndexOf(a, c);
    assert (a + b)[i] == a[i];
    forall j | 0 <= j < i ensures (a + b)[j] != c {
      assert (a + b)[j] == a[j];
    }
  }

  /** Any text of the pattern's shape is matched: the pattern accepts all that its groups allow. */
  lemma MatchLinkComplete(src: string, text: string, to: string)
    requires NoDash(src) && NoNewline(text) && NoNewline(to)
    ensures MatchLink(src + "-" + text + Arrow + to).Some?
  {
    var s := src + "-" + text + Arrow + to;
    ShapePieces(src, text, to);
    assert ArrowAt(s, |src| + 1 + |text|);
  }

  /** Where the pieces of a text of the pattern's shape sit. */
  lemma ShapePieces(src: string, text: string, to: string)
    requires NoDash(src) && NoNewline(text) && NoNewline(to)
    ensures var s := src + "-" + text + Arrow + to;
      IndexOf(s, '-') == |src|
      && s[..|src|] == src && s[|src| + 1..|src| + 1 + |text|] == text && s[|src| + 3 + |text|..] == to
      && forall j :: |src| < j < |s| ==> s[j] != '\n'
  {
    var s := src + "-" + text + Arrow + to;
    var i := |src|;
    assert s[i] == '-';
    forall j | 0 <= j < i ensures s[j] != '-' {
      assert s[j] == src[j];
    }
    forall j | i < j < |s| ensures s[j] != '\n' {
      if j < i + 1 + |text| {
        assert s[j] == text[j - i - 1];
      } else if j >= i + 3 + |text| {
        assert s[j] == to[j - i - 3 - |text|];
      }
    }
  }

  /** When the target holds no arrow, the groups the pattern reports are exactly the given ones. */
  lemma MatchLinkExact(src: string, text: string, to: string)
    requires NoDash(src) && NoNewline(text) && NoNewline(to) && !HasArrow(to)
    ensures MatchLink(src + "-" + text + Arrow + to) == Some(LinkMatch(src, text, to))
  {
    var s := src + "-" + text + Arrow + to;
    ShapePieces(src, text, to);
    assert s == (src + "-" + text) + Arrow + to;
    LastArrowOf(src + "-" + text, to);
  }

  /** The final-state pattern: `(` + at least one character on one line + `)`. */
  function MatchFinal(s: string): (r: Option<string>)
    ensures r.Some? ==> s == "(" + r.value + ")" && r.value != [] && NoNewline(r.value)
  {
    if |s| >= 3 && s[0] == '(' && s[|s| - 1] == ')' && NoNewline(s[1..|s| - 1]) then
      assert s == s[..1] + s[1..|s| - 1] + s[|s| - 1..];
      Some(s[1..|s| - 1])
    else None
  }

  /** A parenthesised one-line name is recognised, and its name is what is inside. */
  lemma MatchFinalWrapped(name: string)
    requires name != [] && NoNewline(name)
    ensures MatchFinal("(" + name + ")") == Some(name)
  {
    var s := "(" + name + ")";
    assert s[1..|s| - 1] == name;
  }

  /** Text that does not start with `(` is never a final state. */
  lemma MatchFinalNeedsParen(s: string)
    requires s == [] || s[0] != '('
    ensures MatchFinal(s) == None
  {
  }

  /** How a state reference registers: `(X)` as `X` with the final flag, anything else as itself. */
  function StateRef(s: string): (r: (string, bool))
    ensures r.1 ==> s == "(" + r.0 + ")" && r.0 != []
    ensures !r.1 ==> r.0 == s && MatchFinal(s).None?
  {
    match MatchFinal(s)
    case Some(name) => (name, true)
    case None => (s, false)
  }

  /** A state name taken from text holding no arrow holds none either. */
  lemma StateRefNoArrow(s: string)
    requires !HasArrow(s)
    ensures !HasArrow(StateRef(s).0)
  {
    var (name, final) := StateRef(s);
    if final {
      forall k | ArrowAt(name, k) ensures false {
        assert ArrowAt(s, k + 1);
      }
    }
  }
}
