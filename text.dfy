/**
 * String helpers the diagram engine takes from Go's standard library:
 * `strings.TrimSpace`, `strings.HasPrefix`, `strings.Index`, `strings.Split`,
 * the line reader `bytes.Buffer.ReadString('\n')`, decimal `%d` formatting
 * and Go's truncating integer division by two.
 */
module Text {

  /** Go's `unicode.IsSpace`: the ASCII white space and the Unicode White_Space runes. */
  predicate IsSpace(c: char) {
    c == ' ' || c == '\t' || c == '\n' || c == '\U{000B}' || c == '\U{000C}' || c == '\r'
    || c == '\U{0085}' || c == '\U{00A0}' || c == '\U{1680}'
    || ('\U{2000}' <= c <= '\U{200A}')
    || c == '\U{2028}' || c == '\U{2029}' || c == '\U{202F}' || c == '\U{205F}' || c == '\U{3000}'
  }

  /** Index of the first non-space character (|s| when there is none). */
  function SpanStart(s: string): (i: nat)
    ensures i <= |s|
    ensures forall k :: 0 <= k < i ==> IsSpace(s[k])
    ensures i < |s| ==> !IsSpace(s[i])
  {
    if s == [] || !IsSpace(s[0]) then 0 else 1 + SpanStart(s[1..])
  }

  /** End of `s` once trailing spaces are dropped, never below `lo`. */
  function SpanEnd(s: string, lo: nat): (j: nat)
    requires lo <= |s|
    ensures lo <= j <= |s|
    ensures forall k :: j <= k < |s| ==> IsSpace(s[k])
    ensures j > lo ==> !IsSpace(s[j - 1])
    decreases |s|
  {
    if |s| == lo || !IsSpace(s[|s| - 1]) then |s| else SpanEnd(s[..|s| - 1], lo)
  }

  /** Go's `strings.TrimSpace`: the middle part of `s` between leading and trailing white space. */
  function TrimSpace(s: string): (r: string)
    ensures SpanStart(s) + |r| <= |s|
    ensures r == s[SpanStart(s)..SpanStart(s) + |r|]
    ensures r != [] ==> !IsSpace(r[0]) && !IsSpace(r[|r| - 1])
    ensures forall k :: 0 <= k < SpanStart(s) ==> IsSpace(s[k])
    ensures forall k :: SpanStart(s) + |r| <= k < |s| ==> IsSpace(s[k])
  {
    s[SpanStart(s)..SpanEnd(s, SpanStart(s))]
  }

  /** TrimSpace removes nothing more when applied twice. */
  lemma TrimSpaceIdempotent(s: string)
    ensures TrimSpace(TrimSpace(s)) == TrimSpace(s)
  {
    var r := TrimSpace(s);
    if r != [] {
      assert SpanStart(r) == 0;
      assert SpanEnd(r, 0) == |r|;
    }
  }

  /** A trailing white-space character does not move the start of the text. */
  lemma {:induction false} SpanStartAppend(s: string, c: char)
    requires IsSpace(c)
    ensures SpanStart(s + [c]) == if SpanStart(s) == |s| then |s| + 1 else SpanStart(s)
  {
    if s != [] {
      assert (s + [c])[0] == s[0] && (s + [c])[1..] == s[1..] + [c];
      if IsSpace(s[0]) {
        SpanStartAppend(s[1..], c);
      }
    }
  }

  /** TrimSpace ignores a trailing white-space character, such as the newline a line ends with. */
  lemma TrimSpaceAppendSpace(s: string, c: char)
    requires IsSpace(c)
    ensures TrimSpace(s + [c]) == TrimSpace(s)
  {
    var t := s + [c];
    SpanStartAppend(s, c);
    var i := SpanStart(s);
    if i < |s| {
      assert t[..|t| - 1] == s;
      var j := SpanEnd(s, i);
      assert SpanEnd(t, i) == j;
      assert TrimSpace(t) == t[i..j];
      assert t[i..j] == s[i..j];
    } else {
      assert SpanStart(t) == |t|;
      assert TrimSpace(t) == [] == TrimSpace(s);
    }
  }

  /** Go's `strings.Index` for a one-character needle (-1 when absent). */
  function IndexOf(s: string, c: char): (r: int)
    ensures -1 <= r < |s|
    ensures r >= 0 ==> s[r] == c
    ensures forall j :: 0 <= j < |s| && (r == -1 || j < r) ==> s[j] != c
  {
    if s == [] then -1
    else if s[0] == c then 0
    else
      var k := IndexOf(s[1..], c);
      if k < 0 then -1 else k + 1
  }

  /** Index of the last occurrence of `c` (-1 when absent). */
  function LastIndexOf(s: string, c: char): (r: int)
    ensures -1 <= r < |s|
    ensures r >= 0 ==> s[r] == c
    ensures forall j :: 0 <= j < |s| && r < j ==> s[j] != c
  {
    if s == [] then -1
    else if s[|s| - 1] == c then |s| - 1
    else LastIndexOf(s[..|s| - 1], c)
  }

  /** `sep` occurs in `s` at position `k`. */
  predicate OccursAt(s: string, sep: string, k: int) {
    0 <= k && k + |sep| <= |s| && s[k..k + |sep|] == sep
  }

  predicate Contains(s: string, sep: string) {
    exists k :: 0 <= k <= |s| && OccursAt(s, sep, k)
  }

  /** Go's `strings.Index`: the first position where `sep` occurs, or -1. */
  function Find(s: string, sep: string): (r: int)
    requires |sep| > 0
    ensures -1 <= r
    ensures r >= 0 ==> OccursAt(s, sep, r) && forall k :: 0 <= k < r ==> !OccursAt(s, sep, k)
    ensures r == -1 <==> !Contains(s, sep)
    decreases |s|
  {
    if |s| < |sep| then -1
    else if s[..|sep|] == sep then
      assert OccursAt(s, sep, 0);
      0
    else
      var r := Find(s[1..], sep);
      ShiftOccurrence(s, sep);
      assert !OccursAt(s, sep, 0);
      assert forall k :: 1 <= k && OccursAt(s, sep, k) ==> OccursAt(s[1..], sep, k - 1);
      if r < 0 then -1
      else
        assert OccursAt(s, sep, r + 1);
        r + 1
  }

  /** An occurrence in `s[1..]` is an occurrence in `s`, one position later. */
  lemma ShiftOccurrence(s: string, sep: string)
    requires s != []
    ensures forall k :: 0 <= k ==> (OccursAt(s[1..], sep, k) <==> OccursAt(s, sep, k + 1))
  {
    forall k | 0 <= k ensures OccursAt(s[1..], sep, k) <==> OccursAt(s, sep, k + 1) {
      if k + 1 + |sep| <= |s| {
        assert s[1..][k..k + |sep|] == s[k + 1..k + 1 + |sep|];
      }
    }
  }

  /** An occurrence in a prefix of `s` is an occurrence in `s`, and conversely when it fits. */
  lemma PrefixOccurrence(s: string, n: nat, sep: string)
    requires n <= |s|
    ensures forall k :: OccursAt(s[..n], sep, k) <==> OccursAt(s, sep, k) && k + |sep| <= n
  {
    forall k ensures OccursAt(s[..n], sep, k) <==> OccursAt(s, sep, k) && k + |sep| <= n {
      if 0 <= k && k + |sep| <= n {
        assert s[..n][k..k + |sep|] == s[k..k + |sep|];
      }
    }
  }

  /** Go's `strings.Split(s, sep)` for a non-empty separator. */
  function Split(s: string, sep: string): (r: seq<string>)
    requires |sep| > 0
    ensures |r| >= 1
    decreases |s|
  {
    var i := Find(s, sep);
    if i < 0 then [s] else [s[..i]] + Split(s[i + |sep|..], sep)
  }

  /** The inverse of `Split`: `strings.Join`. */
  function Join(parts: seq<string>, sep: string): string
    requires |parts| >= 1
  {
    if |parts| == 1 then parts[0] else parts[0] + sep + Join(parts[1..], sep)
  }

  /** `s` is its three consecutive slices put together. */
  lemma Slices3(s: string, i: nat, j: nat)
    requires i <= j <= |s|
    ensures s == s[..i] + s[i..j] + s[j..]
  {}

  /** The suffix of `s` from `i` is the element at `i` followed by the suffix after it. */
  lemma SuffixCons<T>(s: seq<T>, i: nat)
    requires i < |s|
    ensures s[i..] == [s[i]] + s[i + 1..]
  {}

  /** Joining the pieces of a split gives back the input. */
  lemma {:induction false} SplitJoin(s: string, sep: string)
    requires |sep| > 0
    ensures Join(Split(s, sep), sep) == s
    decreases |s|
  {
    var i := Find(s, sep);
    if i >= 0 {
      var rest := s[i + |sep|..];
      SplitJoin(rest, sep);
      SplitJoinStep(s, sep, i, rest);
    } else {
      assert Split(s, sep) == [s];
    }
  }

  lemma SplitJoinStep(s: string, sep: string, i: int, rest: string)
    requires |sep| > 0 && i == Find(s, sep) && i >= 0 && rest == s[i + |sep|..]
    requires Join(Split(rest, sep), sep) == rest
    ensures Join(Split(s, sep), sep) == s
  {
    var parts := Split(s, sep);
    assert parts == [s[..i]] + Split(rest, sep);
    assert Join(parts, sep) == s[..i] + sep + Join(Split(rest, sep), sep);
    assert s[i..i + |sep|] == sep;
    Slices3(s, i, i + |sep|);
  }

  /** No piece of a split holds the separator. */
  lemma {:induction false} SplitPiecesFree(s: string, sep: string)
    requires |sep| > 0
    ensures forall k :: 0 <= k < |Split(s, sep)| ==> !Contains(Split(s, sep)[k], sep)
    decreases |s|
  {
    var i := Find(s, sep);
    if i >= 0 {
      var rest := s[i + |sep|..];
      SplitPiecesFree(rest, sep);
      var parts := Split(s, sep);
      assert parts == [s[..i]] + Split(rest, sep);
      PrefixOccurrence(s, i, sep);
      assert !Contains(s[..i], sep);
      assert forall k :: 1 <= k < |parts| ==> parts[k] == Split(rest, sep)[k - 1];
    }
  }

  /** Go's `strings.HasPrefix`. */
  predicate HasPrefix(s: string, p: string) {
    |p| <= |s| && s[..|p|] == p
  }

  /** Length of the first line of `s`, its terminating newline included. */
  function FirstLineLength(s: string): (n: nat)
    requires s != []
    ensures 1 <= n <= |s|
    ensures forall j :: 0 <= j < n - 1 ==> s[j] != '\n'
    ensures n < |s| ==> s[n - 1] == '\n'
  {
    if s[0] == '\n' || |s| == 1 then 1 else 1 + FirstLineLength(s[1..])
  }

  /**
   * The strings that repeated `ReadString('\n')` calls return, in order, before the
   * call that returns "" at end of input: every piece keeps its terminating newline,
   * and the last one has none when the input does not end with a newline.
   */
  function Lines(s: string): (r: seq<string>)
    ensures forall k :: 0 <= k < |r| ==> r[k] != []
    decreases |s|
  {
    if s == [] then [] else [s[..FirstLineLength(s)]] + Lines(s[FirstLineLength(s)..])
  }

  /** A leading newline is a line of its own. */
  lemma LinesAfterNewline(rest: string)
    ensures Lines("\n" + rest) == ["\n"] + Lines(rest)
  {
    var s := "\n" + rest;
    assert FirstLineLength(s) == 1 && s[..1] == "\n" && s[1..] == rest;
  }

  function Concat(ls: seq<string>): string {
    if ls == [] then [] else ls[0] + Concat(ls[1..])
  }

  /** A line as the reader returns it: a newline, if any, only as its last character. */
  predicate OneLine(l: string) {
    forall j :: 0 <= j < |l| - 1 ==> l[j] != '\n'
  }

  /** Reading lines loses nothing: the lines put back together are the input. */
  lemma {:induction false} LinesConcat(s: string)
    ensures Concat(Lines(s)) == s
    decreases |s|
  {
    if s != [] {
      var n := FirstLineLength(s);
      LinesConcat(s[n..]);
      assert Lines(s)[1..] == Lines(s[n..]);
      assert s == s[..n] + s[n..];
    }
  }

  /** Every piece the reader returns is a single line. */
  lemma {:induction false} LinesAreSingle(s: string)
    ensures forall k :: 0 <= k < |Lines(s)| ==> OneLine(Lines(s)[k])
    decreases |s|
  {
    if s != [] {
      var n := FirstLineLength(s);
      LinesAreSingle(s[n..]);
      assert OneLine(s[..n]);
      assert forall k :: 1 <= k < |Lines(s)| ==> Lines(s)[k] == Lines(s[n..])[k - 1];
    }
  }

  /** A trimmed line has no newline left in it. */
  lemma TrimmedLineHasNoNewline(l: string)
    requires OneLine(l)
    ensures forall k :: 0 <= k < |TrimSpace(l)| ==> TrimSpace(l)[k] != '\n'
  {
    var r := TrimSpace(l);
    var i := SpanStart(l);
    forall k | 0 <= k < |r| ensures r[k] != '\n' {
      assert r[k] == l[i + k];
      if k == |r| - 1 {
        assert !IsSpace(r[k]);
      } else {
        assert i + k < |l| - 1;
      }
    }
  }

  // ---- decimal formatting (fmt's %d) and its inverse ----

  function DigitChar(d: nat): char
    requires d < 10
  {
    ('0' as int + d) as char
  }

  function DigitValue(c: char): int {
    if '0' <= c <= '9' then c as int - '0' as int else -1
  }

  /** The decimal digits of `n`, most significant first, without leading zeros. */
  function NatToString(n: nat): (r: string)
    ensures |r| >= 1
    ensures forall k :: 0 <= k < |r| ==> 0 <= DigitValue(r[k]) <= 9
  {
    if n < 10 then [DigitChar(n)] else NatToString(n / 10) + [DigitChar(n % 10)]
  }

  /** `%d` of an int: a minus sign before the digits of a negative value. */
  function IntToString(n: int): (r: string)
    ensures |r| >= 1 && (r[0] == '-' <==> n < 0)
    ensures forall k :: 0 <= k < |r| ==> r[k] == '-' || 0 <= DigitValue(r[k]) <= 9
  {
    if n < 0 then "-" + NatToString(-n) else NatToString(n)
  }

  /** Reads back a string of decimal digits. */
  function DigitsValue(s: string): int {
    if s == [] then 0 else 10 * DigitsValue(s[..|s| - 1]) + DigitValue(s[|s| - 1])
  }

  function ParseInt(s: string): int {
    if s != [] && s[0] == '-' then -DigitsValue(s[1..]) else DigitsValue(s)
  }

  lemma {:induction false} NatToStringRoundTrip(n: nat)
    ensures DigitsValue(NatToString(n)) == n
  {
    if n >= 10 {
      NatToStringRoundTrip(n / 10);
      var s := NatToString(n);
      assert s[..|s| - 1] == NatToString(n / 10);
    }
  }

  /** Formatting with %d can be read back: `IntToString` loses no information. */
  lemma IntToStringRoundTrip(n: int)
    ensures ParseInt(IntToString(n)) == n
  {
    if n < 0 {
      var t := NatToString(-n);
      NatToStringRoundTrip(-n);
      var s := "-" + t;
      assert s[0] == '-' && s[1..] == t;
    } else {
      var t := NatToString(n);
      NatToStringRoundTrip(n);
      assert DigitValue(t[0]) >= 0;
      assert t[0] != '-';
    }
  }

  /** Go's `a / 2` on int, which truncates toward zero. */
  function Half(a: int): (q: int)
    ensures a >= 0 ==> 0 <= a - 2 * q <= 1
    ensures a < 0 ==> -1 <= a - 2 * q <= 0
  {
    if a >= 0 then a / 2 else -((-a) / 2)
  }
}
