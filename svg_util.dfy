/**
 * The markup helpers of the `svg_util` package: attribute formatting
 * (`style`, `endstyle`, `loc`) and the `<text>` and `<marker>` openers that
 * are written straight to the SVG writer.
 */
module SvgUtil {
  import opened Text

  /** `style(s)`: an empty string stays empty, anything else becomes `style="s"`. */
  function Style(s: string): (r: string)
    ensures s == [] ==> r == []
    ensures s != [] ==> |r| == |s| + 8 && r[..7] == "style=\"" && r[7..|r| - 1] == s && r[|r| - 1] == '"'
  {
    if |s| > 0 then "style=\"" + s + "\"" else s
  }

  /** An entry whose first `=` comes after at least one character is a name="value" pair. */
  predicate IsPair(entry: string) {
    IndexOf(entry, '=') > 0
  }

  /** What `endstyle` appends for one entry: a pair verbatim plus a space, anything else through `style`. */
  function Attribute(entry: string): string {
    if IsPair(entry) then entry + " " else Style(entry)
  }

  /** The attributes of all entries, in order. */
  function Attributes(entries: seq<string>): string {
    if entries == [] then [] else Attributes(entries[..|entries| - 1]) + Attribute(entries[|entries| - 1])
  }

  /** The value `endstyle(s, endtag)` returns. */
  function EndStyleOf(entries: seq<string>, endtag: string): string {
    Attributes(entries) + endtag
  }

  /** With no entries `endstyle` returns the end tag unchanged. */
  lemma EndStyleEmpty(endtag: string)
    ensures EndStyleOf([], endtag) == endtag
  {
  }

  /**
   * The output always ends with the end tag, and it starts with the
   * contribution of every entry but the last, in order.
   */
  lemma EndStyleShape(entries: seq<string>, endtag: string)
    requires entries != []
    ensures var r := EndStyleOf(entries, endtag);
      |r| >= |endtag| && r[|r| - |endtag|..] == endtag
      && r == EndStyleOf(entries[..|entries| - 1], "") + Attribute(entries[|entries| - 1]) + endtag
  {
    var front := Attributes(entries[..|entries| - 1]);
    var last := Attribute(entries[|entries| - 1]);
    assert Attributes(entries) == front + last;
    assert EndStyleOf(entries[..|entries| - 1], "") == front by {
      assert front + "" == front;
    }
    var r := (front + last) + endtag;
    assert r[|front + last|..] == endtag;
  }

  /** A pair entry is copied as it is; any other non-empty entry is wrapped in a style attribute. */
  lemma AttributeCases(entry: string)
    ensures IsPair(entry) ==> Attribute(entry) == entry + " "
    ensures !IsPair(entry) && entry != [] ==> Attribute(entry)[..7] == "style=\""
    ensures entry == [] ==> Attribute(entry) == []
  {
    if entry == [] {
      assert IndexOf(entry, '=') == -1;
    }
  }

  /** `endstyle`: the loop that accumulates `nv`. */
  method EndStyle(entries: seq<string>, endtag: string) returns (r: string)
    ensures r == EndStyleOf(entries, endtag)
  {
    if |entries| > 0 {
      var nv := "";
      for i := 0 to |entries|
        invariant nv == Attributes(entries[..i])
      {
        if IndexOf(entries[i], '=') > 0 {
          nv := nv + entries[i] + " ";
        } else {
          nv := nv + Style(entries[i]);
        }
        assert entries[..i + 1][..i] == entries[..i];
      }
      assert entries[..|entries|] == entries;
      return nv + endtag;
    }
    return endtag;
  }

  /** The text of `loc` before the x value and between the two values. */
  const LocX: string := "x=\""
  const LocY: string := "\" y=\""

  /** No double quote occurs in `s`, so `s` cannot end an attribute value early. */
  predicate NoQuote(s: string) {
    forall k :: 0 <= k < |s| ==> s[k] != '"'
  }

  /**
   * `loc(x, y)`: the `x="…" y="…"` attribute pair in decimal; each
   * coordinate is read back from between its quotes, which hold no other quote.
   */
  function Loc(x: int, y: int): (r: string)
    ensures var a := |LocX| + |IntToString(x)|;
      var b := a + |LocY|;
      b < |r| && r[..|LocX|] == LocX && r[a..b] == LocY && r[|r| - 1] == '"'
      && ParseInt(r[|LocX|..a]) == x && NoQuote(r[|LocX|..a])
      && ParseInt(r[b..|r| - 1]) == y && NoQuote(r[b..|r| - 1])
  {
    IntToStringRoundTrip(x);
    IntToStringRoundTrip(y);
    NoQuoteInNumber(x);
    NoQuoteInNumber(y);
    TwoFields(LocX, IntToString(x), LocY, IntToString(y), "\"");
    LocX + IntToString(x) + LocY + IntToString(y) + "\""
  }

  /** Decimal digits and a minus sign hold no double quote. */
  lemma NoQuoteInNumber(n: int)
    ensures NoQuote(IntToString(n))
  {
    assert DigitValue('"') == -1;
  }

  /** Where the pieces of a concatenation of two tagged fields sit. */
  lemma TwoFields(head: string, v1: string, t2: string, v2: string, tail: string)
    ensures var r := head + v1 + t2 + v2 + tail;
      var a := |head| + |v1|;
      var b := a + |t2|;
      b + |v2| + |tail| == |r| && r[..|head|] == head && r[|head|..a] == v1
      && r[a..b] == t2 && r[b..b + |v2|] == v2 && r[b + |v2|..] == tail
  {
    var p1 := head + v1;
    var p2 := p1 + t2;
    var p3 := p2 + v2;
    var r := p3 + tail;
    assert r[|p3|..] == tail;
    PieceOf(r, p2, v2);
    PieceOf(r, p1, t2);
    PieceOf(r, head, v1);
  }

  /** The opening tag `Text` writes: location and attributes, up to and including `>`. */
  function TextOpener(x: int, y: int, entries: seq<string>): string {
    "<text " + Loc(x, y) + " " + EndStyleOf(entries, ">")
  }

  /** The markup `Text` writes: opener, the unescaped prefix, the escaped text, the closer. */
  function TextMarkup(x: int, y: int, prefix: string, t: string, entries: seq<string>,
                      escape: string -> string): string
  {
    TextOpener(x, y, entries) + prefix + escape(t) + TextCloser
  }

  const TextCloser: string := "</text>\n"

  /** The start of the marker opener, up to the opening quote of `refX`. */
  function MarkerHead(id: string, orient: string): string {
    "<marker id=\"" + id + "\" orient=\"" + orient + "\" refX=\""
  }

  /** The text between the numbers of the marker opener, and before its attributes. */
  const RefYSep: string := "\" refY=\""
  const WidthSep: string := "\" markerWidth=\""
  const HeightSep: string := "\" markerHeight=\""
  const AttrSep: string := "\" "

  /** The markup `Marker` writes: the marker opener with its attributes, ending in `>` and a newline. */
  function MarkerMarkup(id: string, x: int, y: int, width: int, height: int, orient: string,
                        entries: seq<string>): string
  {
    MarkerHead(id, orient) + IntToString(x) + RefYSep + IntToString(y) + WidthSep + IntToString(width)
      + HeightSep + IntToString(height) + AttrSep + EndStyleOf(entries, ">\n")
  }

  /**
   * The marker opener names its id and orientation, then the four numbers in
   * the order reference x, reference y, width, height, each readable back from
   * its quotes, and ends with the attributes and `>` and a newline.
   */
  lemma MarkerMarkupParts(id: string, x: int, y: int, width: int, height: int, orient: string,
                          entries: seq<string>)
    ensures var r := MarkerMarkup(id, x, y, width, height, orient, entries);
      var head := MarkerHead(id, orient);
      var a := |head| + |IntToString(x)|;
      var b := a + |RefYSep| + |IntToString(y)|;
      var c := b + |WidthSep| + |IntToString(width)|;
      var e := c + |HeightSep| + |IntToString(height)|;
      var tail := EndStyleOf(entries, ">\n");
      e + |AttrSep| + |tail| == |r| && r[..|head|] == head
      && ParseInt(r[|head|..a]) == x && r[a..a + |RefYSep|] == RefYSep
      && ParseInt(r[a + |RefYSep|..b]) == y && r[b..b + |WidthSep|] == WidthSep
      && ParseInt(r[b + |WidthSep|..c]) == width && r[c..c + |HeightSep|] == HeightSep
      && ParseInt(r[c + |HeightSep|..e]) == height && r[e..e + |AttrSep|] == AttrSep
      && r[e + |AttrSep|..] == tail
  {
    IntToStringRoundTrip(x);
    IntToStringRoundTrip(y);
    IntToStringRoundTrip(width);
    IntToStringRoundTrip(height);
    FourFields(MarkerHead(id, orient), IntToString(x), RefYSep, IntToString(y), WidthSep,
               IntToString(width), HeightSep, IntToString(height), AttrSep, EndStyleOf(entries, ">\n"));
  }

  /** Where the pieces of a concatenation of four tagged fields sit. */
  lemma FourFields(head: string, v1: string, t2: string, v2: string, t3: string, v3: string,
                   t4: string, v4: string, t5: string, tail: string)
    ensures var r := head + v1 + t2 + v2 + t3 + v3 + t4 + v4 + t5 + tail;
      var a := |head| + |v1|;
      var b := a + |t2| + |v2|;
      var c := b + |t3| + |v3|;
      var e := c + |t4| + |v4|;
      e + |t5| + |tail| == |r| && r[..|head|] == head && r[|head|..a] == v1
      && r[a..a + |t2|] == t2 && r[a + |t2|..b] == v2
      && r[b..b + |t3|] == t3 && r[b + |t3|..c] == v3
      && r[c..c + |t4|] == t4 && r[c + |t4|..e] == v4
      && r[e..e + |t5|] == t5 && r[e + |t5|..] == tail
  {
    var p1 := head + v1;
    var p2 := p1 + t2;
    var p3 := p2 + v2;
    var p4 := p3 + t3;
    var p5 := p4 + v3;
    var p6 := p5 + t4;
    var p7 := p6 + v4;
    var p8 := p7 + t5;
    var r := p8 + tail;
    assert r[|p8|..] == tail;
    PieceOf(r, p7, t5);
    PieceOf(r, p6, v4);
    PieceOf(r, p5, t4);
    PieceOf(r, p4, v3);
    PieceOf(r, p3, t3);
    PieceOf(r, p2, v2);
    PieceOf(r, p1, t2);
    PieceOf(r, head, v1);
  }

  /** A piece `v` that follows the prefix `p` of `r` sits right after it. */
  lemma PieceOf(r: string, p: string, v: string)
    requires p + v <= r
    ensures p <= r && r[|p|..|p| + |v|] == v
  {
    assert r[..|p| + |v|] == p + v;
    assert r[|p|..|p| + |v|] == (p + v)[|p|..];
  }


  /** The prefix goes out unescaped while the text goes through `escape`; nothing else is escaped. */
  lemma TextMarkupParts(x: int, y: int, prefix: string, t: string, entries: seq<string>,
                        escape: string -> string)
    ensures var r := TextMarkup(x, y, prefix, t, entries, escape);
      var head := TextOpener(x, y, entries);
      r[..|head|] == head
      && r[|head|..|head| + |prefix|] == prefix
      && r[|head| + |prefix|..|r| - 8] == escape(t)
      && r[|r| - 8..] == "</text>\n"
  {
    var head := TextOpener(x, y, entries);
    var r := TextMarkup(x, y, prefix, t, entries, escape);
    assert r == head + prefix + escape(t) + "</text>\n";
  }

  /** The output stream of an SVG canvas: everything written so far. */
  class Writer {
    var written: string

    constructor ()
      ensures written == []
    {
      written := [];
    }

    method Write(s: string)
      modifies this
      ensures written == old(written) + s
    {
      written := written + s;
    }
  }

  /** `Text`: writes the opener, the prefix, the escaped text and the closer, one after another. */
  method WriteText(w: Writer, x: int, y: int, prefix: string, t: string, entries: seq<string>,
                   escape: string -> string)
    modifies w
    ensures w.written == old(w.written) + TextMarkup(x, y, prefix, t, entries, escape)
  {
    var attrs := EndStyle(entries, ">");
    var opener := "<text " + Loc(x, y) + " " + attrs;
    assert opener == TextOpener(x, y, entries);
    var escaped := escape(t);
    ghost var before := w.written;
    w.Write(opener);
    w.Write(prefix);
    w.Write(escaped);
    w.Write(TextCloser);
    AppendFour(before, opener, prefix, escaped, TextCloser);
  }

  lemma AppendFour(s: string, a: string, b: string, c: string, d: string)
    ensures s + a + b + c + d == s + (a + b + c + d)
  {
  }

  /** `Marker`: writes the marker opener in one call. */
  method WriteMarker(w: Writer, id: string, x: int, y: int, width: int, height: int, orient: string,
                     entries: seq<string>)
    modifies w
    ensures w.written == old(w.written) + MarkerMarkup(id, x, y, width, height, orient, entries)
  {
    var attrs := EndStyle(entries, ">\n");
    w.Write("<marker id=\"" + id + "\" orient=\"" + orient + "\" refX=\"" + IntToString(x)
      + "\" refY=\"" + IntToString(y) + "\" markerWidth=\"" + IntToString(width)
      + "\" markerHeight=\"" + IntToString(height) + "\" " + attrs);
  }
}
