/**
 * The sequence `Diagram` as the object the parser mutates: its fields are
 * updated in place by `addParticipant`, `addMessage`, `startClosure`,
 * `endClosure` and `addNote`, and the closures' `addMessage` updates the
 * current closure, kept here as an entry of the closure list. The loops of
 * `parse`, `addParticipant` and `endClosure` are written out, and every
 * method is proved to leave the diagram as the corresponding function of
 * `Sequence` describes.
 */
module SequenceImpl {
  import opened Wrappers
  import opened Text
  import opened SequenceSyntax
  import opened Sequence

  class Diagram {
    var title: string
    var autoSequenceNumber: bool
    var participants: seq<Participant>
    var closures: seq<Closure>
    var messages: seq<Message>
    var notes: seq<string>
    var padding: int
    var titleHeight: int
    var noteHeight: int
    var pWidth: int
    var pHeight: int
    var pMargin: int
    var cMargin: int
    var mMargin: int
    var usedX: int
    var usedY: int
    var pY: int
    var lY: int
    var lY2: int
    /** The index of the innermost open closure, if any. */
    var current: Option<nat>

    /** The diagram as a value. */
    function View(): Model
      reads this
    {
      Model(title, autoSequenceNumber, participants, closures, messages, notes, padding, titleHeight, noteHeight,
            pWidth, pHeight, pMargin, cMargin, mMargin, usedX, usedY, pY, lY, lY2, current)
    }

    /** `New`: the cursor is moved below the title and the participant boxes. */
    constructor (padding: int, pWidth: int, pHeight: int, pMargin: int, cMargin: int, mMargin: int)
      ensures View() == New(padding, pWidth, pHeight, pMargin, cMargin, mMargin)
    {
      title, autoSequenceNumber := [], false;
      participants, closures, messages, notes := [], [], [], [];
      this.padding, titleHeight, noteHeight := padding, 24, 16;
      this.pWidth, this.pHeight, this.pMargin, this.cMargin, this.mMargin := pWidth, pHeight, pMargin, cMargin, mMargin;
      usedX, usedY := padding, padding;
      lY2, current := 0, None;
      new;
      usedY := usedY + titleHeight;
      pY := usedY + this.padding;
      lY := pY + this.pHeight;
      usedY := lY;
    }

    method AddNote(note: string)
      modifies this
      ensures View() == Sequence.AddNote(old(View()), note)
    {
      notes := notes + [note];
    }

    /** `addParticipant`: the scan for the label, then a new participant right of the others. */
    method AddParticipant(name: string) returns (i: nat)
      modifies this
      ensures (View(), i) == Sequence.AddParticipant(old(View()), name)
    {
      var k := 0;
      while k < |participants|
        invariant 0 <= k <= |participants|
        invariant FindFrom(participants, name, 0) == FindFrom(participants, name, k)
      {
        if participants[k].name == name {
          return k;
        }
        k := k + 1;
      }
      var x := if |participants| != 0 then usedX + pMargin else usedX;
      participants := participants + [Participant(name, x, pY, x + Half(pWidth))];
      usedX := x + pWidth;
      return |participants| - 1;
    }

    /** `closure.addMessage` on the closure at `ci`, for the message at `mi`. */
    method AddToClosure(ci: nat, mi: nat)
      requires ci < |closures| && mi < |messages|
      requires messages[mi].source < |participants| && messages[mi].target < |participants|
      requires ClosureOk(participants, |messages|, closures[ci], ci)
      modifies this
      ensures View() == old(View()).(closures := old(closures[ci := ClosureAddMessage(closures[ci], participants, messages[mi], mi)]))
    {
      var c := closures[ci];
      var m := messages[mi];
      c := c.(lastMessage := Some(mi));
      var lp, rp := m.source, m.target;
      if participants[lp].x > participants[rp].x {
        lp, rp := rp, lp;
      }
      if c.lp.None? {
        c := c.(lp := Some(lp), rp := Some(rp), rSelfCall := m.selfCall);
      } else if participants[lp].x < participants[c.lp.value].x {
        c := c.(lp := Some(lp));
      } else if participants[rp].x > participants[c.rp.value].x {
        c := c.(rp := Some(rp), rSelfCall := m.selfCall);
      } else if rp == c.rp.value && !c.rSelfCall {
        c := c.(rSelfCall := m.selfCall);
      }
      closures := closures[ci := c];
    }

    /** `addMessage`: both participants, the message below the cursor, and the current closure told of it. */
    method AddMessage(source: string, target: string, text: string, call: bool)
      requires Valid(View())
      modifies this
      ensures View() == Sequence.AddMessage(old(View()), source, target, text, call)
    {
      ghost var d0 := View();
      AddParticipantValid(d0, source);
      var f := AddParticipant(source);
      ghost var d1 := View();
      AddParticipantValid(d1, target);
      var t := AddParticipant(target);
      ghost var d2 := View();
      var m := NewMessage(View(), f, t, text, call, source == target);
      assert Sequence.AddMessage(d0, source, target, text, call) == Sequence.PlaceMessage(d2, m);
      PlaceMessage(m);
    }

    /** The second half of `addMessage`: append the message, move the cursor, tell the current closure. */
    method PlaceMessage(m: Message)
      requires CurrentOk(View()) && m.source < |participants| && m.target < |participants|
      modifies this
      ensures View() == Sequence.PlaceMessage(old(View()), m)
    {
      ghost var d0 := View();
      messages := messages + [m];
      usedY := m.y1;
      if m.selfCall {
        usedY := usedY + SelfCallHeight;
      }
      ghost var d1 := View();
      assert d1 == d0.(messages := d0.messages + [m], usedY := m.y1 + if m.selfCall then SelfCallHeight else 0);
      if current.Some? {
        var ci := current.value;
        assert ClosureOk(participants, |d0.messages|, closures[ci], ci);
        AddToClosure(ci, |messages| - 1);
        assert View() == d1.(closures := d1.closures[ci := ClosureAddMessage(d1.closures[ci], participants, m, |d0.messages|)]);
      }
    }

    /** `startClosure`: a new open closure below the cursor becomes the current one. */
    method StartClosure(kind: ClosureKind, condition: string)
      modifies this
      ensures View() == Sequence.StartClosure(old(View()), kind, condition)
    {
      var c := Closure(kind, condition, 0, usedY + cMargin, 0, 0, current, false, None, None, false, None);
      closures := closures + [c];
      current := Some(|closures| - 1);
      usedY := c.y + ClosureLabelHeight;
    }

    /** The scan of `endClosure` for a closure whose parent is the one at `p`. */
    method HasDescendants(p: nat) returns (b: bool)
      ensures b == HasChild(closures, p)
    {
      for k := 0 to |closures|
        invariant forall j :: 0 <= j < k ==> closures[j].parent != Some(p)
      {
        if closures[k].parent == Some(p) {
          return true;
        }
      }
      return false;
    }

    /** The first loop of `endClosure`'s box: the smallest x among `x` and the children of `p`. */
    method LeftOfChildren(p: nat, x: int) returns (r: int)
      ensures r == ChildLeft(closures, p, x)
    {
      r := x;
      for k := 0 to |closures|
        invariant r == ChildLeft(closures[..k], p, x)
      {
        assert closures[..k + 1][..k] == closures[..k];
        var a := closures[k];
        if a.parent == Some(p) && a.x < r {
          r := a.x;
        }
      }
      assert closures[..|closures|] == closures;
    }

    /** The second loop of `endClosure`'s box: the largest right edge among `x2` and the children of `p`. */
    method RightOfChildren(p: nat, x2: int) returns (r: int)
      ensures r == ChildRight(closures, p, x2)
    {
      r := x2;
      for k := 0 to |closures|
        invariant r == ChildRight(closures[..k], p, x2)
      {
        assert closures[..k + 1][..k] == closures[..k];
        var a := closures[k];
        if a.parent == Some(p) && a.x + a.w > r {
          r := a.x + a.w;
        }
      }
      assert closures[..|closures|] == closures;
    }

    /**
     * `endClosure`: fail with no open closure, drop an empty one, or
     * compute the box of the current closure, close it and return to its
     * parent.
     */
    method EndClosure() returns (err: Option<string>)
      requires Valid(View())
      modifies this
      ensures err.Some? ==> Sequence.EndClosure(old(View())) == Err(err.value) && View() == old(View())
      ensures err.None? ==> Sequence.EndClosure(old(View())) == Ok(View())
    {
      if current.None? {
        return Some(ErrCloseBeforeStart);
      }
      var ci := current.value;
      var hasDescendants := HasDescendants(ci);
      if closures[ci].lastMessage.None? && !hasDescendants {
        Discard(ci);
      } else {
        Close(ci);
      }
      return None;
    }

    /** Drop the empty closure at `ci`, the last one, undoing what `startClosure` did. */
    method Discard(ci: nat)
      requires ci < |closures|
      modifies this
      ensures View() == Sequence.Discard(old(View()), ci)
    {
      usedY := usedY - (ClosureLabelHeight + cMargin);
      current := closures[ci].parent;
      closures := closures[..|closures| - 1];
    }

    /** Give the closure at `ci` its box, close it, and return to its parent. */
    method Close(ci: nat)
      requires ci < |closures| && ClosureOk(participants, |messages|, closures[ci], ci)
      modifies this
      ensures View() == Sequence.Close(old(View()), ci)
    {
      var b := Box(ci);
      current := closures[ci].parent;
      closures := closures[ci := b];
      usedY := b.y + b.h;
    }

    /** The box, height and closed flag `endClosure` gives the closure at `ci`. */
    method Box(ci: nat) returns (b: Closure)
      requires ci < |closures| && ClosureOk(participants, |messages|, closures[ci], ci)
      ensures b == CloseBox(View(), ci)
    {
      var c := closures[ci];
      var x := MaxInt32;
      if c.lp.Some? {
        x := participants[c.lp.value].llx;
      }
      x := LeftOfChildren(ci, x);
      var cx := x - cMargin;
      var x2 := 0;
      if c.rp.Some? {
        x2 := participants[c.rp.value].llx;
      }
      if c.rSelfCall {
        x2 := x2 + SelfCallWidth;
      }
      x2 := RightOfChildren(ci, x2);
      var h := usedY + cMargin - c.y;
      if c.lastMessage.Some? && messages[c.lastMessage.value].selfCall {
        h := h + SelfCallHeight;
      }
      b := c.(x := cx, w := x2 + cMargin - cx, h := h, closed := true);
    }

    /**
     * `parse`: read the source line by line, skip blank lines, check the
     * type line, then hand every other line to `ParseLine`; the first
     * failure ends the loop.
     */
    method ParseLines(b: string) returns (err: Option<string>)
      requires Valid(View())
      modifies this
      ensures err.None? ==> ParseLinesOf(old(View()), b) == Ok(View())
      ensures err.Some? ==> ParseLinesOf(old(View()), b) == Err(err.value)
    {
      ghost var d0 := View();
      var ls := Lines(b);
      LinesAreSingle(b);
      var lineNum := 0;
      var blank := true;
      while lineNum < |ls|
        invariant 0 <= lineNum <= |ls| && Valid(View())
        invariant forall k :: 0 <= k < |ls[lineNum..]| ==> OneLine(ls[lineNum..][k])
        invariant ParseFrom(View(), ls[lineNum..], lineNum + 1, blank) == ParseFrom(d0, ls, 1, true)
      {
        assert ls[lineNum + 1..] == ls[lineNum..][1..];
        lineNum := lineNum + 1;
        err, blank := ParseStep(ls[lineNum - 1..], lineNum, blank);
        if err.Some? {
          return;
        }
      }
      return None;
    }

    /** One pass of the loop of `parse`, on the first of the lines `ls`, numbered `n`. */
    method ParseStep(ls: seq<string>, n: int, blank: bool) returns (err: Option<string>, blank': bool)
      requires ls != [] && Valid(View()) && forall k :: 0 <= k < |ls| ==> OneLine(ls[k])
      modifies this
      ensures err.Some? ==> ParseFrom(old(View()), ls, n, blank) == Err(err.value)
      ensures err.None? ==> Valid(View())
                            && ParseFrom(old(View()), ls, n, blank) == ParseFrom(View(), ls[1..], n + 1, blank')
    {
      var l := TrimSpace(ls[0]);
      TrimmedLineHasNoNewline(ls[0]);
      blank' := blank;
      err := None;
      if l == [] {
      } else if blank {
        if l != DiagramType {
          return Some(ErrTypeUnknown), blank;
        }
        blank' := false;
      } else {
        err := ParseLine(l, n);
      }
    }

    /** A non-blank line after the type line: the directives, then a message, then a closure start. */
    method ParseLine(l: string, n: int) returns (err: Option<string>)
      requires Valid(View()) && NoNewline(l)
      modifies this
      ensures err.Some? ==> Sequence.ParseLine(old(View()), l, n) == Err(err.value)
      ensures err.None? ==> Sequence.ParseLine(old(View()), l, n) == Ok(View())
    {
      if l == AutoSequenceNumber {
        autoSequenceNumber := true;
      } else if l == ClosureEnd {
        err := EndClosure();
        return;
      } else if HasPrefix(l, TitlePrefix) {
        title := l[6..];
      } else if HasPrefix(l, NotePrefix) {
        AddNote(l[5..]);
      } else {
        err := ParseStatement(l, n);
        return;
      }
      return None;
    }

    /** A line that is no directive: a message, a closure start, or an error with the line number. */
    method ParseStatement(l: string, n: int) returns (err: Option<string>)
      requires Valid(View()) && NoNewline(l)
      modifies this
      ensures err.Some? ==> Sequence.ParseStatement(old(View()), l, n) == Err(err.value)
      ensures err.None? ==> Sequence.ParseStatement(old(View()), l, n) == Ok(View())
    {
      var m := MatchMessage(l);
      if m.Some? {
        AddMessage(TrimSpace(m.value.source), TrimSpace(m.value.target), m.value.text, m.value.arrow == CallArrow);
        return None;
      }
      var s := MatchClosureStart(l);
      if s.None? {
        return Some(LineError(n));
      }
      var kind := if s.value.0 == "alt" then Alt else Loop;
      StartClosure(kind, s.value.1);
      return None;
    }

    /**
     * `Parse`: the line loop, the check that the first closure is closed,
     * and the final canvas size.
     */
    method Parse(b: string) returns (err: Option<string>)
      requires Valid(View())
      modifies this
      ensures err.None? ==> Sequence.Parse(old(View()), b) == Ok(View())
      ensures err.Some? ==> Sequence.Parse(old(View()), b) == Err(err.value)
    {
      err := ParseLines(b);
      if err.Some? {
        return;
      }
      err := Finish();
    }

    /** The end of `Parse`: only the first closure is checked to be closed, then the canvas is sized. */
    method Finish() returns (err: Option<string>)
      modifies this
      ensures err.None? ==> Sequence.Finish(old(View())) == Ok(View())
      ensures err.Some? ==> Sequence.Finish(old(View())) == Err(err.value)
    {
      if |closures| > 0 && !closures[0].closed {
        return Some(ErrUnclosed);
      }
      lY2 := usedY + mMargin;
      usedY := lY2 + pHeight;
      if |notes| > 0 {
        usedY := usedY + 40 + |notes| * (noteHeight + 4);
      }
      usedX := usedX + padding;
      usedY := usedY + padding;
      return None;
    }
  }
}
