/**
 * The automata `Diagram` as the object the parser mutates: its fields are
 * updated in place by `addNote`, `addState`, `addLink` and `locate`, and
 * the loops of `Parse`, `parseLinkLine`, `getState`, `locate` and
 * `calculateStatesArea` are written out. Every method is proved to leave
 * the diagram as the corresponding function of `Automata` describes.
 */
module AutomataImpl {
  import opened Wrappers
  import opened Text
  import opened AutomataSyntax
  import opened Automata

  class Diagram {
    var title: string
    var states: seq<State>
    var links: seq<Link>
    var notes: seq<string>
    var padding: int
    var titleHeight: int
    var noteHeight: int
    var sr: int
    var sm: int
    /** The random points the placement fallback will draw, in order. */
    var samples: seq<Point>

    /** The diagram as a value. */
    function View(): Model
      reads this
    {
      Model(title, states, links, notes, padding, titleHeight, noteHeight, sr, sm, samples)
    }

    /** `New(padding, stateMargin)`. */
    constructor (padding: int, stateMargin: int, samples: seq<Point>)
      ensures View() == New(padding, stateMargin, samples)
    {
      title, states, links, notes := [], [], [], [];
      this.padding, titleHeight, noteHeight, sr, sm := padding, 24, 16, 16, stateMargin;
      this.samples := samples;
    }

    method AddNote(note: string)
      modifies this
      ensures View() == Automata.AddNote(old(View()), note)
    {
      notes := notes + [note];
    }

    /** `getState`: the scan for the first state with this name. */
    method GetState(name: string) returns (r: Option<nat>)
      ensures r == FindState(states, name)
    {
      var i := 0;
      while i < |states|
        invariant 0 <= i <= |states|
        invariant FindState(states, name) == FindFrom(states, name, i)
      {
        if states[i].name == name {
          return Some(i);
        }
        i := i + 1;
      }
      return None;
    }

    /** `addState`: OR the final flag into a known state, or append a new unplaced one. */
    method AddState(name: string, final: bool)
      modifies this
      ensures View() == Automata.AddState(old(View()), name, final)
    {
      var i := 0;
      while i < |states|
        invariant 0 <= i <= |states|
        invariant FindState(states, name) == FindFrom(states, name, i)
      {
        if states[i].name == name {
          if !states[i].final {
            states := states[i := states[i].(final := final)];
          }
          return;
        }
        i := i + 1;
      }
      states := states + [State(name, final, -1, -1)];
    }

    /** The inner loop of `locate`: no state sits at `p`. */
    method IsFree(p: Point) returns (free: bool)
      ensures free == !Occupied(states, p)
    {
      for i := 0 to |states|
        invariant forall j :: 0 <= j < i ==> !At(states[j], p)
      {
        if states[i].x == p.x && states[i].y == p.y {
          return false;
        }
      }
      return true;
    }

    /**
     * `locate`: try the 16 candidates in order, then the random draws, and
     * put state `s` on the first point no state occupies.
     */
    method Locate(s: nat, nearX: int, nearY: int)
      requires s < |states|
      modifies this
      ensures View() == Automata.Locate(old(View()), s, Point(nearX, nearY))
    {
      var c := Candidates(Point(nearX, nearY), sm);
      var tryCount := 0;
      while tryCount < 16
        invariant 0 <= tryCount <= 16 && View() == old(View())
        invariant FirstFree(c, states, 0) == FirstFree(c, states, tryCount)
      {
        var free := IsFree(c[tryCount]);
        if free {
          states := states[s := states[s].(x := c[tryCount].x, y := c[tryCount].y)];
          return;
        }
        tryCount := tryCount + 1;
      }
      var k := 0;
      while k < |samples|
        invariant 0 <= k <= |samples| && View() == old(View())
        invariant FirstFree(samples, states, 0) == FirstFree(samples, states, k)
      {
        var free := IsFree(samples[k]);
        if free {
          states := states[s := states[s].(x := samples[k].x, y := samples[k].y)];
          samples := samples[k + 1..];
          return;
        }
        k := k + 1;
      }
      samples := [];
    }

    /** `addLink`: place whichever ends are unplaced, then record the link. */
    method AddLink(src: string, dst: string, text: string)
      requires CanLink(View(), src, dst)
      modifies this
      ensures View() == Automata.AddLink(old(View()), src, dst, text)
    {
      var to := GetState(dst);
      var t := to.value;
      if src == [] {
        if states[t].x == -1 {
          Locate(t, 0, 0);
          links := links + [Link(None, t, text)];
        }
        return;
      }
      var from := GetState(src);
      var f := from.value;
      if states[f].x == -1 {
        if states[t].x == -1 {
          Locate(f, 0, 0);
          Locate(t, states[f].x, states[f].y);
        } else {
          Locate(f, states[t].x, states[t].y);
        }
      } else if states[t].x == -1 {
        Locate(t, states[f].x, states[f].y);
      }
      links := links + [Link(Some(f), t, text)];
    }

    /**
     * `parseLinkLine`: split on `->`, register the rightmost state, walk the
     * segments right to left registering sources and queueing links, then
     * add the queued links from last to first.
     */
    method ParseLinkLine(s: string) returns (err: Option<string>)
      modifies this
      ensures (View(), err) == Automata.ParseLinkLine(old(View()), s)
    {
      ghost var d0 := View();
      var t := Split(s, Arrow);
      var l := |t|;
      var to := t[l - 1];
      if l < 2 || to == [] {
        return Some(ErrSyntaxInvalid);
      }
      var (name, final) := StateRef(to);
      RightmostRegistered(d0, s);
      AddState(name, final);
      ghost var d1 := View();
      assert Automata.ParseLinkLine(d0, s) == Finish(d0, d1, t, name);
      var links, ok := ResolveSegments(t, name);
      if !ok {
        return Some(ErrSyntaxInvalid);
      }
      AddQueued(links);
      return None;
    }

    /** The right-to-left loop of `parseLinkLine` over the segments left of the rightmost state. */
    method ResolveSegments(t: seq<string>, name: string) returns (links: seq<LinkMatch>, ok: bool)
      requires |t| >= 1 && name != [] && Registered(states, name) && !HasArrow(name)
      requires forall j :: 0 <= j < |t| ==> !HasArrow(t[j])
      modifies this
      ensures (View(), if ok then Some(links) else None) == Resolve(old(View()), t, |t| - 1, name, [])
    {
      ghost var d1 := View();
      var to := name;
      links := [];
      var i := |t| - 2;
      while i > -1
        invariant -1 <= i <= |t| - 2
        invariant AllLinkable(View(), links)
        invariant to != [] ==> Registered(states, to)
        invariant !HasArrow(to)
        invariant Resolve(View(), t, i + 1, to, links) == Resolve(d1, t, |t| - 1, name, [])
      {
        if to == [] {
          return links, false;
        }
        SegmentTarget(t[i], to);
        var n := MatchLink(t[i] + Arrow + to);
        if n.None? {
          return links, false;
        }
        var m := n.value;
        to := m.source;
        if to != [] {
          var (name', final') := StateRef(to);
          ResolveStep(View(), m.target, links, m, name', final');
          to := name';
          AddState(name', final');
        }
        links := links + [LinkMatch(to, m.text, m.target)];
        i := i - 1;
      }
      return links, true;
    }

    /** The closing loop of `parseLinkLine`: `addLink` on the queued links from last to first. */
    method AddQueued(links: seq<LinkMatch>)
      requires AllLinkable(View(), links)
      modifies this
      ensures View() == AddLinks(old(View()), links)
    {
      ghost var d2 := View();
      var j := |links| - 1;
      assert links[..j + 1] == links;
      while j > -1
        invariant -1 <= j < |links|
        invariant AllLinkable(View(), links[..j + 1])
        invariant AddLinks(View(), links[..j + 1]) == AddLinks(d2, links)
      {
        var lm := links[j];
        AddLinksLast(View(), links[..j + 1]);
        assert links[..j + 1][..j] == links[..j];
        AddLink(lm.source, lm.target, lm.text);
        j := j - 1;
      }
      assert links[..0] == [];
    }

    /**
     * `Parse`: read the source line by line, skip blank lines, check the
     * type line, then handle `Title:`, `Note:` and link lines; a failing
     * link line is reported with its line number.
     */
    method Parse(b: string) returns (err: Option<string>)
      modifies this
      ensures err.None? ==> Automata.Parse(old(View()), b) == Ok(View())
      ensures err.Some? ==> Automata.Parse(old(View()), b) == Err(err.value)
    {
      ghost var d0 := View();
      var ls := Lines(b);
      assert Automata.Parse(d0, b) == ParseFrom(d0, ls, 1, true);
      assert ls[0..] == ls;
      var lineNum := 0;
      var blank := true;
      while lineNum < |ls|
        invariant 0 <= lineNum <= |ls|
        invariant ParseFrom(View(), ls[lineNum..], lineNum + 1, blank) == ParseFrom(d0, ls, 1, true)
      {
        lineNum := lineNum + 1;
        err, blank := ParseLine(ls, lineNum - 1, blank);
        if err.Some? {
          return;
        }
      }
      assert ls[lineNum..] == [];
      return None;
    }

    /** One pass of the loop of `Parse`, on the line `ls[k]`, numbered `k + 1`. */
    method ParseLine(ls: seq<string>, k: nat, blank: bool) returns (err: Option<string>, blank': bool)
      requires k < |ls|
      modifies this
      ensures err.Some? ==> ParseFrom(old(View()), ls[k..], k + 1, blank) == Err(err.value)
      ensures err.None? ==> ParseFrom(old(View()), ls[k..], k + 1, blank) == ParseFrom(View(), ls[k + 1..], k + 2, blank')
    {
      var l := TrimSpace(ls[k]);
      assert ls[k..][0] == ls[k] && ls[k..][1..] == ls[k + 1..];
      blank' := blank;
      err := None;
      if l == [] {
      } else if blank {
        if l != DiagramType {
          return Some(ErrTypeUnknown), blank;
        }
        blank' := false;
      } else if HasPrefix(l, TitlePrefix) {
        title := l[6..];
      } else if HasPrefix(l, NotePrefix) {
        AddNote(l[5..]);
      } else {
        var e := ParseLinkLine(l);
        if e.Some? {
          return Some(LineError(k + 1, e.value)), blank;
        }
      }
    }

    /** `calculateStatesArea`: the loop over the states, then the radius and half margin added. */
    method CalculateStatesArea() returns (leftX: int, rightX: int, topY: int, bottomY: int)
      ensures (leftX, rightX, topY, bottomY) == StatesArea(View())
    {
      leftX, rightX, topY, bottomY := 0, 0, 0, 0;
      for i := 0 to |states|
        invariant (leftX, rightX, topY, bottomY) == Extent(states[..i])
      {
        var s := states[i];
        if s.x < leftX {
          leftX := s.x;
        } else if s.x > rightX {
          rightX := s.x;
        }
        if s.y < topY {
          topY := s.y;
        } else if s.y > bottomY {
          bottomY := s.y;
        }
        assert states[..i + 1][..i] == states[..i];
      }
      assert states[..|states|] == states;
      return leftX - sr - Half(sm), rightX + sr, topY - sr - Half(sm), bottomY + sr;
    }

    /** The canvas size `Draw` starts the SVG with. */
    method CanvasSize() returns (usedX: int, usedY: int)
      ensures (usedX, usedY) == Automata.CanvasSize(View())
    {
      var leftX, rightX, topY, bottomY := CalculateStatesArea();
      usedX := padding + (rightX - leftX) + padding;
      usedY := padding + titleHeight + padding + (bottomY - topY) + padding;
      var notesStart := usedY + 40;
      if |notes| > 0 {
        usedY := notesStart + |notes| * (noteHeight + 4);
      }
    }
  }
}
