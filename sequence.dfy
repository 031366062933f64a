/**
 * The sequence diagram as a value: participants laid out left to right on
 * first mention, messages placed one below the other, and `loop`/`alt`
 * closures nested in a tree whose boxes are computed when they are closed.
 * The layout is driven by two cursors, `usedX` and `usedY`. Participants,
 * messages and closures are referred to by their index in their lists; a
 * closure's parent and the current (innermost open) closure are indices
 * into the closure list.
 */
module Sequence {
  import opened Wrappers
  import opened Text
  import opened SequenceSyntax

  const DiagramType: string := "sequenceDiagram"
  const ClosureEnd: string := "end"
  const AutoSequenceNumber: string := "autoSequenceNumber"
  const TitlePrefix: string := "Title:"
  const NotePrefix: string := "Note:"
  const ErrTypeUnknown: string := "diagram type is unkown"
  const ErrCloseBeforeStart: string := "close before start closure"
  const ErrUnclosed: string := "closures must be closed"
  const ErrUnableToParse: string := "unable to parse"

  /** `math.MaxInt32`, the start of the search for a closure's left edge. */
  const MaxInt32: int := 0x7fff_ffff
  /** The height taken by a closure's label and condition. */
  const ClosureLabelHeight: int := 20
  /** The width and the height of a self-call message. */
  const SelfCallWidth: int := 60
  const SelfCallHeight: int := 20

  datatype ClosureKind = Loop | Alt

  /** A participant: its label, the corner of its box and the x of its lifeline. */
  datatype Participant = Participant(name: string, x: int, y: int, llx: int)

  /** A message between two participants; `call` is false for a return message. */
  datatype Message = Message(source: nat, target: nat, text: string, call: bool,
                             x1: int, y1: int, x2: int, selfCall: bool)

  /**
   * A `loop` or `alt` closure: its box, its parent, whether it was closed,
   * its leftmost and rightmost participants, whether a self-call sits at the
   * rightmost one, and the last message added to it.
   */
  datatype Closure = Closure(kind: ClosureKind, condition: string, x: int, y: int, w: int, h: int,
                             parent: Option<nat>, closed: bool, lp: Option<nat>, rp: Option<nat>,
                             rSelfCall: bool, lastMessage: Option<nat>)

  datatype Model = Model(title: string, autoSequenceNumber: bool, participants: seq<Participant>,
                         closures: seq<Closure>, messages: seq<Message>, notes: seq<string>,
                         padding: int, titleHeight: int, noteHeight: int,
                         pWidth: int, pHeight: int, pMargin: int, cMargin: int, mMargin: int,
                         usedX: int, usedY: int, pY: int, lY: int, lY2: int, current: Option<nat>)

  /**
   * `New`: an empty diagram whose cursors stand below the title and the
   * participant boxes, at the left padding.
   */
  function New(padding: int, pWidth: int, pHeight: int, pMargin: int, cMargin: int, mMargin: int): (d: Model)
    ensures d.participants == [] && d.closures == [] && d.messages == [] && d.notes == [] && d.current == None
    ensures d.usedX == d.padding == padding && d.titleHeight == 24 && d.noteHeight == 16
    ensures d.pY == 2 * padding + d.titleHeight && d.usedY == d.lY == d.pY + pHeight
    ensures Valid(d)
  {
    var usedY := padding + 24;
    var pY := usedY + padding;
    var lY := pY + pHeight;
    Model([], false, [], [], [], [], padding, 24, 16, pWidth, pHeight, pMargin, cMargin, mMargin,
          padding, lY, pY, lY, 0, None)
  }

  function AddNote(d: Model, note: string): (r: Model)
    ensures r.notes == d.notes + [note]
    ensures r == d.(notes := r.notes)
  {
    d.(notes := d.notes + [note])
  }

  // ---------------------------------------------------------- invariant

  /**
   * Participants sit side by side: the first at the left padding, each
   * next one `pWidth + pMargin` further right, all at `pY`, with their
   * lifeline in the middle; `usedX` is the right edge of the last one.
   */
  predicate LaidOut(d: Model) {
    var ps := d.participants;
    Row(ps, d.padding, d.pY, d.pWidth, d.pMargin)
    && d.usedX == (if ps == [] then d.padding else ps[|ps| - 1].x + d.pWidth)
  }

  /** The participant boxes in a row from `left`, at height `y`, `width` wide and `margin` apart. */
  predicate Row(ps: seq<Participant>, left: int, y: int, width: int, margin: int) {
    (forall k :: 0 <= k < |ps| ==> ps[k].y == y && ps[k].llx == ps[k].x + Half(width))
    && (ps != [] ==> ps[0].x == left)
    && (forall k :: 0 < k < |ps| ==> ps[k].x == ps[k - 1].x + width + margin)
  }

  /** A box put `margin` right of the last one, or at `left` in an empty row, extends the row. */
  lemma RowAppend(ps: seq<Participant>, left: int, y: int, width: int, margin: int, p: Participant)
    requires Row(ps, left, y, width, margin)
    requires p.x == (if ps == [] then left else ps[|ps| - 1].x + width + margin)
    requires p.y == y && p.llx == p.x + Half(width)
    ensures Row(ps + [p], left, y, width, margin)
  {
    var ps' := ps + [p];
    forall k | 0 < k < |ps'| ensures ps'[k].x == ps'[k - 1].x + width + margin {
      if k < |ps| {
        assert ps'[k] == ps[k] && ps'[k - 1] == ps[k - 1];
      }
    }
  }

  predicate DistinctNames(ps: seq<Participant>) {
    forall i, j :: 0 <= i < j < |ps| ==> ps[i].name != ps[j].name
  }

  /** A message joins existing participants, starts and ends on their lifelines, and is a self-call iff it joins one to itself. */
  predicate MessageOk(ps: seq<Participant>, m: Message) {
    m.source < |ps| && m.target < |ps| && m.x1 == ps[m.source].llx && m.x2 == ps[m.target].llx
    && (m.selfCall <==> m.source == m.target)
  }

  predicate MessagesOk(ps: seq<Participant>, ms: seq<Message>) {
    forall k :: 0 <= k < |ms| ==> MessageOk(ps, ms[k])
  }

  /**
   * The closure `c`, at index `k`, has an earlier parent, and either no
   * message at all or a last message among the `nm` messages and both a
   * leftmost and a rightmost participant, the leftmost not to the right of
   * the rightmost.
   */
  predicate ClosureOk(ps: seq<Participant>, nm: nat, c: Closure, k: nat) {
    (c.parent.Some? ==> c.parent.value < k)
    && (c.lp.Some? <==> c.rp.Some?) && (c.lp.Some? <==> c.lastMessage.Some?)
    && (c.lp.Some? ==> c.lp.value < |ps| && c.rp.value < |ps| && ps[c.lp.value].x <= ps[c.rp.value].x)
    && (c.lastMessage.Some? ==> c.lastMessage.value < nm)
  }

  predicate ClosuresOk(ps: seq<Participant>, nm: nat, cs: seq<Closure>) {
    forall k :: 0 <= k < |cs| ==> ClosureOk(ps, nm, cs[k], k)
  }

  /** What every operation of the builder keeps. */
  predicate Valid(d: Model) {
    LaidOut(d) && DistinctNames(d.participants) && MessagesOk(d.participants, d.messages)
    && ClosuresOk(d.participants, |d.messages|, d.closures) && CurrentOk(d)
  }

  /** The current closure, if any, is in the list and keeps the closure invariant. */
  predicate CurrentOk(d: Model) {
    d.current.Some? ==> d.current.value < |d.closures|
                        && ClosureOk(d.participants, |d.messages|, d.closures[d.current.value], d.current.value)
  }

  /** Messages stay well linked when participants are only appended. */
  lemma MessagesOkExtend(ps: seq<Participant>, ps': seq<Participant>, ms: seq<Message>)
    requires MessagesOk(ps, ms) && |ps| <= |ps'| && ps'[..|ps|] == ps
    ensures MessagesOk(ps', ms)
  {
    forall k | 0 <= k < |ms| ensures MessageOk(ps', ms[k]) {
      assert MessageOk(ps, ms[k]);
      assert ps'[ms[k].source] == ps[ms[k].source] && ps'[ms[k].target] == ps[ms[k].target];
    }
  }

  /** Closures stay well linked when participants and messages are only appended. */
  lemma ClosuresOkExtend(ps: seq<Participant>, ps': seq<Participant>, nm: nat, nm': nat, cs: seq<Closure>)
    requires ClosuresOk(ps, nm, cs) && |ps| <= |ps'| && ps'[..|ps|] == ps && nm <= nm'
    ensures ClosuresOk(ps', nm', cs)
  {
    forall k | 0 <= k < |cs| ensures ClosureOk(ps', nm', cs[k], k) {
      assert ClosureOk(ps, nm, cs[k], k);
      if cs[k].lp.Some? {
        assert ps'[cs[k].lp.value] == ps[cs[k].lp.value] && ps'[cs[k].rp.value] == ps[cs[k].rp.value];
      }
    }
  }

  /** Replacing one closure by a well-linked one keeps the closures well linked. */
  lemma ClosuresOkUpdate(ps: seq<Participant>, nm: nat, cs: seq<Closure>, ci: nat, c: Closure)
    requires ClosuresOk(ps, nm, cs) && ci < |cs| && ClosureOk(ps, nm, c, ci)
    ensures ClosuresOk(ps, nm, cs[ci := c])
  {
    var cs' := cs[ci := c];
    forall k | 0 <= k < |cs'| ensures ClosureOk(ps, nm, cs'[k], k) {
      if k != ci {
        assert cs'[k] == cs[k];
      }
    }
  }

  // -------------------------------------------------------- participants

  /** The first participant at or after `i` with this label. */
  function FindFrom(ps: seq<Participant>, name: string, i: nat): (r: Option<nat>)
    requires i <= |ps|
    ensures r.Some? ==> i <= r.value < |ps| && ps[r.value].name == name
    ensures r.None? ==> forall j :: i <= j < |ps| ==> ps[j].name != name
    decreases |ps| - i
  {
    if i == |ps| then None
    else if ps[i].name == name then Some(i)
    else FindFrom(ps, name, i + 1)
  }

  /**
   * `addParticipant`: a known label gives back its participant and changes
   * nothing; a new one is appended right of the others (`pMargin` apart,
   * or at `usedX` for the first) and `usedX` moves to its right edge.
   */
  function AddParticipant(d: Model, name: string): (r: (Model, nat))
    ensures r.1 < |r.0.participants| && r.0.participants[r.1].name == name
    ensures FindFrom(d.participants, name, 0).Some? ==> r.0 == d
    ensures FindFrom(d.participants, name, 0).None? ==>
      var x := if d.participants == [] then d.usedX else d.usedX + d.pMargin;
      r.1 == |d.participants|
      && r.0 == d.(participants := d.participants + [Participant(name, x, d.pY, x + Half(d.pWidth))],
                   usedX := x + d.pWidth)
  {
    match FindFrom(d.participants, name, 0)
    case Some(i) => (d, i)
    case None =>
      var x := if |d.participants| != 0 then d.usedX + d.pMargin else d.usedX;
      var p := Participant(name, x, d.pY, x + Half(d.pWidth));
      (d.(participants := d.participants + [p], usedX := x + d.pWidth), |d.participants|)
  }

  /** Adding a participant keeps the invariant; participants already there are not moved. */
  lemma AddParticipantValid(d: Model, name: string)
    requires Valid(d)
    ensures Valid(AddParticipant(d, name).0)
    ensures AddParticipant(d, name).0.participants[..|d.participants|] == d.participants
  {
    var (r, i) := AddParticipant(d, name);
    var ps := d.participants;
    if FindFrom(ps, name, 0).None? {
      assert r.participants[..|ps|] == ps;
      MessagesOkExtend(ps, r.participants, d.messages);
      ClosuresOkExtend(ps, r.participants, |d.messages|, |d.messages|, d.closures);
      AppendLaidOut(d, name);
      AppendDistinct(d, name);
    }
  }

  lemma AppendLaidOut(d: Model, name: string)
    requires LaidOut(d) && FindFrom(d.participants, name, 0).None?
    ensures LaidOut(AddParticipant(d, name).0)
  {
    var ps := d.participants;
    var r := AddParticipant(d, name).0;
    var p := r.participants[|ps|];
    assert ps != [] ==> d.usedX == ps[|ps| - 1].x + d.pWidth;
    RowAppend(ps, d.padding, d.pY, d.pWidth, d.pMargin, p);
    assert r.participants == ps + [p];
  }

  lemma AppendDistinct(d: Model, name: string)
    requires DistinctNames(d.participants) && FindFrom(d.participants, name, 0).None?
    ensures DistinctNames(AddParticipant(d, name).0.participants)
  {
  }

  /** The participant given back is the only one with that label. */
  lemma AddParticipantOnce(d: Model, name: string)
    requires DistinctNames(d.participants)
    ensures var (r, i) := AddParticipant(d, name);
      forall j :: 0 <= j < |r.participants| && r.participants[j].name == name ==> j == i
  {
  }

  /** Adding the same label twice changes nothing the second time. */
  lemma AddParticipantIdempotent(d: Model, name: string)
    ensures var (r, i) := AddParticipant(d, name);
      AddParticipant(r, name) == (r, i)
  {
    var (r, i) := AddParticipant(d, name);
    if FindFrom(d.participants, name, 0).None? {
      FindFromIs(r.participants, name, 0, i);
    }
  }

  /** The search finds the first participant with the label. */
  lemma {:induction false} FindFromIs(ps: seq<Participant>, name: string, i: nat, k: nat)
    requires i <= k < |ps| && ps[k].name == name
    requires forall j :: i <= j < k ==> ps[j].name != name
    ensures FindFrom(ps, name, i) == Some(k)
    decreases k - i
  {
    if i < k {
      FindFromIs(ps, name, i + 1, k);
    }
  }

  /** When boxes and margins have room between them, participants stand strictly left to right in list order. */
  lemma ParticipantsOrdered(d: Model, i: nat, j: nat)
    requires Valid(d) && d.pWidth + d.pMargin > 0
    requires i < j < |d.participants|
    ensures d.participants[i].x < d.participants[j].x
    decreases j - i
  {
    if i + 1 < j {
      ParticipantsOrdered(d, i, j - 1);
    }
  }

  // ------------------------------------------------------------ closures

  /**
   * `closure.addMessage`: the message becomes the closure's last one, its
   * two participants ordered by x. The first message sets both edges; a
   * message reaching further left moves only the left edge, even when it
   * also reaches further right; one reaching only further right moves the
   * right edge and takes its self-call flag; one ending at the right edge
   * sets the flag if it was not set.
   */
  function ClosureAddMessage(c: Closure, ps: seq<Participant>, m: Message, mi: nat): (r: Closure)
    requires m.source < |ps| && m.target < |ps|
    requires c.lp.Some? <==> c.rp.Some?
    requires c.lp.Some? ==> c.lp.value < |ps| && c.rp.value < |ps|
    ensures r.lastMessage == Some(mi) && r.lp.Some? && r.rp.Some?
    ensures r == c.(lp := r.lp, rp := r.rp, rSelfCall := r.rSelfCall, lastMessage := r.lastMessage)
    ensures r.lp.value < |ps| && r.rp.value < |ps|
    ensures c.lp.None? ==> ps[r.lp.value].x <= ps[r.rp.value].x
    ensures c.lp.Some? && ps[c.lp.value].x <= ps[c.rp.value].x ==> ps[r.lp.value].x <= ps[r.rp.value].x
  {
    var (l, rt) := if ps[m.source].x > ps[m.target].x then (m.target, m.source) else (m.source, m.target);
    var c1 := c.(lastMessage := Some(mi));
    if c.lp.None? then c1.(lp := Some(l), rp := Some(rt), rSelfCall := m.selfCall)
    else if ps[l].x < ps[c.lp.value].x then c1.(lp := Some(l))
    else if ps[rt].x > ps[c.rp.value].x then c1.(rp := Some(rt), rSelfCall := m.selfCall)
    else if rt == c.rp.value && !c.rSelfCall then c1.(rSelfCall := m.selfCall)
    else c1
  }

  function Min(a: int, b: int): int {
    if a <= b then a else b
  }

  function Max(a: int, b: int): int {
    if a >= b then a else b
  }

  /**
   * The left edge is the true leftmost participant of the closure's
   * messages; the right edge never moves left and is the old one or the
   * right end of the new message.
   */
  lemma ClosureAddMessageEdges(c: Closure, ps: seq<Participant>, m: Message, mi: nat)
    requires m.source < |ps| && m.target < |ps|
    requires c.lp.Some? <==> c.rp.Some?
    requires c.lp.Some? ==> c.lp.value < |ps| && c.rp.value < |ps|
    ensures var r := ClosureAddMessage(c, ps, m, mi);
      var lo := Min(ps[m.source].x, ps[m.target].x);
      var hi := Max(ps[m.source].x, ps[m.target].x);
      (c.lp.None? ==> ps[r.lp.value].x == lo && ps[r.rp.value].x == hi && r.rSelfCall == m.selfCall)
      && (c.lp.Some? ==> ps[r.lp.value].x == Min(ps[c.lp.value].x, lo)
                         && ps[c.rp.value].x <= ps[r.rp.value].x
                         && (r.rp == c.rp || ps[r.rp.value].x == hi))
  {
  }

  /**
   * The quirk of `closure.addMessage`: a message that reaches further left
   * leaves the right edge and its self-call flag alone, even when it also
   * reaches further right than the right edge.
   */
  lemma FurtherLeftKeepsRight(c: Closure, ps: seq<Participant>, m: Message, mi: nat)
    requires m.source < |ps| && m.target < |ps|
    requires c.lp.Some? && c.rp.Some? && c.lp.value < |ps| && c.rp.value < |ps|
    requires Min(ps[m.source].x, ps[m.target].x) < ps[c.lp.value].x
    ensures var r := ClosureAddMessage(c, ps, m, mi);
      r.rp == c.rp && r.rSelfCall == c.rSelfCall
      && (Max(ps[m.source].x, ps[m.target].x) > ps[c.rp.value].x ==> ps[r.rp.value].x < Max(ps[m.source].x, ps[m.target].x))
  {
  }

  /** A message reaching only further right moves the right edge to it and takes its self-call flag. */
  lemma FurtherRightMovesRight(c: Closure, ps: seq<Participant>, m: Message, mi: nat)
    requires m.source < |ps| && m.target < |ps|
    requires c.lp.Some? && c.rp.Some? && c.lp.value < |ps| && c.rp.value < |ps|
    requires ps[c.lp.value].x <= Min(ps[m.source].x, ps[m.target].x)
    requires Max(ps[m.source].x, ps[m.target].x) > ps[c.rp.value].x
    ensures var r := ClosureAddMessage(c, ps, m, mi);
      r.lp == c.lp && ps[r.rp.value].x == Max(ps[m.source].x, ps[m.target].x) && r.rSelfCall == m.selfCall
  {
  }

  /**
   * A message inside the edges keeps them; one whose right end is the
   * right edge sets the self-call flag when it was clear, and nothing
   * clears a set flag.
   */
  lemma InsideKeepsEdges(c: Closure, ps: seq<Participant>, m: Message, mi: nat)
    requires m.source < |ps| && m.target < |ps|
    requires c.lp.Some? && c.rp.Some? && c.lp.value < |ps| && c.rp.value < |ps|
    requires ps[c.lp.value].x <= Min(ps[m.source].x, ps[m.target].x)
    requires Max(ps[m.source].x, ps[m.target].x) <= ps[c.rp.value].x
    ensures var r := ClosureAddMessage(c, ps, m, mi);
      r.lp == c.lp && r.rp == c.rp
      && r.rSelfCall == (c.rSelfCall || (m.selfCall && (if ps[m.source].x > ps[m.target].x then m.source else m.target) == c.rp.value))
  {
  }

  // ------------------------------------------------------------ messages

  /**
   * `addMessage`: register the source and then the target participant,
   * put the message `mMargin` below the cursor and move the cursor to it
   * (20 further for a self-call), and add the message to the current
   * closure only.
   */
  function AddMessage(d: Model, source: string, target: string, text: string, call: bool): (r: Model)
    requires Valid(d)
  {
    var p1 := AddParticipant(d, source);
    AddParticipantValid(d, source);
    var p2 := AddParticipant(p1.0, target);
    AddParticipantValid(p1.0, target);
    PlaceMessage(p2.0, NewMessage(p2.0, p1.1, p2.1, text, call, source == target))
  }

  /** The message from the participant at `f` to the one at `t`, `mMargin` below the cursor. */
  function NewMessage(d: Model, f: nat, t: nat, text: string, call: bool, selfCall: bool): (m: Message)
    requires f < |d.participants| && t < |d.participants|
    ensures m.source == f && m.target == t && m.y1 == d.usedY + d.mMargin
  {
    Message(f, t, text, call, d.participants[f].llx, d.usedY + d.mMargin, d.participants[t].llx, selfCall)
  }

  /** The second half of `addMessage`: append the message, move the cursor, and hand the message to the current closure. */
  function PlaceMessage(d: Model, m: Message): (r: Model)
    requires CurrentOk(d) && m.source < |d.participants| && m.target < |d.participants|
  {
    var r := d.(messages := d.messages + [m], usedY := m.y1 + if m.selfCall then SelfCallHeight else 0);
    match d.current
    case None => r
    case Some(ci) =>
      r.(closures := r.closures[ci := ClosureAddMessage(r.closures[ci], r.participants, m, |d.messages|)])
  }

  /**
   * The message added last joins the participants labelled `source` and
   * `target`, sits `mMargin` below the old cursor, is a self-call iff the
   * two labels are equal, and becomes the last message of the current
   * closure; no other closure changes and the cursor ends at the message
   * (20 further for a self-call).
   */
  lemma AddMessageSpec(d: Model, source: string, target: string, text: string, call: bool)
    requires Valid(d)
    ensures var r := AddMessage(d, source, target, text, call);
      var n := |d.messages|;
      |r.messages| == n + 1 && r.messages[..n] == d.messages
      && r.participants[..|d.participants|] == d.participants
      && var m := r.messages[n];
      m.source < |r.participants| && m.target < |r.participants|
      && r.participants[m.source].name == source && r.participants[m.target].name == target
      && m.text == text && m.call == call && m.y1 == d.usedY + d.mMargin
      && m.selfCall == (source == target)
      && r.usedY == m.y1 + (if m.selfCall then SelfCallHeight else 0)
      && r.current == d.current && |r.closures| == |d.closures|
      && (forall k :: 0 <= k < |d.closures| && Some(k) != d.current ==> r.closures[k] == d.closures[k])
      && (d.current.Some? ==>
            r.closures[d.current.value].lastMessage == Some(n)
            && r.closures[d.current.value] == ClosureAddMessage(d.closures[d.current.value], r.participants, m, n))
  {
    var p1 := AddParticipant(d, source);
    AddParticipantValid(d, source);
    AddParticipantKeeps(d, source);
    var p2 := AddParticipant(p1.0, target);
    AddParticipantValid(p1.0, target);
    AddParticipantKeeps(p1.0, target);
    var d2 := p2.0;
    var m := NewMessage(d2, p1.1, p2.1, text, call, source == target);
    assert d2.participants[p1.1] == p1.0.participants[p1.1];
    assert d2.participants[..|d.participants|] == d.participants by {
      assert p1.0.participants[..|d.participants|] == d.participants;
    }
    assert d2.closures == d.closures && d2.current == d.current && d2.messages == d.messages;
    assert AddMessage(d, source, target, text, call) == PlaceMessage(d2, m);
    PlaceMessageSpec(d2, m);
  }

  /** Adding a participant changes only the participants and `usedX`. */
  lemma AddParticipantKeeps(d: Model, name: string)
    ensures var r := AddParticipant(d, name).0;
      r == d.(participants := r.participants, usedX := r.usedX)
  {
  }

  /** Placing a message appends it, moves the cursor to it, and updates the current closure only. */
  lemma PlaceMessageSpec(d: Model, m: Message)
    requires Valid(d) && m.source < |d.participants| && m.target < |d.participants|
    ensures var r := PlaceMessage(d, m);
      var n := |d.messages|;
      r.messages == d.messages + [m] && r.participants == d.participants
      && r.usedY == m.y1 + (if m.selfCall then SelfCallHeight else 0)
      && r.current == d.current && |r.closures| == |d.closures|
      && (forall k :: 0 <= k < |d.closures| && Some(k) != d.current ==> r.closures[k] == d.closures[k])
      && (d.current.Some? ==>
            r.closures[d.current.value].lastMessage == Some(n)
            && r.closures[d.current.value] == ClosureAddMessage(d.closures[d.current.value], r.participants, m, n))
  {
  }

  /** `addMessage` keeps the invariant. */
  lemma AddMessageValid(d: Model, source: string, target: string, text: string, call: bool)
    requires Valid(d)
    ensures Valid(AddMessage(d, source, target, text, call))
  {
    var (d1, f) := AddParticipant(d, source);
    AddParticipantValid(d, source);
    AddParticipantOnce(d, source);
    var (d2, t) := AddParticipant(d1, target);
    AddParticipantValid(d1, target);
    AddParticipantOnce(d1, target);
    assert d2.participants[f] == d1.participants[f];
    var m := NewMessage(d2, f, t, text, call, source == target);
    assert MessageOk(d2.participants, m);
    PlaceMessageValid(d2, m);
    assert AddMessage(d, source, target, text, call) == PlaceMessage(d2, m);
  }

  /** Appending a well-linked message and handing it to the current closure keeps the invariant. */
  lemma PlaceMessageValid(d: Model, m: Message)
    requires Valid(d) && MessageOk(d.participants, m)
    ensures Valid(PlaceMessage(d, m))
  {
    MessagesOkAppend(d.participants, d.messages, m);
    ClosuresOkExtend(d.participants, d.participants, |d.messages|, |d.messages| + 1, d.closures);
    if d.current.Some? {
      PlaceInClosureValid(d, m);
    } else {
      PlaceOutsideValid(d, m);
    }
  }

  lemma PlaceInClosureValid(d: Model, m: Message)
    requires Valid(d) && MessageOk(d.participants, m) && d.current.Some?
    requires MessagesOk(d.participants, d.messages + [m])
    requires ClosuresOk(d.participants, |d.messages| + 1, d.closures)
    ensures Valid(PlaceMessage(d, m))
  {
    var ps, ms := d.participants, d.messages + [m];
    var ci := d.current.value;
    var c := ClosureAddMessage(d.closures[ci], ps, m, |d.messages|);
    ClosuresOkUpdate(ps, |ms|, d.closures, ci, c);
    var y := m.y1 + if m.selfCall then SelfCallHeight else 0;
    WithMessages(d, ms, d.closures[ci := c], y);
    assert PlaceMessage(d, m) == d.(messages := ms, closures := d.closures[ci := c], usedY := y);
  }

  lemma PlaceOutsideValid(d: Model, m: Message)
    requires Valid(d) && MessageOk(d.participants, m) && d.current.None?
    requires MessagesOk(d.participants, d.messages + [m])
    requires ClosuresOk(d.participants, |d.messages| + 1, d.closures)
    ensures Valid(PlaceMessage(d, m))
  {
    var y := m.y1 + if m.selfCall then SelfCallHeight else 0;
    WithMessages(d, d.messages + [m], d.closures, y);
    assert PlaceMessage(d, m) == d.(messages := d.messages + [m], closures := d.closures, usedY := y);
  }

  lemma MessagesOkAppend(ps: seq<Participant>, ms: seq<Message>, m: Message)
    requires MessagesOk(ps, ms) && MessageOk(ps, m)
    ensures MessagesOk(ps, ms + [m])
  {
    var ms' := ms + [m];
    forall k | 0 <= k < |ms'| ensures MessageOk(ps, ms'[k]) {
      if k < |ms| {
        assert ms'[k] == ms[k];
      }
    }
  }

  /** Replacing the messages and the closures by well-formed ones, as many closures as before, keeps the invariant. */
  lemma WithMessages(d: Model, ms: seq<Message>, cs: seq<Closure>, usedY: int)
    requires Valid(d) && MessagesOk(d.participants, ms) && ClosuresOk(d.participants, |ms|, cs)
    requires |cs| == |d.closures|
    ensures Valid(d.(messages := ms, closures := cs, usedY := usedY))
  {
    if d.current.Some? {
      assert ClosureOk(d.participants, |ms|, cs[d.current.value], d.current.value);
    }
  }

  // ------------------------------------------------------------ closures

  /**
   * `startClosure`: a new open closure, `cMargin` below the cursor, child
   * of the current one, becomes current; the cursor moves below its label.
   */
  function StartClosure(d: Model, kind: ClosureKind, condition: string): (r: Model)
    ensures |r.closures| == |d.closures| + 1 && r.closures[..|d.closures|] == d.closures
    ensures var c := r.closures[|d.closures|];
      c.kind == kind && c.condition == condition && c.y == d.usedY + d.cMargin && c.parent == d.current
      && !c.closed && c.lp.None? && c.rp.None? && c.lastMessage.None? && !c.rSelfCall
    ensures r.current == Some(|d.closures|) && r.usedY == d.usedY + d.cMargin + ClosureLabelHeight
    ensures r == d.(closures := r.closures, current := r.current, usedY := r.usedY)
  {
    var c := Closure(kind, condition, 0, d.usedY + d.cMargin, 0, 0, d.current, false, None, None, false, None);
    d.(closures := d.closures + [c], current := Some(|d.closures|), usedY := c.y + ClosureLabelHeight)
  }

  /** `startClosure` keeps the invariant. */
  lemma StartClosureValid(d: Model, kind: ClosureKind, condition: string)
    requires Valid(d)
    ensures Valid(StartClosure(d, kind, condition))
  {
    var r := StartClosure(d, kind, condition);
    var n := |d.closures|;
    forall k | 0 <= k < |r.closures| ensures ClosureOk(r.participants, |r.messages|, r.closures[k], k) {
      if k < n {
        assert r.closures[k] == d.closures[k];
        assert ClosureOk(d.participants, |d.messages|, d.closures[k], k);
      }
    }
  }

  /** Some closure has the closure at `p` as its parent. */
  predicate HasChild(cs: seq<Closure>, p: nat) {
    exists k :: 0 <= k < |cs| && cs[k].parent == Some(p)
  }

  /** The loop of `endClosure` for the left edge: the smallest x among `x` and the children of `p`. */
  function ChildLeft(cs: seq<Closure>, p: nat, x: int): (r: int)
    decreases |cs|
  {
    if cs == [] then x
    else
      var r := ChildLeft(cs[..|cs| - 1], p, x);
      var a := cs[|cs| - 1];
      if a.parent == Some(p) && a.x < r then a.x else r
  }

  /** The loop of `endClosure` for the right edge: the largest right edge among `x2` and the children of `p`. */
  function ChildRight(cs: seq<Closure>, p: nat, x2: int): (r: int)
    decreases |cs|
  {
    if cs == [] then x2
    else
      var r := ChildRight(cs[..|cs| - 1], p, x2);
      var a := cs[|cs| - 1];
      if a.parent == Some(p) && a.x + a.w > r then a.x + a.w else r
  }

  /** The left fold is the minimum: below `x` and every child's x, and equal to one of them. */
  lemma {:induction false} ChildLeftBounds(cs: seq<Closure>, p: nat, x: int)
    ensures var r := ChildLeft(cs, p, x);
      r <= x && (forall k :: 0 <= k < |cs| && cs[k].parent == Some(p) ==> r <= cs[k].x)
      && (r == x || exists k :: 0 <= k < |cs| && cs[k].parent == Some(p) && cs[k].x == r)
    decreases |cs|
  {
    if cs != [] {
      var n := |cs| - 1;
      ChildLeftBounds(cs[..n], p, x);
      assert forall k :: 0 <= k < n ==> cs[..n][k] == cs[k];
    }
  }

  /** The right fold is the maximum: above `x2` and every child's right edge, and equal to one of them. */
  lemma {:induction false} ChildRightBounds(cs: seq<Closure>, p: nat, x2: int)
    ensures var r := ChildRight(cs, p, x2);
      r >= x2 && (forall k :: 0 <= k < |cs| && cs[k].parent == Some(p) ==> r >= cs[k].x + cs[k].w)
      && (r == x2 || exists k :: 0 <= k < |cs| && cs[k].parent == Some(p) && cs[k].x + cs[k].w == r)
    decreases |cs|
  {
    if cs != [] {
      var n := |cs| - 1;
      ChildRightBounds(cs[..n], p, x2);
      assert forall k :: 0 <= k < n ==> cs[..n][k] == cs[k];
    }
  }

  /** The closure at `ci` has neither a message nor a child, so `endClosure` discards it. */
  predicate Empty(cs: seq<Closure>, ci: nat)
    requires ci < |cs|
  {
    cs[ci].lastMessage.None? && !HasChild(cs, ci)
  }

  /** The box `endClosure` gives the non-empty closure at `ci`, closed. */
  function CloseBox(d: Model, ci: nat): (b: Closure)
    requires ci < |d.closures| && ClosureOk(d.participants, |d.messages|, d.closures[ci], ci)
    ensures b == d.closures[ci].(x := b.x, w := b.w, h := b.h, closed := true)
  {
    var c := d.closures[ci];
    var x := ChildLeft(d.closures, ci, if c.lp.Some? then d.participants[c.lp.value].llx else MaxInt32)
             - d.cMargin;
    var x2 := ChildRight(d.closures, ci, (if c.rp.Some? then d.participants[c.rp.value].llx else 0)
                                         + (if c.rSelfCall then SelfCallWidth else 0));
    var h := d.usedY + d.cMargin - c.y
             + if c.lastMessage.Some? && d.messages[c.lastMessage.value].selfCall then SelfCallHeight else 0;
    c.(x := x, w := x2 + d.cMargin - x, h := h, closed := true)
  }

  /**
   * `endClosure`: with no open closure, an error. An empty current
   * closure is dropped from the end of the list, the cursor goes back up by
   * what `startClosure` added, and its parent becomes current. Otherwise its
   * box is computed from its leftmost and rightmost participants and its
   * children, its height reaches `cMargin` below the cursor (20 more after
   * a closing self-call), it is marked closed, the cursor moves to its
   * bottom and its parent becomes current.
   */
  function EndClosure(d: Model): (r: Result<Model>)
    requires Valid(d)
    ensures r.Err? <==> d.current.None?
    ensures r.Err? ==> r.msg == ErrCloseBeforeStart
    ensures r.Ok? ==> Valid(r.value)
  {
    match d.current
    case None => Err(ErrCloseBeforeStart)
    case Some(ci) =>
      var c := d.closures[ci];
      if Empty(d.closures, ci) then
        DiscardValid(d, ci);
        Ok(Discard(d, ci))
      else
        CloseValid(d, ci);
        Ok(Close(d, ci))
  }

  /** The empty closure at `ci` dropped from the end of the list, the cursor back up, its parent current. */
  function Discard(d: Model, ci: nat): (r: Model)
    requires ci < |d.closures|
  {
    d.(usedY := d.usedY - (ClosureLabelHeight + d.cMargin), current := d.closures[ci].parent,
       closures := d.closures[..|d.closures| - 1])
  }

  /** The closure at `ci` replaced by its closed box, the cursor at its bottom, its parent current. */
  function Close(d: Model, ci: nat): (r: Model)
    requires ci < |d.closures| && ClosureOk(d.participants, |d.messages|, d.closures[ci], ci)
  {
    var b := CloseBox(d, ci);
    d.(closures := d.closures[ci := b], usedY := b.y + b.h, current := d.closures[ci].parent)
  }

  /** Dropping an empty current closure keeps the invariant. */
  lemma DiscardValid(d: Model, ci: nat)
    requires Valid(d) && d.current == Some(ci)
    ensures Valid(Discard(d, ci))
  {
    var c := d.closures[ci];
    assert ClosureOk(d.participants, |d.messages|, c, ci);
    ClosuresOkPrefix(d.participants, |d.messages|, d.closures);
    WithClosures(d, d.closures[..|d.closures| - 1], c.parent, d.usedY - (ClosureLabelHeight + d.cMargin));
  }

  lemma ClosuresOkPrefix(ps: seq<Participant>, nm: nat, cs: seq<Closure>)
    requires ClosuresOk(ps, nm, cs) && cs != []
    ensures ClosuresOk(ps, nm, cs[..|cs| - 1])
  {
    var cs' := cs[..|cs| - 1];
    forall k | 0 <= k < |cs'| ensures ClosureOk(ps, nm, cs'[k], k) {
      assert cs'[k] == cs[k];
    }
  }

  /** Replacing the closures by well-formed ones, with a current closure among them, keeps the invariant. */
  lemma WithClosures(d: Model, cs: seq<Closure>, current: Option<nat>, usedY: int)
    requires Valid(d) && ClosuresOk(d.participants, |d.messages|, cs)
    requires current.Some? ==> current.value < |cs|
    ensures Valid(d.(closures := cs, current := current, usedY := usedY))
  {
    if current.Some? {
      assert ClosureOk(d.participants, |d.messages|, cs[current.value], current.value);
    }
  }

  /** Closing the current closure with its box keeps the invariant. */
  lemma CloseValid(d: Model, ci: nat)
    requires Valid(d) && d.current == Some(ci)
    ensures ClosureOk(d.participants, |d.messages|, d.closures[ci], ci)
    ensures Valid(Close(d, ci))
  {
    var ps, nm := d.participants, |d.messages|;
    var c := d.closures[ci];
    assert ClosureOk(ps, nm, c, ci);
    var b := CloseBox(d, ci);
    ClosuresOkUpdate(ps, nm, d.closures, ci, b);
    WithClosures(d, d.closures[ci := b], c.parent, b.y + b.h);
  }

  /** Ending a closure that was just started, with nothing in it, gives back the diagram as it was before the start. */
  lemma DiscardUndoesStart(d: Model, kind: ClosureKind, condition: string)
    requires Valid(d)
    ensures EndClosure(StartClosure(d, kind, condition)) == Ok(d)
  {
    StartClosureValid(d, kind, condition);
    var s := StartClosure(d, kind, condition);
    var n := |d.closures|;
    assert !HasChild(s.closures, n) by {
      forall k | 0 <= k < |s.closures| ensures s.closures[k].parent != Some(n) {
        if k < n {
          assert s.closures[k] == d.closures[k];
          assert ClosureOk(d.participants, |d.messages|, d.closures[k], k);
        }
      }
    }
    assert Empty(s.closures, n);
    assert s.closures[..n] == d.closures;
  }

  /**
   * The box of a closed closure: its left edge is `cMargin` left of the
   * leftmost lifeline and of every child box, its right edge `cMargin`
   * right of the rightmost lifeline (60 further with a self-call there) and
   * of every child box, and each edge is set by one of them; its bottom
   * is `cMargin` below the cursor (20 more after a closing self-call).
   */
  lemma CloseBoxBounds(d: Model, ci: nat)
    requires ci < |d.closures| && ClosureOk(d.participants, |d.messages|, d.closures[ci], ci)
    requires !Empty(d.closures, ci)
    ensures var c := d.closures[ci];
      var b := CloseBox(d, ci);
      var ps := d.participants;
      var cs := d.closures;
      var left := b.x + d.cMargin;
      var right := b.x + b.w - d.cMargin;
      b == c.(x := b.x, w := b.w, h := b.h, closed := true)
      && (forall k :: 0 <= k < |cs| && cs[k].parent == Some(ci) ==> left <= cs[k].x && cs[k].x + cs[k].w <= right)
      && (c.lp.Some? ==> left <= ps[c.lp.value].llx
                         && ps[c.rp.value].llx + (if c.rSelfCall then SelfCallWidth else 0) <= right)
      && ((c.lp.Some? && left == ps[c.lp.value].llx) || (c.lp.None? && left == MaxInt32)
          || exists k :: 0 <= k < |cs| && cs[k].parent == Some(ci) && cs[k].x == left)
      && (right == (if c.rp.Some? then ps[c.rp.value].llx else 0) + (if c.rSelfCall then SelfCallWidth else 0)
          || exists k :: 0 <= k < |cs| && cs[k].parent == Some(ci) && cs[k].x + cs[k].w == right)
      && b.y + b.h == d.usedY + d.cMargin
                      + (if c.lastMessage.Some? && d.messages[c.lastMessage.value].selfCall then SelfCallHeight else 0)
  {
    var c := d.closures[ci];
    var x0 := if c.lp.Some? then d.participants[c.lp.value].llx else MaxInt32;
    ChildLeftBounds(d.closures, ci, x0);
    ChildRightBounds(d.closures, ci, (if c.rp.Some? then d.participants[c.rp.value].llx else 0)
                                     + (if c.rSelfCall then SelfCallWidth else 0));
  }

  /**
   * `endClosure` makes the parent current. Discarding moves the cursor up by
   * exactly what `startClosure` added; closing marks the closure closed and
   * never moves the cursor up when `cMargin` is not negative.
   */
  lemma EndClosureCursor(d: Model)
    requires Valid(d) && d.current.Some? && d.cMargin >= 0
    ensures var ci := d.current.value;
      var r := EndClosure(d).value;
      r.current == d.closures[ci].parent
      && (Empty(d.closures, ci) ==>
            r.usedY == d.usedY - (ClosureLabelHeight + d.cMargin) && r.closures == d.closures[..|d.closures| - 1])
      && (!Empty(d.closures, ci) ==>
            d.usedY + d.cMargin <= r.usedY && |r.closures| == |d.closures| && r.closures[ci].closed)
  {
    var ci := d.current.value;
    assert ClosureOk(d.participants, |d.messages|, d.closures[ci], ci);
    if !Empty(d.closures, ci) {
      CloseBoxBounds(d, ci);
    }
  }

  // ------------------------------------------------------------ parsing

  /** The error for a line no directive and no pattern accepts, with its number. */
  function LineError(n: int): string {
    "line " + IntToString(n) + ": " + ErrUnableToParse
  }

  /**
   * The loop of `parse` over the lines `ls`, the first of them numbered
   * `n`: blank lines are skipped but counted, the first non-blank line must
   * be the diagram type, then `autoSequenceNumber`, `end`, `Title:`,
   * `Note:`, message lines and closure starts are tried in that order. An
   * `end` without an open closure fails without a line number; a line
   * nothing accepts fails with its number.
   */
  function ParseFrom(d: Model, ls: seq<string>, n: int, blank: bool): (r: Result<Model>)
    requires Valid(d) && forall k :: 0 <= k < |ls| ==> OneLine(ls[k])
    ensures r.Ok? ==> Valid(r.value)
    ensures r.Err? ==> ((blank && r.msg == ErrTypeUnknown) || r.msg == ErrCloseBeforeStart
                        || exists k :: n <= k < n + |ls| && r.msg == LineError(k))
    decreases |ls|
  {
    if ls == [] then Ok(d)
    else
      var l := TrimSpace(ls[0]);
      TrimmedLineHasNoNewline(ls[0]);
      assert forall k :: 0 <= k < |ls[1..]| ==> ls[1..][k] == ls[k + 1];
      if l == [] then ParseFrom(d, ls[1..], n + 1, blank)
      else if blank then
        if l != DiagramType then Err(ErrTypeUnknown) else ParseFrom(d, ls[1..], n + 1, false)
      else
        match ParseLine(d, l, n)
        case Err(e) => Err(e)
        case Ok(d1) => ParseFrom(d1, ls[1..], n + 1, false)
  }

  /**
   * One non-blank line `l`, numbered `n`, after the type line: the
   * directives first, then a message, then a closure start.
   */
  function ParseLine(d: Model, l: string, n: int): (r: Result<Model>)
    requires Valid(d) && NoNewline(l)
    ensures r.Ok? ==> Valid(r.value)
    ensures r.Err? ==> r.msg == ErrCloseBeforeStart || r.msg == LineError(n)
  {
    if l == AutoSequenceNumber then Ok(d.(autoSequenceNumber := true))
    else if l == ClosureEnd then
      match EndClosure(d)
      case Err(e) => Err(e)
      case Ok(d1) => Ok(d1)
    else if HasPrefix(l, TitlePrefix) then Ok(d.(title := l[6..]))
    else if HasPrefix(l, NotePrefix) then Ok(AddNote(d, l[5..]))
    else ParseStatement(d, l, n)
  }

  /** A line that is no directive: a message if it matches, else a closure start, else an error with its number. */
  function ParseStatement(d: Model, l: string, n: int): (r: Result<Model>)
    requires Valid(d) && NoNewline(l)
    ensures r.Ok? ==> Valid(r.value)
    ensures r.Err? ==> r.msg == LineError(n)
  {
    match MatchMessage(l)
    case Some(m) =>
      var source, target, call := TrimSpace(m.source), TrimSpace(m.target), m.arrow == CallArrow;
      AddMessageValid(d, source, target, m.text, call);
      Ok(AddMessage(d, source, target, m.text, call))
    case None =>
      match MatchClosureStart(l)
      case Some((w, c)) =>
        var kind := if w == "alt" then Alt else Loop;
        StartClosureValid(d, kind, c);
        Ok(StartClosure(d, kind, c))
      case None => Err(LineError(n))
  }

  /**
   * `Parse` after the loop: only the first closure is checked to be
   * closed; then the lifelines end `mMargin` below the cursor, room is
   * made for the bottom participant boxes, the notes and the padding, and
   * the padding is added on the right.
   */
  function Finish(d: Model): (r: Result<Model>)
    ensures r.Err? <==> |d.closures| > 0 && !d.closures[0].closed
    ensures r.Err? ==> r.msg == ErrUnclosed
  {
    if |d.closures| > 0 && !d.closures[0].closed then Err(ErrUnclosed)
    else
      var lY2 := d.usedY + d.mMargin;
      var notesHeight := if |d.notes| > 0 then 40 + |d.notes| * (d.noteHeight + 4) else 0;
      Ok(d.(lY2 := lY2, usedY := lY2 + d.pHeight + notesHeight + d.padding, usedX := d.usedX + d.padding))
  }

  /** `Parse`: the line loop over the whole source, starting at line 1 before the type line, then the final check and sizing. */
  function Parse(d: Model, b: string): (r: Result<Model>)
    requires Valid(d)
    ensures r.Err? ==> (r.msg == ErrTypeUnknown || r.msg == ErrCloseBeforeStart || r.msg == ErrUnclosed
                        || exists k :: 1 <= k && r.msg == LineError(k))
  {
    match ParseLinesOf(d, b)
    case Err(e) => Err(e)
    case Ok(d1) => Finish(d1)
  }

  /** The line loop of `parse` over the whole source, starting at line 1 before the type line. */
  function ParseLinesOf(d: Model, b: string): (r: Result<Model>)
    requires Valid(d)
    ensures r.Ok? ==> Valid(r.value)
    ensures r.Err? ==> (r.msg == ErrTypeUnknown || r.msg == ErrCloseBeforeStart
                        || exists k :: 1 <= k && r.msg == LineError(k))
  {
    LinesAreSingle(b);
    ParseFrom(d, Lines(b), 1, true)
  }

  /** A source whose lines are all blank is accepted and leaves the diagram as it was. */
  lemma {:induction false} ParseBlank(d: Model, ls: seq<string>, n: int, blank: bool)
    requires Valid(d) && forall k :: 0 <= k < |ls| ==> OneLine(ls[k])
    requires forall k :: 0 <= k < |ls| ==> TrimSpace(ls[k]) == []
    ensures ParseFrom(d, ls, n, blank) == Ok(d)
    decreases |ls|
  {
    if ls != [] {
      ParseBlank(d, ls[1..], n + 1, blank);
    }
  }

  /** Blank lines before it aside, a first line other than the diagram type is rejected without a line number. */
  lemma {:induction false} ParseWrongType(d: Model, ls: seq<string>, n: int, m: nat)
    requires Valid(d) && forall k :: 0 <= k < |ls| ==> OneLine(ls[k])
    requires m < |ls| && forall k :: 0 <= k < m ==> TrimSpace(ls[k]) == []
    requires TrimSpace(ls[m]) != [] && TrimSpace(ls[m]) != DiagramType
    ensures ParseFrom(d, ls, n, true) == Err(ErrTypeUnknown)
    decreases m
  {
    if m > 0 {
      ParseWrongType(d, ls[1..], n + 1, m - 1);
    }
  }

  /** A blank line changes nothing but the line number. */
  lemma ParseBlankLine(d: Model, l: string, ls: seq<string>, n: int, blank: bool)
    requires Valid(d) && OneLine(l) && forall i :: 0 <= i < |ls| ==> OneLine(ls[i])
    requires TrimSpace(l) == []
    ensures ParseFrom(d, [l] + ls, n, blank) == ParseFrom(d, ls, n + 1, blank)
  {
    assert ([l] + ls)[0] == l && ([l] + ls)[1..] == ls;
  }

  /** Blank lines are skipped, and each of them still advances the line number: `k` is the number of the line after them. */
  lemma {:induction false} ParseSkipsBlank(d: Model, ls: seq<string>, n: int, blank: bool, m: nat, k: int)
    requires Valid(d) && forall i :: 0 <= i < |ls| ==> OneLine(ls[i])
    requires m <= |ls| && forall i :: 0 <= i < m ==> TrimSpace(ls[i]) == []
    requires k == n + m
    ensures ParseFrom(d, ls, n, blank) == ParseFrom(d, ls[m..], k, blank)
    decreases m
  {
    if m > 0 {
      var tail := ls[1..];
      assert forall i :: 0 <= i < |tail| ==> tail[i] == ls[i + 1];
      assert ls == [ls[0]] + tail;
      ParseBlankLine(d, ls[0], tail, n, blank);
      ParseSkipsBlank(d, tail, n + 1, blank, m - 1, k);
      assert tail[m - 1..] == ls[m..];
    } else {
      assert ls[m..] == ls;
    }
  }

  /**
   * After the type line and `m` blank lines, a line that is no directive
   * and matches neither pattern fails with the number `n + m`: the number
   * counts the blank lines before it.
   */
  lemma ParseErrorLine(d: Model, ls: seq<string>, n: int, m: nat)
    requires Valid(d) && forall k :: 0 <= k < |ls| ==> OneLine(ls[k])
    requires m < |ls| && forall k :: 0 <= k < m ==> TrimSpace(ls[k]) == []
    requires var l := TrimSpace(ls[m]);
      l != [] && l != AutoSequenceNumber && l != ClosureEnd && !HasPrefix(l, TitlePrefix) && !HasPrefix(l, NotePrefix)
      && NoNewline(l) && MatchMessage(l).None? && MatchClosureStart(l).None?
    ensures ParseFrom(d, ls, n, false) == Err(LineError(n + m))
  {
    var l, rest, j := ls[m], ls[m + 1..], n + m;
    ParseSkipsBlank(d, ls, n, false, m, j);
    SuffixCons(ls, m);
    assert forall k :: 0 <= k < |rest| ==> rest[k] == ls[m + 1 + k];
    ParseStep(d, l, rest, j);
    ParseLineUnmatched(d, TrimSpace(l), j);
    assert ParseFrom(d, [l] + rest, j, false) == Err(LineError(j));
  }

  /** Once the type line is read, a non-blank line is handled by `ParseLine` on its trimmed text, and a failure stops the loop. */
  lemma ParseStep(d: Model, l: string, ls: seq<string>, n: int)
    requires Valid(d) && OneLine(l) && forall k :: 0 <= k < |ls| ==> OneLine(ls[k])
    requires TrimSpace(l) != []
    ensures NoNewline(TrimSpace(l))
    ensures var r := ParseLine(d, TrimSpace(l), n);
      ParseFrom(d, [l] + ls, n, false) == if r.Err? then r else ParseFrom(r.value, ls, n + 1, false)
  {
    TrimmedLineHasNoNewline(l);
    assert ([l] + ls)[0] == l && ([l] + ls)[1..] == ls;
  }

  /** `end` with no open closure fails, and the error carries no line number. */
  lemma ParseEndBeforeStart(d: Model, n: int)
    requires Valid(d) && d.current.None?
    ensures ParseLine(d, ClosureEnd, n) == Err(ErrCloseBeforeStart)
    ensures ErrCloseBeforeStart != LineError(n)
  {
    assert ErrCloseBeforeStart[0] != LineError(n)[0];
  }

  /**
   * A line made of a source not ending in a dash, an arrow, a target
   * without dashes, a colon and a text without colons is a message between
   * the trimmed source and target, a call iff the arrow is `->>`, unless
   * the line starts like a title or a note.
   */
  lemma ParseLineMessage(d: Model, f: string, a: string, t: string, x: string, n: int)
    requires Valid(d)
    requires f != [] && f[|f| - 1] != '-'
    requires a == CallArrow || a == ReturnArrow
    requires t != [] && NoDash(t) && NoColon(x)
    requires NoNewline(f + a + t + ":" + x)
    requires !HasPrefix(f + a + t + ":" + x, TitlePrefix) && !HasPrefix(f + a + t + ":" + x, NotePrefix)
    ensures ParseLine(d, f + a + t + ":" + x, n) == Ok(AddMessage(d, TrimSpace(f), TrimSpace(t), x, a == CallArrow))
  {
    MatchMessageCompose(f, a, t, x);
    MessageLineNoKeyword(f, a, t, x);
  }

  /** A message line is neither `autoSequenceNumber` nor `end`: it holds a `>`. */
  lemma MessageLineNoKeyword(f: string, a: string, t: string, x: string)
    requires f != [] && (a == CallArrow || a == ReturnArrow) && t != []
    ensures var l := f + a + t + ":" + x; l != AutoSequenceNumber && l != ClosureEnd
  {
    var l := f + a + t + ":" + x;
    var g := |f| + |a| - 1;
    assert l[g] == a[|a| - 1] == '>';
    if |l| == |AutoSequenceNumber| {
      assert forall k :: 0 <= k < |AutoSequenceNumber| ==> AutoSequenceNumber[k] != '>';
    }
  }

  /**
   * A `loop` or `alt` line that is not also a message line opens a closure
   * of that kind with the rest of the line as its condition.
   */
  lemma ParseLineClosure(d: Model, w: string, c: string, n: int)
    requires Valid(d)
    requires (w == "loop" || w == "alt") && c != [] && NoNewline(w + " " + c)
    requires MatchMessage(w + " " + c).None?
    ensures ParseLine(d, w + " " + c, n) == Ok(StartClosure(d, if w == "alt" then Alt else Loop, c))
  {
    MatchClosureStartCompose(w, c);
    ClosureLineNoDirective(w, c);
  }

  /** A `loop` or `alt` line is no directive: its first two letters say so. */
  lemma ClosureLineNoDirective(w: string, c: string)
    requires (w == "loop" || w == "alt") && c != []
    ensures var l := w + " " + c;
      l != AutoSequenceNumber && l != ClosureEnd && !HasPrefix(l, TitlePrefix) && !HasPrefix(l, NotePrefix)
  {
    var l := w + " " + c;
    assert l[0] == w[0] && l[1] == w[1] && |l| > 4;
  }

  /** A line that is no directive and matches neither pattern fails with its own number. */
  lemma ParseLineUnmatched(d: Model, l: string, n: int)
    requires Valid(d) && NoNewline(l)
    requires l != AutoSequenceNumber && l != ClosureEnd && !HasPrefix(l, TitlePrefix) && !HasPrefix(l, NotePrefix)
    requires MatchMessage(l).None? && MatchClosureStart(l).None?
    ensures ParseLine(d, l, n) == Err(LineError(n))
  {
  }

  /** Different line numbers give different errors. */
  lemma LineErrorNumbers(j: int, k: int)
    requires LineError(j) == LineError(k)
    ensures j == k
  {
    var sj, sk := IntToString(j), IntToString(k);
    var p := "line ";
    var q := ": " + ErrUnableToParse;
    assert LineError(j) == p + sj + q && LineError(k) == p + sk + q;
    assert |sj| == |sk|;
    assert sj == LineError(j)[5..5 + |sj|];
    assert sk == LineError(k)[5..5 + |sk|];
    IntToStringRoundTrip(j);
    IntToStringRoundTrip(k);
  }

  /** Only the first closure is checked: a later top-level closure left open passes. */
  lemma FinishChecksFirstOnly(d: Model)
    requires |d.closures| > 1 && d.closures[0].closed && !d.closures[1].closed
    ensures Finish(d).Ok?
  {
  }

  /**
   * The final canvas: the lifelines end `mMargin` below the cursor the
   * loop left, the height leaves room under them for the bottom boxes, the
   * notes and the padding, the width is `usedX` plus the padding, and,
   * with non-negative widths and margins, every participant box lies
   * `padding` or more inside the right edge; nothing else changes.
   */
  lemma FinishCanvas(d: Model)
    requires Valid(d) && Finish(d).Ok? && d.pWidth >= 0 && d.pMargin >= 0
    ensures var r := Finish(d).value;
      r.lY2 == d.usedY + d.mMargin
      && r.usedY == r.lY2 + r.pHeight + r.padding + (if d.notes == [] then 0 else 40 + |d.notes| * (d.noteHeight + 4))
      && (forall k :: 0 <= k < |r.participants| ==> r.participants[k].x + r.pWidth + r.padding <= r.usedX)
      && r.usedX == d.usedX + d.padding
      && r == d.(lY2 := r.lY2, usedY := r.usedY, usedX := r.usedX)
  {
    var ps := d.participants;
    forall k | 0 <= k < |ps| ensures ps[k].x + d.pWidth <= d.usedX {
      ParticipantsMonotone(d, k, |ps| - 1);
    }
  }

  /** Participants stand left to right, allowing ties, when widths and margins are not negative. */
  lemma {:induction false} ParticipantsMonotone(d: Model, i: nat, j: nat)
    requires LaidOut(d) && d.pWidth >= 0 && d.pMargin >= 0
    requires i <= j < |d.participants|
    ensures d.participants[i].x <= d.participants[j].x
    decreases j - i
  {
    if i < j {
      ParticipantsMonotone(d, i, j - 1);
    }
  }
}
