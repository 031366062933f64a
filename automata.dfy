/**
 * The automata diagram as a value: the state table, the links between
 * states, the placement routine `locate`, the chained-link line parser and
 * the integer sizing of the canvas. States are referred to by their index in
 * the state table; a link's source is `None` for the pseudo entry link.
 */
module Automata {
  import opened Wrappers
  import opened Text
  import opened AutomataSyntax

  const DiagramType: string := "automataDiagram"
  const TitlePrefix: string := "Title:"
  const NotePrefix: string := "Note:"
  const ErrSyntaxInvalid: string := "syntax invalid"
  const ErrTypeUnknown: string := "diagram type is unkown"

  /** A state; `x == -1` is what marks it as not placed yet (new states sit at `(-1, -1)`). */
  datatype State = State(name: string, final: bool, x: int, y: int)

  datatype Link = Link(source: Option<nat>, target: nat, text: string)

  datatype Point = Point(x: int, y: int)

  /**
   * The diagram. `samples` stands for the random points the placement
   * fallback draws, in the order it draws them.
   */
  datatype Model = Model(title: string, states: seq<State>, links: seq<Link>, notes: seq<string>,
                         padding: int, titleHeight: int, noteHeight: int, sr: int, sm: int,
                         samples: seq<Point>)

  /** `New(padding, stateMargin)`: an empty diagram with the fixed title, note and state sizes. */
  function New(padding: int, stateMargin: int, samples: seq<Point>): (d: Model)
    ensures d.title == [] && d.states == [] && d.links == [] && d.notes == []
    ensures d.padding == padding && d.sm == stateMargin && d.samples == samples
    ensures d.titleHeight == 24 && d.noteHeight == 16 && d.sr == 16
  {
    Model([], [], [], [], padding, 24, 16, 16, stateMargin, samples)
  }

  function AddNote(d: Model, note: string): (r: Model)
    ensures r.notes == d.notes + [note]
    ensures r == d.(notes := r.notes)
  {
    d.(notes := d.notes + [note])
  }

  // ---------------------------------------------------------------- states

  predicate Registered(states: seq<State>, name: string) {
    exists j :: 0 <= j < |states| && states[j].name == name
  }

  predicate UniqueNames(states: seq<State>) {
    forall i, j :: 0 <= i < j < |states| ==> states[i].name != states[j].name
  }

  predicate Unplaced(s: State) {
    s.x == -1 && s.y == -1
  }

  predicate At(s: State, p: Point) {
    s.x == p.x && s.y == p.y
  }

  /** No two states share a position, except unplaced ones. */
  predicate DistinctPositions(states: seq<State>) {
    forall i, j :: 0 <= i < j < |states| ==>
      states[i].x != states[j].x || states[i].y != states[j].y || (Unplaced(states[i]) && Unplaced(states[j]))
  }

  predicate LinksInRange(links: seq<Link>, n: nat) {
    forall k :: 0 <= k < |links| ==>
      links[k].target < n && (links[k].source.Some? ==> links[k].source.value < n)
  }

  /** What every operation keeps: one state per name, distinct positions, links between existing states. */
  predicate Valid(d: Model) {
    UniqueNames(d.states) && DistinctPositions(d.states) && LinksInRange(d.links, |d.states|)
  }

  /** `getState`: the first state with this name. */
  function FindState(states: seq<State>, name: string): (r: Option<nat>)
    ensures r.Some? ==> r.value < |states| && states[r.value].name == name
    ensures r.Some? ==> forall j :: 0 <= j < r.value ==> states[j].name != name
    ensures r.None? <==> !Registered(states, name)
  {
    FindFrom(states, name, 0)
  }

  function FindFrom(states: seq<State>, name: string, i: nat): (r: Option<nat>)
    requires i <= |states|
    ensures r.Some? ==> i <= r.value < |states| && states[r.value].name == name
    ensures r.Some? ==> forall j :: i <= j < r.value ==> states[j].name != name
    ensures r.None? ==> forall j :: i <= j < |states| ==> states[j].name != name
    decreases |states| - i
  {
    if i == |states| then None
    else if states[i].name == name then Some(i)
    else FindFrom(states, name, i + 1)
  }

  /** Two tables with the same names and final flags in the same order, positions aside. */
  predicate SameStates(a: seq<State>, b: seq<State>) {
    |a| == |b| && forall j :: 0 <= j < |a| ==> a[j].name == b[j].name && a[j].final == b[j].final
  }

  /** Moving states around does not change which state a name finds. */
  lemma FindStateSame(a: seq<State>, b: seq<State>, name: string)
    requires SameStates(a, b)
    ensures FindState(a, name) == FindState(b, name)
  {
    var ra, rb := FindState(a, name), FindState(b, name);
    assert ra.Some? ==> b[ra.value].name == name;
    assert rb.Some? ==> a[rb.value].name == name;
  }

  /**
   * `addState`: a known name only has its final flag OR'd with the new one;
   * an unknown name is appended, unplaced.
   */
  function AddState(d: Model, name: string, final: bool): (r: Model)
    ensures r == d.(states := r.states)
  {
    match FindState(d.states, name)
    case Some(j) => d.(states := d.states[j := d.states[j].(final := d.states[j].final || final)])
    case None => d.(states := d.states + [State(name, final, -1, -1)])
  }

  /**
   * After `AddState` the name is registered exactly once with the OR'd
   * final flag; every other state, and the position of this one, are as
   * before; and a new name gets a new, unplaced state at the end.
   */
  lemma AddStateSpec(d: Model, name: string, final: bool)
    requires UniqueNames(d.states)
    ensures var r := AddState(d, name, final);
      UniqueNames(r.states)
      && (Registered(d.states, name) ==>
            var j := FindState(d.states, name).value;
            |r.states| == |d.states|
            && r.states[j] == d.states[j].(final := d.states[j].final || final)
            && forall k :: 0 <= k < |d.states| && k != j ==> r.states[k] == d.states[k])
      && (!Registered(d.states, name) ==>
            r.states == d.states + [State(name, final, -1, -1)])
  {
    var r := AddState(d, name, final);
    if !Registered(d.states, name) {
      forall i, j | 0 <= i < j < |r.states| ensures r.states[i].name != r.states[j].name {
        if j == |d.states| {
          assert r.states[i] == d.states[i];
        }
      }
    }
  }

  /** Adding a state keeps the diagram valid, and every name known before stays known. */
  lemma AddStateValid(d: Model, name: string, final: bool)
    requires Valid(d)
    ensures var r := AddState(d, name, final);
      Valid(r) && Registered(r.states, name) && |d.states| <= |r.states|
      && forall k :: 0 <= k < |d.states| ==> r.states[k].name == d.states[k].name
  {
    AddStateSpec(d, name, final);
    var r := AddState(d, name, final);
    if !Registered(d.states, name) {
      assert r.states[|d.states|].name == name;
      forall i, j | 0 <= i < j < |r.states|
        ensures r.states[i].x != r.states[j].x || r.states[i].y != r.states[j].y
          || (Unplaced(r.states[i]) && Unplaced(r.states[j]))
      {
        if j < |d.states| {
          assert r.states[i] == d.states[i] && r.states[j] == d.states[j];
        }
      }
    } else {
      var j := FindState(d.states, name).value;
      assert r.states[j].name == name;
    }
  }

  // -------------------------------------------------------------- locate

  /**
   * The 16 points `locate` tries around `p`, in the order it tries them:
   * the four at distance `sm` on the axes, the four diagonals at `2sm`, then
   * the eight `(±3sm, ±sm)` / `(±sm, ±3sm)` knight-like offsets.
   */
  function Candidates(p: Point, sm: int): (c: seq<Point>)
    ensures |c| == 16
  {
    [Point(p.x + sm, p.y), Point(p.x, p.y + sm), Point(p.x, p.y - sm), Point(p.x - sm, p.y),
     Point(p.x + 2 * sm, p.y - 2 * sm), Point(p.x + 2 * sm, p.y + 2 * sm),
     Point(p.x - 2 * sm, p.y + 2 * sm), Point(p.x - 2 * sm, p.y - 2 * sm),
     Point(p.x + 3 * sm, p.y - sm), Point(p.x + 3 * sm, p.y + sm),
     Point(p.x + sm, p.y + 3 * sm), Point(p.x + sm, p.y - 3 * sm),
     Point(p.x - sm, p.y + 3 * sm), Point(p.x - sm, p.y - 3 * sm),
     Point(p.x - 3 * sm, p.y - sm), Point(p.x - 3 * sm, p.y + sm)]
  }

  /** With a non-zero margin the 16 candidates are 16 different points, none of them `p` itself. */
  lemma CandidatesDistinct(p: Point, sm: int)
    requires sm != 0
    ensures var c := Candidates(p, sm);
      (forall i, j :: 0 <= i < j < 16 ==> c[i] != c[j]) && forall i :: 0 <= i < 16 ==> c[i] != p
  {
  }

  /** Some state sits at `p`. */
  predicate Occupied(states: seq<State>, p: Point) {
    exists j :: 0 <= j < |states| && At(states[j], p)
  }

  /** The first point of `ps`, from index `k` on, that no state occupies. */
  function FirstFree(ps: seq<Point>, states: seq<State>, k: nat): (r: Option<nat>)
    requires k <= |ps|
    ensures r.Some? ==> k <= r.value < |ps| && !Occupied(states, ps[r.value])
    ensures r.Some? ==> forall j :: k <= j < r.value ==> Occupied(states, ps[j])
    ensures r.None? ==> forall j :: k <= j < |ps| ==> Occupied(states, ps[j])
    decreases |ps| - k
  {
    if k == |ps| then None
    else if !Occupied(states, ps[k]) then Some(k)
    else FirstFree(ps, states, k + 1)
  }

  function Place(d: Model, s: nat, p: Point): (r: Model)
    requires s < |d.states|
  {
    d.(states := d.states[s := d.states[s].(x := p.x, y := p.y)])
  }

  /**
   * `locate`: the first free candidate around `near`; when all 16 are
   * taken, the first free point among the random draws, which are consumed.
   * If the draws run out the state keeps its position.
   */
  function Locate(d: Model, s: nat, near: Point): (r: Model)
    requires s < |d.states|
    ensures |r.states| == |d.states|
    ensures r.title == d.title && r.notes == d.notes && r.links == d.links
  {
    var c := Candidates(near, d.sm);
    match FirstFree(c, d.states, 0)
    case Some(k) => Place(d, s, c[k])
    case None =>
      match FirstFree(d.samples, d.states, 0)
      case Some(k) => Place(d, s, d.samples[k]).(samples := d.samples[k + 1..])
      case None => d.(samples := [])
  }

  /**
   * `locate` changes the position of state `s` and nothing else but the
   * draws; a position it assigns is one no state held before.
   */
  lemma LocateFrame(d: Model, s: nat, near: Point)
    requires s < |d.states|
    ensures var r := Locate(d, s, near);
      SameStates(r.states, d.states)
      && (forall j :: 0 <= j < |d.states| && j != s ==> r.states[j] == d.states[j])
      && r == d.(states := r.states, samples := r.samples)
      && (r.states[s] == d.states[s] || !Occupied(d.states, Point(r.states[s].x, r.states[s].y)))
  {
  }

  /** The candidate chosen is the first free one, in the fixed order. */
  lemma LocateTakesFirstFreeCandidate(d: Model, s: nat, near: Point, k: nat)
    requires s < |d.states| && k < 16
    requires var c := Candidates(near, d.sm);
      !Occupied(d.states, c[k]) && forall j :: 0 <= j < k ==> Occupied(d.states, c[j])
    ensures At(Locate(d, s, near).states[s], Candidates(near, d.sm)[k])
  {
    var c := Candidates(near, d.sm);
    var f := FirstFree(c, d.states, 0);
    assert f.Some?;
  }

  /** With `(near.x + sm, near.y)` free, that is where the state goes: the first state placed near the origin lands at `(sm, 0)`. */
  lemma LocateFirstCandidate(d: Model, s: nat, near: Point)
    requires s < |d.states| && !Occupied(d.states, Point(near.x + d.sm, near.y))
    ensures var r := Locate(d, s, near); r.states[s].x == near.x + d.sm && r.states[s].y == near.y
  {
    LocateTakesFirstFreeCandidate(d, s, near, 0);
  }

  /** A random draw of the fallback: a point on the circle of radius `r` about the origin, rounded towards the axis. */
  predicate OnCircle(p: Point, r: int) {
    -r <= p.x <= r && p.y * p.y <= r * r - p.x * p.x
    && r * r - p.x * p.x < (Abs(p.y) + 1) * (Abs(p.y) + 1)
  }

  function Abs(a: int): int {
    if a < 0 then -a else a
  }

  /**
   * When all 16 candidates are taken, the state goes to the first free
   * draw, which lies on the circle of radius `4sm` about the origin
   * whatever the near point was; with no free draw left it stays put.
   */
  lemma LocateFallback(d: Model, s: nat, near: Point)
    requires s < |d.states|
    requires forall j :: 0 <= j < 16 ==> Occupied(d.states, Candidates(near, d.sm)[j])
    requires forall k :: 0 <= k < |d.samples| ==> OnCircle(d.samples[k], 4 * d.sm)
    ensures var r := Locate(d, s, near);
      match FirstFree(d.samples, d.states, 0)
      case Some(k) =>
        At(r.states[s], d.samples[k]) && OnCircle(Point(r.states[s].x, r.states[s].y), 4 * d.sm)
        && r.samples == d.samples[k + 1..]
      case None => r.states == d.states && r.samples == []
  {
    var c := Candidates(near, d.sm);
    var f := FirstFree(c, d.states, 0);
  }

  /** The fallback does not depend on the near point: it is centred on the origin. */
  lemma FallbackIgnoresNear(d: Model, s: nat, n1: Point, n2: Point)
    requires s < |d.states|
    requires forall j :: 0 <= j < 16 ==> Occupied(d.states, Candidates(n1, d.sm)[j])
    requires forall j :: 0 <= j < 16 ==> Occupied(d.states, Candidates(n2, d.sm)[j])
    ensures Locate(d, s, n1) == Locate(d, s, n2)
  {
    var f1 := FirstFree(Candidates(n1, d.sm), d.states, 0);
    var f2 := FirstFree(Candidates(n2, d.sm), d.states, 0);
  }

  /** Moving a state to a free point keeps positions distinct. */
  lemma PlaceValid(d: Model, s: nat, p: Point)
    requires Valid(d) && s < |d.states| && !Occupied(d.states, p)
    ensures Valid(Place(d, s, p))
  {
    var r := Place(d, s, p);
    forall i, j | 0 <= i < j < |r.states|
      ensures r.states[i].x != r.states[j].x || r.states[i].y != r.states[j].y
        || (Unplaced(r.states[i]) && Unplaced(r.states[j]))
    {
      if i == s {
        assert !At(d.states[j], p);
      } else if j == s {
        assert !At(d.states[i], p);
      }
    }
  }

  /** `locate` keeps the diagram valid. */
  lemma LocateValid(d: Model, s: nat, near: Point)
    requires Valid(d) && s < |d.states|
    ensures Valid(Locate(d, s, near))
  {
    var c := Candidates(near, d.sm);
    match FirstFree(c, d.states, 0)
    case Some(k) => PlaceValid(d, s, c[k]);
    case None =>
      match FirstFree(d.samples, d.states, 0)
      case Some(k) => PlaceValid(d, s, d.samples[k]);
      case None =>
  }

  // ---------------------------------------------------------------- links

  /** Both ends of a link to be added are known states; an empty source asks for the entry pseudo link. */
  predicate CanLink(d: Model, src: string, dst: string) {
    Registered(d.states, dst) && (src != [] ==> Registered(d.states, src))
  }

  /**
   * `addLink`. A pseudo link (empty source) places its target near the
   * origin and is recorded only if the target was unplaced. An ordinary link
   * places whichever ends are unplaced, the source first, and is always
   * recorded.
   */
  function AddLink(d: Model, src: string, dst: string, text: string): (r: Model)
    requires CanLink(d, src, dst)
    ensures |r.states| == |d.states|
    ensures r.title == d.title && r.notes == d.notes
  {
    var t := FindState(d.states, dst).value;
    if src == [] then
      if d.states[t].x == -1 then
        var d1 := Locate(d, t, Point(0, 0));
        d1.(links := d1.links + [Link(None, t, text)])
      else d
    else
      var f := FindState(d.states, src).value;
      var d1 :=
        if d.states[f].x == -1 then
          if d.states[t].x == -1 then
            var d0 := Locate(d, f, Point(0, 0));
            Locate(d0, t, Point(d0.states[f].x, d0.states[f].y))
          else Locate(d, f, Point(d.states[t].x, d.states[t].y))
        else if d.states[t].x == -1 then Locate(d, t, Point(d.states[f].x, d.states[f].y))
        else d;
      d1.(links := d1.links + [Link(Some(f), t, text)])
  }

  /**
   * What `addLink` changes: the link list grows by this link, except for a
   * pseudo link into a placed state, which changes nothing at all; names,
   * flags, the title and the notes stay; only the two ends can move.
   */
  lemma AddLinkSpec(d: Model, src: string, dst: string, text: string)
    requires CanLink(d, src, dst)
    ensures var r := AddLink(d, src, dst, text);
      var t := FindState(d.states, dst).value;
      SameStates(r.states, d.states)
      && r.title == d.title && r.notes == d.notes
      && r.padding == d.padding && r.sm == d.sm && r.sr == d.sr
      && r.titleHeight == d.titleHeight && r.noteHeight == d.noteHeight
      && (src == [] && d.states[t].x != -1 ==> r == d)
      && (src == [] && d.states[t].x == -1 ==> r.links == d.links + [Link(None, t, text)])
      && (src != [] ==> r.links == d.links + [Link(Some(FindState(d.states, src).value), t, text)])
      && forall j :: 0 <= j < |d.states| && j != t && (src == [] || j != FindState(d.states, src).value)
           ==> r.states[j] == d.states[j]
  {
    var t := FindState(d.states, dst).value;
    if src == [] {
      LocateFrame(d, t, Point(0, 0));
    } else {
      var f := FindState(d.states, src).value;
      if d.states[f].x == -1 && d.states[t].x == -1 {
        var d0 := Locate(d, f, Point(0, 0));
        LocateFrame(d, f, Point(0, 0));
        LocateFrame(d0, t, Point(d0.states[f].x, d0.states[f].y));
      } else if d.states[f].x == -1 {
        LocateFrame(d, f, Point(d.states[t].x, d.states[t].y));
      } else if d.states[t].x == -1 {
        LocateFrame(d, t, Point(d.states[f].x, d.states[f].y));
      }
    }
  }

  /** A placed state (`x != -1`) is never moved by `addLink`. */
  lemma AddLinkKeepsPlaced(d: Model, src: string, dst: string, text: string)
    requires CanLink(d, src, dst)
    ensures var r := AddLink(d, src, dst, text);
      forall j :: 0 <= j < |d.states| && d.states[j].x != -1 ==> r.states[j] == d.states[j]
  {
    var t := FindState(d.states, dst).value;
    AddLinkSpec(d, src, dst, text);
    if src != [] {
      var f := FindState(d.states, src).value;
      if d.states[f].x == -1 && d.states[t].x == -1 {
        var d0 := Locate(d, f, Point(0, 0));
        LocateFrame(d, f, Point(0, 0));
        LocateFrame(d0, t, Point(d0.states[f].x, d0.states[f].y));
      } else if d.states[f].x == -1 {
        LocateFrame(d, f, Point(d.states[t].x, d.states[t].y));
      } else if d.states[t].x == -1 {
        LocateFrame(d, t, Point(d.states[f].x, d.states[f].y));
      }
    } else if d.states[t].x == -1 {
      LocateFrame(d, t, Point(0, 0));
    }
  }

  /** `addLink` keeps the diagram valid. */
  lemma AddLinkValid(d: Model, src: string, dst: string, text: string)
    requires Valid(d) && CanLink(d, src, dst)
    ensures Valid(AddLink(d, src, dst, text))
  {
    var t := FindState(d.states, dst).value;
    if src == [] {
      if d.states[t].x == -1 {
        LocateValid(d, t, Point(0, 0));
      }
    } else {
      var f := FindState(d.states, src).value;
      if d.states[f].x == -1 && d.states[t].x == -1 {
        var d0 := Locate(d, f, Point(0, 0));
        LocateValid(d, f, Point(0, 0));
        LocateFrame(d, f, Point(0, 0));
        LocateValid(d0, t, Point(d0.states[f].x, d0.states[f].y));
      } else if d.states[f].x == -1 {
        LocateValid(d, f, Point(d.states[t].x, d.states[t].y));
      } else if d.states[t].x == -1 {
        LocateValid(d, t, Point(d.states[f].x, d.states[f].y));
      }
    }
  }

  /**
   * Two fresh states linked on a board where `(sm, 0)` and `(2sm, 0)` are
   * free: the source lands at `(sm, 0)` and the target right next to it.
   */
  lemma AddLinkFreshPair(d: Model, src: string, dst: string, text: string)
    requires CanLink(d, src, dst) && src != [] && src != dst && d.sm > 0
    requires d.states[FindState(d.states, src).value].x == -1
    requires d.states[FindState(d.states, dst).value].x == -1
    requires !Occupied(d.states, Point(d.sm, 0)) && !Occupied(d.states, Point(2 * d.sm, 0))
    ensures var r := AddLink(d, src, dst, text);
      var f, t := FindState(d.states, src).value, FindState(d.states, dst).value;
      At(r.states[f], Point(d.sm, 0)) && At(r.states[t], Point(2 * d.sm, 0))
      && AreNeighbour(r.states[f], r.states[t], d.sm)
  {
    var f, t := FindState(d.states, src).value, FindState(d.states, dst).value;
    var d0 := Locate(d, f, Point(0, 0));
    LocateFirstCandidate(d, f, Point(0, 0));
    LocateFrame(d, f, Point(0, 0));
    assert !Occupied(d0.states, Point(2 * d.sm, 0)) by {
      forall j | 0 <= j < |d0.states| ensures !At(d0.states[j], Point(2 * d.sm, 0)) {
        if j != f {
          assert d0.states[j] == d.states[j];
        }
      }
    }
    LocateFirstCandidate(d0, t, Point(d.sm, 0));
    LocateFrame(d0, t, Point(d.sm, 0));
    assert AddLink(d, src, dst, text).states == Locate(d0, t, Point(d.sm, 0)).states;
  }

  /**
   * A self link on a fresh state places it twice: first next to the origin,
   * then next to where it just landed.
   */
  lemma AddLinkFreshSelf(d: Model, name: string, text: string)
    requires CanLink(d, name, name) && name != [] && d.sm != 0
    requires d.states[FindState(d.states, name).value].x == -1
    requires !Occupied(d.states, Point(d.sm, 0)) && !Occupied(d.states, Point(2 * d.sm, 0))
    ensures var r := AddLink(d, name, name, text);
      At(r.states[FindState(d.states, name).value], Point(2 * d.sm, 0))
  {
    var f := FindState(d.states, name).value;
    var d0 := Locate(d, f, Point(0, 0));
    LocateFirstCandidate(d, f, Point(0, 0));
    LocateFrame(d, f, Point(0, 0));
    assert !Occupied(d0.states, Point(2 * d.sm, 0)) by {
      forall j | 0 <= j < |d0.states| ensures !At(d0.states[j], Point(2 * d.sm, 0)) {
        if j != f {
          assert d0.states[j] == d.states[j];
        }
      }
    }
    LocateFirstCandidate(d0, f, Point(d.sm, 0));
  }

  /** `areNeighbour`: the two states are exactly one margin apart horizontally or vertically. */
  predicate AreNeighbour(s: State, t: State, sm: int) {
    Abs(t.x - s.x) == sm || Abs(t.y - s.y) == sm
  }

  /** Neighbourhood is symmetric, and the four nearest candidates are neighbours of the point they surround. */
  lemma NeighbourFacts(s: State, t: State, sm: int, p: Point)
    ensures AreNeighbour(s, t, sm) == AreNeighbour(t, s, sm)
    ensures sm >= 0 ==> forall k :: 0 <= k < 4 ==>
      var c := Candidates(p, sm)[k];
      AreNeighbour(State(s.name, s.final, p.x, p.y), State(t.name, t.final, c.x, c.y), sm)
  {
  }

  // ------------------------------------------------------- parseLinkLine

  /** `addState` only appends: every name known before keeps its place, and the added name is known. */
  lemma AddStateKeepsNames(d: Model, name: string, final: bool)
    ensures var r := AddState(d, name, final);
      |d.states| <= |r.states| && Registered(r.states, name)
      && (forall k :: 0 <= k < |d.states| ==> r.states[k].name == d.states[k].name)
      && (forall k :: 0 <= k < |d.states| ==> r.states[k].x == d.states[k].x && r.states[k].y == d.states[k].y)
      && r.links == d.links
  {
    var r := AddState(d, name, final);
    if Registered(d.states, name) {
      assert r.states[FindState(d.states, name).value].name == name;
    } else {
      assert r.states[|d.states|].name == name;
    }
  }

  /** Every pending link can be added to `d`. */
  predicate AllLinkable(d: Model, links: seq<LinkMatch>) {
    forall k :: 0 <= k < |links| ==> CanLink(d, links[k].source, links[k].target)
  }

  /**
   * The right-to-left loop of `parseLinkLine` over the segments `t[..n]`:
   * each segment is matched in front of the state name found just right of
   * it, the source it yields is registered, and the link is queued. An
   * empty source is allowed only for the leftmost segment. `None` is the
   * syntax error; the states registered up to then stay registered.
   */
  function Resolve(d: Model, t: seq<string>, n: nat, to: string, links: seq<LinkMatch>)
    : (r: (Model, Option<seq<LinkMatch>>))
    requires n <= |t| && AllLinkable(d, links)
    requires to != [] ==> Registered(d.states, to)
    requires !HasArrow(to) && forall j :: 0 <= j < n ==> !HasArrow(t[j])
    ensures r.1.Some? ==> AllLinkable(r.0, r.1.value)
    ensures r.0.links == d.links && Grows(d.states, r.0.states)
    ensures r.0.title == d.title && r.0.notes == d.notes
    ensures Valid(d) ==> Valid(r.0)
    decreases n
  {
    if n == 0 then (d, Some(links))
    else if to == [] then (d, None)
    else
      SegmentTarget(t[n - 1], to);
      match MatchLink(t[n - 1] + Arrow + to)
      case None => (d, None)
      case Some(m) =>
        if m.source != [] then
          var (name, final) := StateRef(m.source);
          var d1 := AddState(d, name, final);
          ResolveStep(d, to, links, m, name, final);
          var r := Resolve(d1, t, n - 1, name, links + [LinkMatch(name, m.text, m.target)]);
          GrowsTrans(d.states, d1.states, r.0.states);
          r
        else
          Resolve(d, t, n - 1, [], links + [LinkMatch([], m.text, m.target)])
  }

  /** Registering the source found in one segment keeps the queued links addable and adds the new one. */
  lemma ResolveStep(d: Model, to: string, links: seq<LinkMatch>, m: LinkMatch, name: string, final: bool)
    requires AllLinkable(d, links) && to != [] && Registered(d.states, to) && m.target == to
    requires m.source != [] && (name, final) == StateRef(m.source) && NoDash(m.source)
    ensures var d1 := AddState(d, name, final);
      AllLinkable(d1, links + [LinkMatch(name, m.text, m.target)])
      && Registered(d1.states, name) && !HasArrow(name)
      && Grows(d.states, d1.states) && d1.links == d.links
      && (Valid(d) ==> Valid(d1))
  {
    var d1 := AddState(d, name, final);
    AddStateKeepsNames(d, name, final);
    if Valid(d) {
      AddStateValid(d, name, final);
    }
    assert !HasArrow(m.source);
    StateRefNoArrow(m.source);
    var all := links + [LinkMatch(name, m.text, m.target)];
    forall k | 0 <= k < |all| ensures CanLink(d1, all[k].source, all[k].target) {
      if k < |links| {
        assert all[k] == links[k];
        var j :| 0 <= j < |d.states| && d.states[j].name == links[k].target;
        assert d1.states[j].name == links[k].target;
        if links[k].source != [] {
          var i :| 0 <= i < |d.states| && d.states[i].name == links[k].source;
          assert d1.states[i].name == links[k].source;
        }
      } else {
        var j :| 0 <= j < |d.states| && d.states[j].name == to;
        assert d1.states[j].name == to;
      }
    }
  }

  /** Adding a link keeps every pending link addable. */
  lemma AddLinkKeepsLinkable(d: Model, src: string, dst: string, text: string, links: seq<LinkMatch>)
    requires CanLink(d, src, dst) && AllLinkable(d, links)
    ensures AllLinkable(AddLink(d, src, dst, text), links)
  {
    var r := AddLink(d, src, dst, text);
    AddLinkSpec(d, src, dst, text);
    forall k | 0 <= k < |links| ensures CanLink(r, links[k].source, links[k].target) {
      var j :| 0 <= j < |d.states| && d.states[j].name == links[k].target;
      assert r.states[j].name == links[k].target;
      if links[k].source != [] {
        var i :| 0 <= i < |d.states| && d.states[i].name == links[k].source;
        assert r.states[i].name == links[k].source;
      }
    }
  }

  /** The closing loop of `parseLinkLine`: the queued links from last to first, that is, left to right on the line. */
  function AddLinks(d: Model, links: seq<LinkMatch>): (r: Model)
    requires AllLinkable(d, links)
    ensures r.title == d.title && r.notes == d.notes
    decreases |links|
  {
    if links == [] then d
    else
      var l := links[|links| - 1];
      AddLinkKeepsLinkable(d, l.source, l.target, l.text, links[..|links| - 1]);
      AddLinks(AddLink(d, l.source, l.target, l.text), links[..|links| - 1])
  }

  /** Adding the queued links only adds links, and moves, renames or unmarks no state. */
  lemma {:induction false} AddLinksGrows(d: Model, links: seq<LinkMatch>)
    requires AllLinkable(d, links)
    ensures var r := AddLinks(d, links);
      Grows(d.states, r.states) && d.links <= r.links
    decreases |links|
  {
    if links != [] {
      var l := links[|links| - 1];
      var d1 := AddLink(d, l.source, l.target, l.text);
      AddLinkKeepsLinkable(d, l.source, l.target, l.text, links[..|links| - 1]);
      AddLinkGrows(d, l.source, l.target, l.text);
      AddLinksGrows(d1, links[..|links| - 1]);
      GrowsTrans(d.states, d1.states, AddLinks(d1, links[..|links| - 1]).states);
    }
  }

  /** One link adds to the link list and moves only unplaced states. */
  lemma AddLinkGrows(d: Model, src: string, dst: string, text: string)
    requires CanLink(d, src, dst)
    ensures var r := AddLink(d, src, dst, text);
      Grows(d.states, r.states) && d.links <= r.links
  {
    AddLinkSpec(d, src, dst, text);
    AddLinkKeepsPlaced(d, src, dst, text);
  }

  /** The closing loop adds the last queued link first, then the rest. */
  lemma AddLinksLast(d: Model, links: seq<LinkMatch>)
    requires AllLinkable(d, links) && links != []
    ensures var l := links[|links| - 1];
      CanLink(d, l.source, l.target)
      && AllLinkable(AddLink(d, l.source, l.target, l.text), links[..|links| - 1])
      && AddLinks(d, links) == AddLinks(AddLink(d, l.source, l.target, l.text), links[..|links| - 1])
  {
    var l := links[|links| - 1];
    AddLinkKeepsLinkable(d, l.source, l.target, l.text, links[..|links| - 1]);
  }

  /**
   * `parseLinkLine`: split on `->`, register the rightmost state, resolve
   * the segments right to left, then add the links left to right. The
   * diagram comes back with the error, if any, because registrations made
   * before a syntax error are kept.
   */
  function ParseLinkLine(d: Model, s: string): (r: (Model, Option<string>))
    ensures Valid(d) ==> Valid(r.0)
    ensures Grows(d.states, r.0.states) && d.links <= r.0.links
    ensures r.1 == None || r.1 == Some(ErrSyntaxInvalid)
    ensures r.0.title == d.title && r.0.notes == d.notes
  {
    var t := Split(s, Arrow);
    var to := t[|t| - 1];
    if |t| < 2 || to == [] then (d, Some(ErrSyntaxInvalid))
    else
      RightmostRegistered(d, s);
      Finish(d, AddState(d, StateRef(to).0, StateRef(to).1), t, StateRef(to).0)
  }

  /** What `parseLinkLine` knows once the rightmost state is registered: what `Finish` needs. */
  lemma RightmostRegistered(d: Model, s: string)
    requires var t := Split(s, Arrow); |t| >= 2 && t[|t| - 1] != []
    ensures var t := Split(s, Arrow);
      var (name, final) := StateRef(t[|t| - 1]);
      var d1 := AddState(d, name, final);
      name != [] && Registered(d1.states, name) && !HasArrow(name)
      && (forall j :: 0 <= j < |t| ==> !HasArrow(t[j]))
      && Grows(d.states, d1.states) && (Valid(d) ==> Valid(d1))
      && d1.title == d.title && d1.notes == d.notes && d1.links == d.links
  {
    var t := Split(s, Arrow);
    var (name, final) := StateRef(t[|t| - 1]);
    SplitPiecesFree(s, Arrow);
    forall j | 0 <= j < |t| ensures !HasArrow(t[j]) {
      HasArrowIsContains(t[j]);
    }
    StateRefNoArrow(t[|t| - 1]);
    AddStateKeepsNames(d, name, final);
    if Valid(d) {
      AddStateValid(d, name, final);
    }
  }

  /** The end of `parseLinkLine` once the rightmost state is registered. */
  function Finish(d: Model, d1: Model, t: seq<string>, name: string): (r: (Model, Option<string>))
    requires |t| >= 1 && name != [] && Registered(d1.states, name) && !HasArrow(name)
    requires forall j :: 0 <= j < |t| ==> !HasArrow(t[j])
    requires Grows(d.states, d1.states) && (Valid(d) ==> Valid(d1))
    requires d1.title == d.title && d1.notes == d.notes && d1.links == d.links
    ensures Valid(d) ==> Valid(r.0)
    ensures Grows(d.states, r.0.states) && d.links <= r.0.links
    ensures r.1 == None || r.1 == Some(ErrSyntaxInvalid)
    ensures r.0.title == d.title && r.0.notes == d.notes
  {
    match Resolve(d1, t, |t| - 1, name, [])
    case (d2, Some(links)) =>
      var d3 := AddLinks(d2, links);
      AddLinksGrows(d2, links);
      GrowsTrans(d.states, d1.states, d2.states);
      GrowsTrans(d.states, d2.states, d3.states);
      assert Valid(d2) ==> Valid(d3) by {
        if Valid(d2) {
          AddLinksValid(d2, links);
        }
      }
      (d3, None)
    case (d2, None) =>
      GrowsTrans(d.states, d1.states, d2.states);
      (d2, Some(ErrSyntaxInvalid))
  }

  /**
   * `b` extends the state table `a`: every state of `a` keeps its index and
   * name, a final state stays final, and one that has a position
   * (`x != -1`) keeps it.
   */
  predicate Grows(a: seq<State>, b: seq<State>) {
    |a| <= |b|
    && forall j :: 0 <= j < |a| ==>
         b[j].name == a[j].name && (a[j].final ==> b[j].final)
         && (a[j].x != -1 ==> b[j].x == a[j].x && b[j].y == a[j].y)
  }

  lemma GrowsTrans(a: seq<State>, b: seq<State>, c: seq<State>)
    requires Grows(a, b) && Grows(b, c)
    ensures Grows(a, c)
  {
  }

  lemma {:induction false} AddLinksValid(d: Model, links: seq<LinkMatch>)
    requires AllLinkable(d, links) && Valid(d)
    ensures Valid(AddLinks(d, links))
    decreases |links|
  {
    if links != [] {
      var l := links[|links| - 1];
      AddLinkKeepsLinkable(d, l.source, l.target, l.text, links[..|links| - 1]);
      AddLinkValid(d, l.source, l.target, l.text);
      AddLinksValid(AddLink(d, l.source, l.target, l.text), links[..|links| - 1]);
    }
  }

  /** A line without `->` is rejected and changes nothing. */
  lemma ParseLinkLineNoArrow(d: Model, s: string)
    requires !Contains(s, Arrow)
    ensures ParseLinkLine(d, s) == (d, Some(ErrSyntaxInvalid))
  {
    assert Find(s, Arrow) == -1;
  }

  /** A state reference as it may appear at either end of a link: one line, no `-`. */
  predicate PlainRef(s: string) {
    s != [] && NoDash(s) && NoNewline(s)
  }

  /** The name a plain reference registers holds no dash, arrow or newline either. */
  lemma PlainRefName(s: string)
    requires PlainRef(s)
    ensures var name := StateRef(s).0; name != [] && NoDash(name) && NoNewline(name) && !HasArrow(name)
  {
    var (name, final) := StateRef(s);
    if final {
      forall k | 0 <= k < |name| ensures name[k] != '-' && name[k] != '\n' {
        assert name[k] == s[k + 1];
      }
    }
  }

  /** When the segments do not resolve, `Finish` reports the syntax error. */
  lemma FinishUnresolved(d: Model, d1: Model, t: seq<string>, name: string)
    requires |t| >= 1 && name != [] && Registered(d1.states, name) && !HasArrow(name)
    requires forall j :: 0 <= j < |t| ==> !HasArrow(t[j])
    requires Grows(d.states, d1.states) && (Valid(d) ==> Valid(d1))
    requires d1.title == d.title && d1.notes == d.notes && d1.links == d.links
    requires Resolve(d1, t, |t| - 1, name, []).1.None?
    ensures Finish(d, d1, t, name).1 == Some(ErrSyntaxInvalid)
  {
  }

  /** When the segments resolve, `Finish` adds the queued links and reports no error. */
  lemma FinishResolved(d: Model, d1: Model, t: seq<string>, name: string)
    requires |t| >= 1 && name != [] && Registered(d1.states, name) && !HasArrow(name)
    requires forall j :: 0 <= j < |t| ==> !HasArrow(t[j])
    requires Grows(d.states, d1.states) && (Valid(d) ==> Valid(d1))
    requires d1.title == d.title && d1.notes == d.notes && d1.links == d.links
    requires Resolve(d1, t, |t| - 1, name, []).1.Some?
    ensures var (d2, links) := Resolve(d1, t, |t| - 1, name, []);
      AllLinkable(d2, links.value) && Finish(d, d1, t, name) == (AddLinks(d2, links.value), None)
  {
  }

  /**
   * One step of the right-to-left loop: the segment `A-x` in front of the
   * registered `B` registers `A` and queues the link `A -> B` labelled `x`.
   */
  lemma ResolveSegment(d1: Model, t: seq<string>, n: nat, src: string, text: string, b: string,
                       links: seq<LinkMatch>)
    requires 1 <= n <= |t| && t[n - 1] == src + "-" + text && Registered(d1.states, b)
    requires PlainRef(src) && NoNewline(text) && b != [] && NoNewline(b) && !HasArrow(b)
    requires forall j :: 0 <= j < n ==> !HasArrow(t[j])
    requires AllLinkable(d1, links)
    ensures var (a, fa) := StateRef(src);
      var d2 := AddState(d1, a, fa);
      var links2 := links + [LinkMatch(a, text, b)];
      Registered(d2.states, a) && NoNewline(a) && !HasArrow(a) && a != [] && AllLinkable(d2, links2)
      && Resolve(d1, t, n, b, links) == Resolve(d2, t, n - 1, a, links2)
  {
    var (a, fa) := StateRef(src);
    PlainRefName(src);
    MatchLinkExact(src, text, b);
    assert MatchLink(t[n - 1] + Arrow + b) == Some(LinkMatch(src, text, b));
    ResolveStep(d1, b, links, LinkMatch(src, text, b), a, fa);
  }

  /** The one segment `A-x` in front of the registered `B`: `A` is registered and the link queued. */
  lemma ResolveOneSegment(d1: Model, t: seq<string>, src: string, text: string, b: string)
    requires |t| >= 1 && t[0] == src + "-" + text && Registered(d1.states, b)
    requires PlainRef(src) && NoNewline(text) && b != [] && NoNewline(b) && !HasArrow(b)
    requires forall j :: 0 <= j < |t| ==> !HasArrow(t[j])
    ensures var (a, fa) := StateRef(src);
      Resolve(d1, t, 1, b, []) == (AddState(d1, a, fa), Some([LinkMatch(a, text, b)]))
  {
    ResolveSegment(d1, t, 1, src, text, b, []);
    assert [] + [LinkMatch(StateRef(src).0, text, b)] == [LinkMatch(StateRef(src).0, text, b)];
  }

  /** A line of two pieces `seg->B`: `B` is registered and `Finish` resolves `seg` in front of it. */
  lemma TwoPieces(d: Model, seg: string, dst: string)
    requires !HasArrow(seg) && PlainRef(dst)
    ensures var (b, fb) := StateRef(dst);
      var d1 := AddState(d, b, fb);
      Split(seg + Arrow + dst, Arrow) == [seg, dst]
      && b != [] && Registered(d1.states, b) && NoNewline(b) && !HasArrow(b)
      && !HasArrow(seg) && !HasArrow(dst)
      && Grows(d.states, d1.states) && (Valid(d) ==> Valid(d1))
      && d1.title == d.title && d1.notes == d.notes && d1.links == d.links
      && ParseLinkLine(d, seg + Arrow + dst) == Finish(d, d1, [seg, dst], b)
  {
    assert !HasArrow(dst);
    SplitArrowNone(dst);
    SplitArrowCons(seg, dst);
    PlainRefName(dst);
    RightmostRegistered(d, seg + Arrow + dst);
  }

  /** `Finish` on the pieces `A-x` and `B`: `A` is registered and the link `A -> B` added. */
  lemma FinishOneLink(d: Model, d1: Model, src: string, text: string, dst: string, b: string)
    requires PlainRef(src) && NoNewline(text) && !HasArrow(src + "-" + text) && !HasArrow(dst)
    requires b != [] && Registered(d1.states, b) && NoNewline(b) && !HasArrow(b)
    requires Grows(d.states, d1.states) && (Valid(d) ==> Valid(d1))
    requires d1.title == d.title && d1.notes == d.notes && d1.links == d.links
    ensures var (a, fa) := StateRef(src);
      var d2 := AddState(d1, a, fa);
      CanLink(d2, a, b) && Finish(d, d1, [src + "-" + text, dst], b) == (AddLink(d2, a, b, text), None)
  {
    var t := [src + "-" + text, dst];
    var (a, fa) := StateRef(src);
    ResolveOneSegment(d1, t, src, text, b);
    FinishResolved(d, d1, t, b);
    var l := LinkMatch(a, text, b);
    assert [l][0] == l;
    assert AddLinks(AddState(d1, a, fa), [l]) == AddLink(AddState(d1, a, fa), a, b, text);
  }

  /**
   * A one-link line `A-x->B`: `B` is registered first, then `A`, and the
   * single link `A -> B` labelled `x` is added; a `(…)` at either end
   * marks that state final.
   */
  lemma ParseOneLink(d: Model, src: string, text: string, dst: string)
    requires PlainRef(src) && PlainRef(dst) && NoNewline(text) && !HasArrow(src + "-" + text)
    ensures var (b, fb) := StateRef(dst);
      var (a, fa) := StateRef(src);
      var d2 := AddState(AddState(d, b, fb), a, fa);
      CanLink(d2, a, b) && ParseLinkLine(d, src + "-" + text + Arrow + dst) == (AddLink(d2, a, b, text), None)
  {
    var (b, fb) := StateRef(dst);
    TwoPieces(d, src + "-" + text, dst);
    FinishOneLink(d, AddState(d, b, fb), src, text, dst, b);
  }

  /** A line of three pieces `s1->s2->C`: `C` is registered and `Finish` resolves the two segments. */
  lemma ThreePieces(d: Model, s1: string, s2: string, dst: string)
    requires !HasArrow(s1) && !HasArrow(s2) && PlainRef(dst)
    ensures var (c, fc) := StateRef(dst);
      var d1 := AddState(d, c, fc);
      Split(s1 + Arrow + s2 + Arrow + dst, Arrow) == [s1, s2, dst]
      && c != [] && Registered(d1.states, c) && NoNewline(c) && !HasArrow(c)
      && Grows(d.states, d1.states) && (Valid(d) ==> Valid(d1))
      && d1.title == d.title && d1.notes == d.notes && d1.links == d.links
      && ParseLinkLine(d, s1 + Arrow + s2 + Arrow + dst) == Finish(d, d1, [s1, s2, dst], c)
  {
    assert !HasArrow(dst);
    SplitThree(s1, s2, dst);
    PlainRefName(dst);
    RightmostRegistered(d, s1 + Arrow + s2 + Arrow + dst);
  }

  /** The two segments `A-x` and `B-y` in front of the registered `C`: `B`, then `A`, are registered and both links queued. */
  lemma ResolveTwoSegments(d1: Model, t: seq<string>, src: string, x: string, mid: string, y: string,
                           c: string)
    requires |t| >= 2 && t[0] == src + "-" + x && t[1] == mid + "-" + y
    requires PlainRef(src) && NoNewline(x) && PlainRef(mid) && NoNewline(y)
    requires c != [] && Registered(d1.states, c) && NoNewline(c) && !HasArrow(c)
    requires forall j :: 0 <= j < |t| ==> !HasArrow(t[j])
    ensures var (b, fb) := StateRef(mid);
      var (a, fa) := StateRef(src);
      Resolve(d1, t, 2, c, [])
        == (AddState(AddState(d1, b, fb), a, fa), Some([LinkMatch(b, y, c), LinkMatch(a, x, b)]))
  {
    var (b, fb) := StateRef(mid);
    var (a, fa) := StateRef(src);
    var lb := LinkMatch(b, y, c);
    var la := LinkMatch(a, x, b);
    var d2 := AddState(d1, b, fb);
    var d3 := AddState(d2, a, fa);
    ResolveSegment(d1, t, 2, mid, y, c, []);
    assert [] + [lb] == [lb];
    assert Resolve(d1, t, 2, c, []) == Resolve(d2, t, 1, b, [lb]);
    ResolveSegment(d2, t, 1, src, x, b, [lb]);
    assert [lb] + [la] == [lb, la];
    assert Resolve(d2, t, 1, b, [lb]) == Resolve(d3, t, 0, a, [lb, la]);
    assert Resolve(d3, t, 0, a, [lb, la]) == (d3, Some([lb, la]));
  }

  /** The closing loop on two queued links adds the later-queued, leftmost one first. */
  lemma AddTwoLinks(d: Model, l1: LinkMatch, l2: LinkMatch)
    requires AllLinkable(d, [l1, l2])
    ensures CanLink(d, l2.source, l2.target)
      && CanLink(AddLink(d, l2.source, l2.target, l2.text), l1.source, l1.target)
      && AddLinks(d, [l1, l2])
           == AddLink(AddLink(d, l2.source, l2.target, l2.text), l1.source, l1.target, l1.text)
  {
    assert [l1, l2][1] == l2 && [l1, l2][0] == l1 && [l1, l2][..1] == [l1];
    AddLinkKeepsLinkable(d, l2.source, l2.target, l2.text, [l1]);
    var d1 := AddLink(d, l2.source, l2.target, l2.text);
    assert AddLinks(d, [l1, l2]) == AddLinks(d1, [l1]);
    AddOneLink(d1, l1);
  }

  /** The closing loop on one queued link is `addLink` on it. */
  lemma AddOneLink(d: Model, l: LinkMatch)
    requires AllLinkable(d, [l])
    ensures CanLink(d, l.source, l.target) && AddLinks(d, [l]) == AddLink(d, l.source, l.target, l.text)
  {
    assert [l][0] == l && [l][..0] == [];
  }

  /** `Finish` on the pieces `A-x`, `B-y` and `C`: `B` then `A` are registered, then `A -> B` and `B -> C` added in that order. */
  lemma FinishTwoLinks(d: Model, d1: Model, src: string, x: string, mid: string, y: string, dst: string,
                       c: string)
    requires PlainRef(src) && NoNewline(x) && !HasArrow(src + "-" + x)
    requires PlainRef(mid) && NoNewline(y) && !HasArrow(mid + "-" + y) && !HasArrow(dst)
    requires c != [] && Registered(d1.states, c) && NoNewline(c) && !HasArrow(c)
    requires Grows(d.states, d1.states) && (Valid(d) ==> Valid(d1))
    requires d1.title == d.title && d1.notes == d.notes && d1.links == d.links
    ensures var (b, fb) := StateRef(mid);
      var (a, fa) := StateRef(src);
      var d3 := AddState(AddState(d1, b, fb), a, fa);
      CanLink(d3, a, b) && CanLink(AddLink(d3, a, b, x), b, c)
      && Finish(d, d1, [src + "-" + x, mid + "-" + y, dst], c)
           == (AddLink(AddLink(d3, a, b, x), b, c, y), None)
  {
    var t := [src + "-" + x, mid + "-" + y, dst];
    var (b, fb) := StateRef(mid);
    var (a, fa) := StateRef(src);
    var d3 := AddState(AddState(d1, b, fb), a, fa);
    ResolveTwoSegments(d1, t, src, x, mid, y, c);
    FinishResolved(d, d1, t, c);
    AddTwoLinks(d3, LinkMatch(b, y, c), LinkMatch(a, x, b));
  }

  /**
   * A chained line `A-x->B-y->C` registers `C`, `B`, `A` from right to
   * left but adds its links from left to right: `A -> B` labelled `x`,
   * then `B -> C` labelled `y`.
   */
  lemma ParseChain(d: Model, src: string, x: string, mid: string, y: string, dst: string)
    requires PlainRef(src) && NoNewline(x) && !HasArrow(src + "-" + x)
    requires PlainRef(mid) && NoNewline(y) && !HasArrow(mid + "-" + y) && PlainRef(dst)
    ensures var (c, fc) := StateRef(dst);
      var (b, fb) := StateRef(mid);
      var (a, fa) := StateRef(src);
      var d3 := AddState(AddState(AddState(d, c, fc), b, fb), a, fa);
      CanLink(d3, a, b) && CanLink(AddLink(d3, a, b, x), b, c)
      && ParseLinkLine(d, src + "-" + x + Arrow + (mid + "-" + y) + Arrow + dst)
           == (AddLink(AddLink(d3, a, b, x), b, c, y), None)
  {
    var (c, fc) := StateRef(dst);
    ThreePieces(d, src + "-" + x, mid + "-" + y, dst);
    FinishTwoLinks(d, AddState(d, c, fc), src, x, mid, y, dst, c);
  }

  /** The leftmost segment `-x` in front of the registered `B` queues the pseudo link and registers nothing. */
  lemma ResolvePseudo(d1: Model, t: seq<string>, text: string, b: string)
    requires |t| >= 1 && t[0] == "-" + text && NoNewline(text) && Registered(d1.states, b)
    requires b != [] && NoNewline(b) && !HasArrow(b)
    requires forall j :: 0 <= j < |t| ==> !HasArrow(t[j])
    ensures Resolve(d1, t, 1, b, []) == (d1, Some([LinkMatch([], text, b)]))
  {
    assert t[0] == [] + "-" + text;
    MatchLinkExact([], text, b);
    var l := LinkMatch([], text, b);
    assert [] + [l] == [l];
  }

  /**
   * The pseudo entry link `-x->B`: an empty source is allowed in the
   * leftmost segment, and the line is `addLink` with an empty source.
   */
  lemma ParsePseudoLink(d: Model, text: string, dst: string)
    requires NoNewline(text) && !HasArrow("-" + text) && PlainRef(dst)
    ensures var (b, fb) := StateRef(dst);
      var d1 := AddState(d, b, fb);
      CanLink(d1, [], b) && ParseLinkLine(d, "-" + text + Arrow + dst) == (AddLink(d1, [], b, text), None)
  {
    var (b, fb) := StateRef(dst);
    TwoPieces(d, "-" + text, dst);
    FinishPseudo(d, AddState(d, b, fb), text, dst, b);
  }

  /** `Finish` on the pieces `-x` and `B`: the pseudo link into `B` is added. */
  lemma FinishPseudo(d: Model, d1: Model, text: string, dst: string, b: string)
    requires NoNewline(text) && !HasArrow("-" + text) && !HasArrow(dst)
    requires b != [] && Registered(d1.states, b) && NoNewline(b) && !HasArrow(b)
    requires Grows(d.states, d1.states) && (Valid(d) ==> Valid(d1))
    requires d1.title == d.title && d1.notes == d.notes && d1.links == d.links
    ensures CanLink(d1, [], b) && Finish(d, d1, ["-" + text, dst], b) == (AddLink(d1, [], b, text), None)
  {
    var t := ["-" + text, dst];
    ResolvePseudo(d1, t, text, b);
    FinishResolved(d, d1, t, b);
    AddOneLink(d1, LinkMatch([], text, b));
  }

  /** A segment `-y` with a segment still to its left stops the loop with a syntax error. */
  lemma ResolveInnerEmpty(d1: Model, t: seq<string>, y: string, c: string)
    requires |t| >= 2 && t[1] == "-" + y && NoNewline(y) && Registered(d1.states, c)
    requires c != [] && NoNewline(c) && !HasArrow(c)
    requires forall j :: 0 <= j < |t| ==> !HasArrow(t[j])
    ensures Resolve(d1, t, 2, c, []).1 == None
  {
    assert t[1] == [] + "-" + y;
    MatchLinkExact([], y, c);
  }

  /** An empty source anywhere but in the leftmost segment is a syntax error: `A-x->-y->C`. */
  lemma ParseInnerEmptySource(d: Model, s1: string, y: string, dst: string)
    requires !HasArrow(s1) && NoNewline(y) && !HasArrow("-" + y) && PlainRef(dst)
    ensures ParseLinkLine(d, s1 + Arrow + ("-" + y) + Arrow + dst).1 == Some(ErrSyntaxInvalid)
  {
    var (c, fc) := StateRef(dst);
    ThreePieces(d, s1, "-" + y, dst);
    FinishInnerEmpty(d, AddState(d, c, fc), s1, y, dst, c);
  }

  /** `Finish` on the pieces `s1`, `-y` and `C` reports the syntax error. */
  lemma FinishInnerEmpty(d: Model, d1: Model, s1: string, y: string, dst: string, c: string)
    requires !HasArrow(s1) && NoNewline(y) && !HasArrow("-" + y) && !HasArrow(dst)
    requires c != [] && Registered(d1.states, c) && NoNewline(c) && !HasArrow(c)
    requires Grows(d.states, d1.states) && (Valid(d) ==> Valid(d1))
    requires d1.title == d.title && d1.notes == d.notes && d1.links == d.links
    ensures Finish(d, d1, [s1, "-" + y, dst], c).1 == Some(ErrSyntaxInvalid)
  {
    ResolveInnerEmpty(d1, [s1, "-" + y, dst], y, c);
    FinishUnresolved(d, d1, [s1, "-" + y, dst], c);
  }

  /** A segment without `-` does not match the link pattern: `A->B` is a syntax error. */
  lemma ParseNoDash(d: Model, seg: string, dst: string)
    requires NoDash(seg) && PlainRef(dst)
    ensures ParseLinkLine(d, seg + Arrow + dst).1 == Some(ErrSyntaxInvalid)
  {
    var (b, fb) := StateRef(dst);
    assert !HasArrow(seg);
    TwoPieces(d, seg, dst);
    assert IndexOf(seg, '-') < 0;
    MatchLinkSegment(seg, b);
  }

  /** Nothing after the last arrow is a syntax error. */
  lemma ParseEmptyTarget(d: Model, s: string)
    requires !HasArrow(s)
    ensures ParseLinkLine(d, s + Arrow) == (d, Some(ErrSyntaxInvalid))
  {
    SplitArrowCons(s, []);
    SplitArrowNone([]);
    assert s + Arrow == s + Arrow + [];
  }

  // ------------------------------------------------------------- Parse

  /** The error `Parse` reports for a failing link line: its 1-based number, then the cause. */
  function LineError(n: int, cause: string): string {
    "line " + IntToString(n) + ": " + cause
  }

  /**
   * The loop of `Parse` over the lines `ls`, the first of them numbered `n`:
   * blank lines are skipped but counted, the first non-blank line must be
   * the diagram type, then `Title:` and `Note:` directives are tried before
   * link lines. The diagram the loop ends with is the result; a failing link
   * line reports its number.
   */
  function ParseFrom(d: Model, ls: seq<string>, n: int, blank: bool): (r: Result<Model>)
    ensures r.Ok? && Valid(d) ==> Valid(r.value)
    ensures r.Ok? ==> Grows(d.states, r.value.states) && d.links <= r.value.links
    ensures r.Err? ==> ((blank && r.msg == ErrTypeUnknown)
                        || exists k :: n <= k < n + |ls| && r.msg == LineError(k, ErrSyntaxInvalid))
    decreases |ls|
  {
    if ls == [] then Ok(d)
    else
      var l := TrimSpace(ls[0]);
      if l == [] then ParseFrom(d, ls[1..], n + 1, blank)
      else if blank then
        if l != DiagramType then Err(ErrTypeUnknown) else ParseFrom(d, ls[1..], n + 1, false)
      else if HasPrefix(l, TitlePrefix) then ParseFrom(d.(title := l[6..]), ls[1..], n + 1, false)
      else if HasPrefix(l, NotePrefix) then ParseFrom(AddNote(d, l[5..]), ls[1..], n + 1, false)
      else
        match ParseLinkLine(d, l)
        case (_, Some(cause)) => Err(LineError(n, cause))
        case (d1, None) => ParseFrom(d1, ls[1..], n + 1, false)
  }

  /** `Parse`: the line loop over the whole source, starting at line 1 before the type line. */
  function Parse(d: Model, b: string): (r: Result<Model>)
    ensures r.Ok? && Valid(d) ==> Valid(r.value)
    ensures r.Err? ==> (r.msg == ErrTypeUnknown
                        || exists k :: 1 <= k && r.msg == LineError(k, ErrSyntaxInvalid))
  {
    ParseFrom(d, Lines(b), 1, true)
  }

  /** A source whose lines are all blank is accepted and leaves the diagram as it was. */
  lemma {:induction false} ParseBlank(d: Model, ls: seq<string>, n: int, blank: bool)
    requires forall k :: 0 <= k < |ls| ==> TrimSpace(ls[k]) == []
    ensures ParseFrom(d, ls, n, blank) == Ok(d)
    decreases |ls|
  {
    if ls != [] {
      ParseBlank(d, ls[1..], n + 1, blank);
    }
  }

  /** Blank lines before it aside, a first line other than the diagram type is rejected without a line number. */
  lemma {:induction false} ParseWrongType(d: Model, ls: seq<string>, n: int, m: nat)
    requires m < |ls| && forall k :: 0 <= k < m ==> TrimSpace(ls[k]) == []
    requires TrimSpace(ls[m]) != [] && TrimSpace(ls[m]) != DiagramType
    ensures ParseFrom(d, ls, n, true) == Err(ErrTypeUnknown)
    decreases m
  {
    if m > 0 {
      ParseWrongType(d, ls[1..], n + 1, m - 1);
    }
  }

  /**
   * Once the type line is read, a `Title:` line replaces the title with the
   * rest of the trimmed line, leading space included, and is not read as a
   * link line.
   */
  lemma ParseTitle(d: Model, l: string, ls: seq<string>, n: int)
    requires HasPrefix(TrimSpace(l), TitlePrefix)
    ensures ParseFrom(d, [l] + ls, n, false) == ParseFrom(d.(title := TrimSpace(l)[6..]), ls, n + 1, false)
  {
    assert ([l] + ls)[0] == l && ([l] + ls)[1..] == ls;
  }

  /** Once the type line is read, a `Note:` line appends the rest of the trimmed line as a note. */
  lemma ParseNote(d: Model, l: string, ls: seq<string>, n: int)
    requires HasPrefix(TrimSpace(l), NotePrefix)
    ensures ParseFrom(d, [l] + ls, n, false) == ParseFrom(AddNote(d, TrimSpace(l)[5..]), ls, n + 1, false)
  {
    assert ([l] + ls)[0] == l && ([l] + ls)[1..] == ls;
    assert TrimSpace(l)[0] == 'N';
    assert !HasPrefix(TrimSpace(l), TitlePrefix);
  }

  /** A blank line changes nothing but the line number. */
  lemma ParseBlankLine(d: Model, l: string, ls: seq<string>, n: int, blank: bool)
    requires TrimSpace(l) == []
    ensures ParseFrom(d, [l] + ls, n, blank) == ParseFrom(d, ls, n + 1, blank)
  {
    assert ([l] + ls)[0] == l && ([l] + ls)[1..] == ls;
  }

  /** Blank lines are skipped, and each of them still advances the line number: `k` is the number of the line after them. */
  lemma {:induction false} ParseSkipsBlank(d: Model, ls: seq<string>, n: int, blank: bool, m: nat, k: int)
    requires m <= |ls| && forall i :: 0 <= i < m ==> TrimSpace(ls[i]) == []
    requires k == n + m
    ensures ParseFrom(d, ls, n, blank) == ParseFrom(d, ls[m..], k, blank)
    decreases m
  {
    if m > 0 {
      var tail := ls[1..];
      assert ls == [ls[0]] + tail;
      ParseBlankLine(d, ls[0], tail, n, blank);
      ParseSkipsBlank(d, tail, n + 1, blank, m - 1, k);
      assert tail[m - 1..] == ls[m..];
    } else {
      assert ls[m..] == ls;
    }
  }

  /** Once the type line is read, a link line the link grammar rejects stops the loop with its own number and the cause. */
  lemma ParseLinkLineFails(d: Model, l: string, ls: seq<string>, n: int, cause: string)
    requires TrimSpace(l) != [] && !HasPrefix(TrimSpace(l), TitlePrefix) && !HasPrefix(TrimSpace(l), NotePrefix)
    requires ParseLinkLine(d, TrimSpace(l)).1 == Some(cause)
    ensures ParseFrom(d, [l] + ls, n, false) == Err(LineError(n, cause))
  {
    assert ([l] + ls)[0] == l;
  }

  /**
   * After `m` blank lines, a rejected link line numbered `n + m` is the
   * error's line: the number counts the blank lines before it.
   */
  lemma ParseErrorLine(d: Model, ls: seq<string>, n: int, m: nat, cause: string)
    requires m < |ls| && forall k :: 0 <= k < m ==> TrimSpace(ls[k]) == []
    requires TrimSpace(ls[m]) != [] && !HasPrefix(TrimSpace(ls[m]), TitlePrefix) && !HasPrefix(TrimSpace(ls[m]), NotePrefix)
    requires ParseLinkLine(d, TrimSpace(ls[m])).1 == Some(cause)
    ensures ParseFrom(d, ls, n, false) == Err(LineError(n + m, cause))
  {
    ParseSkipsBlank(d, ls, n, false, m, n + m);
    SuffixCons(ls, m);
    ParseLinkLineFails(d, ls[m], ls[m + 1..], n + m, cause);
  }

  // ------------------------------------------------------ canvas sizing

  /**
   * The loop accumulators of `calculateStatesArea` over `states`: left,
   * right, top and bottom, all starting at 0, a new minimum tested before a
   * new maximum.
   */
  function Extent(states: seq<State>): (r: (int, int, int, int))
    decreases |states|
  {
    if states == [] then (0, 0, 0, 0)
    else
      var e := Extent(states[..|states| - 1]);
      var s := states[|states| - 1];
      var (l, rt) := if s.x < e.0 then (s.x, e.1) else if s.x > e.1 then (e.0, s.x) else (e.0, e.1);
      var (t, b) := if s.y < e.2 then (s.y, e.3) else if s.y > e.3 then (e.2, s.y) else (e.2, e.3);
      (l, rt, t, b)
  }

  /**
   * The accumulators end as the smallest and largest coordinates with the
   * origin thrown in: every state lies inside, the origin does too, and each
   * non-zero edge is the coordinate of some state.
   */
  lemma {:induction false} ExtentBounds(states: seq<State>)
    ensures var e := Extent(states);
      e.0 <= 0 <= e.1 && e.2 <= 0 <= e.3
      && (forall j :: 0 <= j < |states| ==> e.0 <= states[j].x <= e.1 && e.2 <= states[j].y <= e.3)
      && (e.0 == 0 || exists j :: 0 <= j < |states| && states[j].x == e.0)
      && (e.1 == 0 || exists j :: 0 <= j < |states| && states[j].x == e.1)
      && (e.2 == 0 || exists j :: 0 <= j < |states| && states[j].y == e.2)
      && (e.3 == 0 || exists j :: 0 <= j < |states| && states[j].y == e.3)
    decreases |states|
  {
    if states != [] {
      var front := states[..|states| - 1];
      ExtentBounds(front);
      forall j | 0 <= j < |front| ensures front[j] == states[j] { }
    }
  }

  /** `calculateStatesArea`: the extent widened by the state radius, and by half the margin to the left and top. */
  function StatesArea(d: Model): (r: (int, int, int, int))
  {
    var e := Extent(d.states);
    (e.0 - d.sr - Half(d.sm), e.1 + d.sr, e.2 - d.sr - Half(d.sm), e.3 + d.sr)
  }

  /** The canvas size `Draw` computes: padded width, and a height with room for the title and the notes. */
  function CanvasSize(d: Model): (r: (int, int))
  {
    var a := StatesArea(d);
    var w := d.padding + (a.1 - a.0) + d.padding;
    var h := d.padding + d.titleHeight + d.padding + (a.3 - a.2) + d.padding;
    if |d.notes| > 0 then (w, h + 40 + |d.notes| * (d.noteHeight + 4)) else (w, h)
  }

  /**
   * Every state circle, drawn at its position shifted by the offsets `Draw`
   * passes to `drawStates`, stays inside the padded canvas and below the
   * title; with a non-negative margin the area holds the origin.
   */
  lemma StatesFitCanvas(d: Model)
    requires d.sm >= 0
    ensures var a := StatesArea(d);
      var size := CanvasSize(d);
      var ox := -a.0 + d.padding;
      var oy := -a.2 + d.padding + d.titleHeight + d.padding;
      a.0 <= -d.sr - Half(d.sm) && d.sr <= a.1 && a.2 <= -d.sr - Half(d.sm) && d.sr <= a.3
      && (forall j :: 0 <= j < |d.states| ==>
            d.padding <= d.states[j].x + ox - d.sr
            && d.states[j].x + ox + d.sr <= size.0 - d.padding
            && d.padding + d.titleHeight + d.padding <= d.states[j].y + oy - d.sr
            && d.states[j].y + oy + d.sr <= d.padding + d.titleHeight + d.padding + (a.3 - a.2))
  {
    ExtentBounds(d.states);
  }

  /** With notes the height grows by the 40-unit gap and one line of `noteHeight + 4` per note. */
  lemma CanvasSizeNotes(d: Model, note: string)
    ensures CanvasSize(AddNote(d, note)).0 == CanvasSize(d).0
    ensures |d.notes| > 0 ==> CanvasSize(AddNote(d, note)).1 == CanvasSize(d).1 + d.noteHeight + 4
    ensures |d.notes| == 0 ==> CanvasSize(AddNote(d, note)).1 == CanvasSize(d).1 + 40 + d.noteHeight + 4
  {
  }
}
