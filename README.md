# Diagram engine of `notes`, modelled in Dafny

The `diagram` package turns a small text language into SVG. Its entry
point reads the first line of the source to pick a grammar, builds a fresh
diagram of that kind with fixed sizes, parses the whole source into it and
draws only a diagram that parsed. There are two grammars:

- **Automata diagrams.** Chained link lines such as `A-x->B-y->(C)` are
  split on `->` and resolved right to left. Each state is registered once,
  and its final flag can only be switched on. Links are then added left to
  right. Each new state is placed by trying 16 fixed offsets around a
  reference point, and the canvas is sized from the placed states.
- **Sequence diagrams.** Message lines (`A->>B: text`, `B-->>A: text`) and
  `loop`/`alt` ... `end` closures drive a layout with two cursors, `usedX`
  and `usedY`:
  - participants get a slot on first mention;
  - every message goes one step below the previous one;
  - closures form a tree, and each closure's box is computed when it is
    closed from the participants and child closures it covers.

Finally, `svg_util` holds the string helpers that shape SVG attributes
(`style`, `loc`, `endstyle`) and the markup `Text` and `Marker` write.

How the model is built:

- **Values.** Each part is first modelled as values: datatypes for the
  diagrams, and functions for the operations (`Automata`, `Sequence`,
  `Dispatch`, `SvgUtil`). The lemmas about them state what the source
  promises.
- **Classes.** The code that updates a diagram in place is modelled
  again as classes, `AutomataImpl.Diagram` and `SequenceImpl.Diagram`. Their
  fields are the Go struct fields and their methods contain the source's
  loops. Each method is proved to leave the object exactly as the
  corresponding function describes.
- **Pointers become indices.** States, participants, messages and closures
  are named by their position in their list. A closure's parent and the
  current closure are indices into the closure list.
- **Regular expressions.** The source's regular expressions are written
  out as matcher functions with the leftmost-first semantics of Go's
  `regexp`.
- **Randomness.** The random points of the placement fallback are a
  sequence given to the automata diagram when it is created.
- **Text.** Strings are sequences of characters, and `bytes.TrimSpace`
  and `ReadString('\n')` are modelled on them.

Some behaviour of the source is kept as written:

- validation of unclosed closures looks at the first closure only;
- a message that reaches further left than a closure's leftmost participant
  does not move the closure's right edge;
- a pseudo entry link into a placed state is dropped;
- the placement fallback is centred on the origin;
- "unplaced" is tested on `x == -1` alone;
- the dispatcher does not skip leading blank lines, although both grammars
  do. `Dispatch.GrammarSkipsLeadingNewline` shows the resulting discrepancy.

## Model

| member | source | states |
|---|---|---|
| `Dispatch.FirstLineIsFirstOfLines` | diagram/parse.go:13-17 | the dispatcher's first line (the text up to the first newline, trimmed) is the trimmed first line the grammars' line reader returns |
| `Dispatch.NewSequence` | diagram/parse.go:22 | the sequence diagram starts empty and valid with padding 8, participant width 150, height 60, margins 50, 10 and 30 |
| `Dispatch.NewAutomata` | diagram/parse.go:36 | the automata diagram starts empty with padding 10 and state margin 100 |
| `Dispatch.Parse` | diagram/parse.go:12-46 | a result is a sequence diagram iff the first line is `sequenceDiagram` and an automata diagram iff it is `automataDiagram`; for those two first lines the result is exactly that grammar's parse of the whole source into a fresh diagram with the fixed sizes, its error passed on unchanged; the error `"<first>" not supported` occurs iff the first line is neither; any other error is a grammar's own closure or line error, never its type error |
| `Dispatch.SequenceAfterTypeLine` | diagram/sequence/parse.go:50-57 | once the type line is read, the sequence loop reports only a closure error or a numbered line error |
| `Dispatch.SequenceTypeAccepted` | diagram/parse.go:21-25 | after the dispatcher picks the sequence grammar, that grammar fails only with a closure error, `closures must be closed`, or a line error numbered from 2 |
| `Dispatch.AutomataTypeAccepted` | diagram/parse.go:35-39 | after the dispatcher picks the automata grammar, that grammar fails only with `line N: syntax invalid`, N at least 2 |
| `Dispatch.LeadingNewlineUnsupported` | diagram/parse.go:13-17 | a source starting with a newline is rejected as `"" not supported`, whatever follows |
| `Dispatch.GrammarSkipsLeadingNewline` | diagram/parse.go:13-17 | for a source that is a newline followed by a sequence diagram, the dispatcher rejects it while the sequence grammar alone never reports the type error |
| `Text.TrimSpace` | diagram/sequence/parse.go:43 | the result is the slice of the input between its leading and trailing white space, and starts and ends with non-space |
| `Text.TrimSpaceIdempotent` | diagram/automata/parse.go:45 | trimming twice equals trimming once |
| `Text.TrimSpaceAppendSpace` | diagram/parse.go:13-17 | a trailing white-space character, such as the line's newline, does not change the trimmed text |
| `Text.SpanStartAppend` | diagram/parse.go:17 | a trailing space leaves the start of the text unchanged, unless the text is all space |
| `Text.IndexOf` | diagram/parse.go:13-16 | -1 when the character is absent, otherwise the index of its first occurrence |
| `Text.LastIndexOf` | diagram/sequence/parse.go:20 | -1 when absent, otherwise the index of the last occurrence (the last `:` of a message line) |
| `Text.Find` | diagram/automata/parse.go:80 | the first occurrence of the separator, or -1 iff it does not occur |
| `Text.Split` | diagram/automata/parse.go:80-81 | `strings.Split` yields at least one piece |
| `Text.SplitJoin` | diagram/automata/parse.go:80 | joining the pieces with the separator gives back the input |
| `Text.SplitPiecesFree` | diagram/automata/parse.go:80 | no piece contains the separator |
| `Text.FirstLineLength` | diagram/sequence/parse.go:31 | the first line has no newline before its end and ends with one unless it is the rest of the input |
| `Text.Lines` | diagram/sequence/parse.go:29-41 | every line the reader returns before end of input is non-empty |
| `Text.LinesConcat` | diagram/automata/parse.go:31-43 | the lines put back together are the input |
| `Text.LinesAreSingle` | diagram/automata/parse.go:33 | each line has a newline at most as its last character |
| `Text.LinesAfterNewline` | diagram/sequence/parse.go:31 | a leading newline is a line of its own |
| `Text.TrimmedLineHasNoNewline` | diagram/sequence/parse.go:43 | a trimmed line contains no newline |
| `Text.NatToString` | diagram/sequence/parse.go:83 | `%d` of a natural number is a non-empty string of decimal digits |
| `Text.NatToStringRoundTrip` | diagram/sequence/parse.go:83 | reading the digits back gives the number |
| `Text.IntToStringRoundTrip` | diagram/automata/parse.go:72 | reading `%d` of any integer back gives the integer |
| `Text.Half` | diagram/sequence/diagram.go:84 | Go's `/ 2` truncates toward zero: the remainder has the sign of the dividend |
| `SvgUtil.Style` | diagram/svg_util/svg_util.go:50-55 | empty for an empty input, otherwise `style="` + input + `"` |
| `SvgUtil.EndStyleEmpty` | diagram/svg_util/svg_util.go:31-45 | with no entries the end tag is returned unchanged |
| `SvgUtil.EndStyleShape` | diagram/svg_util/svg_util.go:32-41 | with entries, the result ends with the end tag and adds one attribute per entry, in order |
| `SvgUtil.AttributeCases` | diagram/svg_util/svg_util.go:35-39 | an entry whose first `=` is past its start is kept with a trailing space; another non-empty entry becomes a style attribute; an empty one adds nothing |
| `SvgUtil.EndStyle` | diagram/svg_util/svg_util.go:31-45 | the loop builds exactly the attributes of all entries followed by the end tag |
| `SvgUtil.Loc` | diagram/svg_util/svg_util.go:60 | the text is `x="`, then a quote-free value that reads back as `x`, then `" y="`, then a quote-free value that reads back as `y`, then a closing quote |
| `SvgUtil.TextMarkupParts` | diagram/svg_util/svg_util.go:19-23 | the text markup is the opener, the unescaped prefix, the escaped text and `</text>` plus a newline, in that order |
| `SvgUtil.Writer.Write` | diagram/svg_util/svg_util.go:20-23 | writing appends to what was written |
| `SvgUtil.WriteText` | diagram/svg_util/svg_util.go:19-25 | the writes of `Text` append exactly the text markup |
| `SvgUtil.MarkerMarkupParts` | diagram/svg_util/svg_util.go:12-16 | the marker opener starts `<marker id="<id>" orient="<orient>" refX="`; the values of `refX`, `refY`, `markerWidth` and `markerHeight` read back as x, y, width and height, in that order; the attributes and `>` plus a newline come last |
| `SvgUtil.WriteMarker` | diagram/svg_util/svg_util.go:12-16 | `Marker` appends exactly the marker opener, whose parts are those of `SvgUtil.MarkerMarkupParts` |
| `AutomataSyntax.HasArrowIsContains` | diagram/automata/parse.go:80 | the arrow test agrees with substring search for `->` |
| `AutomataSyntax.LastArrowIn` | diagram/automata/parse.go:20 | the last `->` before a bound, or -1 when there is none |
| `AutomataSyntax.SplitThree` | diagram/automata/parse.go:80 | a chain of three arrow-free pieces splits back into them |
| `AutomataSyntax.MatchLink` | diagram/automata/parse.go:20 | a match splits the text into source, `-`, label, `->`, target, with no dash in the source, no newline after it and no arrow in the target |
| `AutomataSyntax.MatchLinkSegment` | diagram/automata/parse.go:100-104 | a segment plus `->` plus the resolved target matches iff the segment has a dash; the source is the text before the first dash and the label the rest |
| `AutomataSyntax.SegmentWithoutDash` | diagram/automata/parse.go:100-103 | a segment without a dash does not match |
| `AutomataSyntax.MatchLinkExact` | diagram/automata/parse.go:20 | every well-shaped link text matches with exactly its own groups |
| `AutomataSyntax.MatchFinal` | diagram/automata/parse.go:21 | a match is a non-empty name without newline wrapped in parentheses |
| `AutomataSyntax.MatchFinalWrapped` | diagram/automata/parse.go:21 | every wrapped non-empty name matches and yields the name |
| `AutomataSyntax.MatchFinalNeedsParen` | diagram/automata/parse.go:21 | text not starting with `(` is not a final state |
| `AutomataSyntax.StateRef` | diagram/automata/parse.go:87-92 | `(X)` names state X with the final flag; any other text names itself, not final |
| `Automata.New` | diagram/automata/diagram.go:43-51 | an empty diagram with title height 24, note height 16, state radius 16 and the given padding and margin |
| `Automata.AddNote` | diagram/automata/diagram.go:53-55 | the note is appended and nothing else changes |
| `Automata.FindState` | diagram/automata/diagram.go:71-79 | the first state with the label, or none iff no state has it |
| `Automata.AddStateSpec` | diagram/automata/diagram.go:57-69 | an existing label gets `final := old or new` and no state is added; a new label is appended unplaced at (-1,-1); labels stay unique |
| `Automata.AddStateValid` | diagram/automata/diagram.go:57-69 | adding a state keeps the diagram invariant and registers the label without renaming others |
| `Automata.AddStateKeepsNames` | diagram/automata/diagram.go:57-69 | registering never renames or moves an existing state and never touches links |
| `Automata.Candidates` | diagram/automata/diagram.go:127-163 | there are exactly 16 candidate points |
| `Automata.CandidatesDistinct` | diagram/automata/diagram.go:127-163 | for a non-zero margin the 16 candidates are pairwise distinct and differ from the near point |
| `Automata.FirstFree` | diagram/automata/diagram.go:179-185 | the first point no state occupies, every earlier one being occupied |
| `Automata.Locate` | diagram/automata/diagram.go:120-190 | placement touches only the states' positions and the unused random draws |
| `Automata.LocateFrame` | diagram/automata/diagram.go:120-190 | only the located state moves, and it moves to a point no state occupied |
| `Automata.LocateTakesFirstFreeCandidate` | diagram/automata/diagram.go:124-185 | the state goes to the first of the 16 candidates that is free |
| `Automata.LocateFirstCandidate` | diagram/automata/diagram.go:128-129 | when `(near.x + sm, near.y)` is free the state lands there |
| `Automata.LocateFallback` | diagram/automata/diagram.go:164-177 | with all 16 candidates taken the state goes to the first free random draw, on the circle of radius `4*sm` about the origin |
| `Automata.FallbackIgnoresNear` | diagram/automata/diagram.go:164-168 | once the candidates are exhausted the near point no longer matters |
| `Automata.PlaceValid` | diagram/automata/diagram.go:189 | placing a state on a free point keeps positions pairwise distinct |
| `Automata.LocateValid` | diagram/automata/diagram.go:120-190 | placement keeps the diagram invariant, so placed states never share a point |
| `Automata.AddLink` | diagram/automata/diagram.go:81-108 | adding a link keeps the number of states, the title and the notes |
| `Automata.AddLinkSpec` | diagram/automata/diagram.go:81-108 | a pseudo link into a placed state changes nothing; into an unplaced one it appends a link without source; an ordinary link is always appended; only the two linked states can move |
| `Automata.AddLinkKeepsPlaced` | diagram/automata/diagram.go:82-105 | a placed state is never moved again |
| `Automata.AddLinkGrows` | diagram/automata/diagram.go:82-105 | one link keeps every state's index, name and final flag and every placed position, and only adds to the link list |
| `Automata.AddLinkValid` | diagram/automata/diagram.go:81-108 | adding a link keeps the diagram invariant |
| `Automata.AddLinkFreshPair` | diagram/automata/diagram.go:96-99 | with both ends unplaced and the first points free, the source lands at (sm,0) and the target at (2sm,0), as neighbours |
| `Automata.AddLinkFreshSelf` | diagram/automata/diagram.go:96-99 | an unplaced self-loop state is placed twice and ends at (2sm,0) |
| `Automata.NeighbourFacts` | diagram/automata/diagram.go:340-358 | `areNeighbour` is symmetric, and each of the first four candidates is a neighbour of its near point |
| `Automata.Resolve` | diagram/automata/parse.go:94-116 | the right-to-left walk only registers states: known states keep their index, name, final flag and placed position; it adds no link and queues links whose ends are registered |
| `Automata.ResolveStep` | diagram/automata/parse.go:105-115 | one resolved segment registers its source and queues the link from it to the previous target |
| `Automata.AddLinks` | diagram/automata/parse.go:118-121 | adding the queued links keeps the title and the notes |
| `Automata.AddLinksLast` | diagram/automata/parse.go:119-120 | the queue is applied from its last entry, so links are added left to right |
| `Automata.AddLinksValid` | diagram/automata/parse.go:118-121 | adding the queued links keeps the diagram invariant |
| `Automata.AddLinksGrows` | diagram/automata/parse.go:118-121 | adding the queued links keeps every state's index, name, final flag and placed position, and keeps the old links as a prefix |
| `Automata.ParseLinkLine` | diagram/automata/parse.go:79-124 | a link line keeps the invariant; known states keep their index, name, final flag and placed position; the old links stay as a prefix; the title and notes stay; it fails only with `syntax invalid` |
| `Automata.RightmostRegistered` | diagram/automata/parse.go:80-92 | the rightmost piece is registered first, with its final flag |
| `Automata.Finish` | diagram/automata/parse.go:94-123 | resolving and then linking keeps the invariant, keeps every known state and the old links, and fails only with `syntax invalid` |
| `Automata.ParseLinkLineNoArrow` | diagram/automata/parse.go:80-85 | a line without `->` is rejected and changes nothing |
| `Automata.ParseEmptyTarget` | diagram/automata/parse.go:82-85 | a line ending in `->` is rejected and changes nothing |
| `Automata.ParseNoDash` | diagram/automata/parse.go:100-103 | a segment without `-` before the arrow, such as `A->B`, is rejected |
| `Automata.ParseOneLink` | diagram/automata/parse.go:79-124 | `A-x->B` registers B then A and adds the link A to B labelled x |
| `Automata.ParseChain` | diagram/automata/parse.go:94-121 | `A-x->B-y->C` registers C, B, A and adds A to B "x" before B to C "y" |
| `Automata.ParsePseudoLink` | diagram/automata/parse.go:105-115 | `-x->B` in the leftmost segment is a pseudo entry link into B |
| `Automata.ParseInnerEmptySource` | diagram/automata/parse.go:95-98 | an empty source in a segment other than the leftmost is rejected |
| `Automata.ParseFrom` | diagram/automata/parse.go:31-74 | the loop keeps the invariant; known states keep their index, name, final flag and placed position; the old links stay as a prefix; it fails with the type error only before the type line, otherwise with the number of a line it read |
| `Automata.Parse` | diagram/automata/parse.go:26-77 | the only errors are the type error and `line N: syntax invalid` |
| `Automata.ParseBlank` | diagram/automata/parse.go:45-50 | blank lines change nothing |
| `Automata.ParseBlankLine` | diagram/automata/parse.go:31-50 | a blank line changes nothing but advances the line number by one |
| `Automata.ParseSkipsBlank` | diagram/automata/parse.go:31-50 | after `m` blank lines the loop goes on from line `n + m` with the same diagram |
| `Automata.ParseLinkLineFails` | diagram/automata/parse.go:71-73 | a rejected link line stops the loop with `line N: <cause>`, N its own number |
| `Automata.ParseErrorLine` | diagram/automata/parse.go:31-73 | after `m` blank lines a rejected link line reports the number `n + m`, blank lines counted |
| `Automata.ParseWrongType` | diagram/automata/parse.go:52-56 | a first non-blank line other than `automataDiagram` fails with `diagram type is unkown` |
| `Automata.ParseTitle` | diagram/automata/parse.go:61-65 | a `Title:` line sets the title to the rest of the trimmed line and is not read as a link line |
| `Automata.ParseNote` | diagram/automata/parse.go:66-70 | a `Note:` line appends the rest of the trimmed line as a note |
| `Automata.ExtentBounds` | diagram/automata/diagram.go:192-205 | the accumulated bounds contain the origin and every state, and each one is 0 or a state's coordinate |
| `Automata.StatesFitCanvas` | diagram/automata/diagram.go:192-223 | the area extends at least `sr + sm/2` left of and above the origin and `sr` right of and below it, and every state circle fits inside the padded canvas |
| `Automata.CanvasSizeNotes` | diagram/automata/diagram.go:215-223 | a note keeps the width and adds `noteHeight + 4` to the height, plus 40 for the first note |
| `AutomataImpl.Diagram.constructor` | diagram/automata/diagram.go:43-51 | the new object is `New(padding, stateMargin)` |
| `AutomataImpl.Diagram.AddNote` | diagram/automata/diagram.go:53-55 | the object becomes `Automata.AddNote` of its old value |
| `AutomataImpl.Diagram.GetState` | diagram/automata/diagram.go:71-79 | the loop returns the first state with the label, or none |
| `AutomataImpl.Diagram.AddState` | diagram/automata/diagram.go:57-69 | the object becomes `Automata.AddState` of its old value |
| `AutomataImpl.Diagram.IsFree` | diagram/automata/diagram.go:179-183 | the loop finds a point free iff no state occupies it |
| `AutomataImpl.Diagram.Locate` | diagram/automata/diagram.go:120-190 | the retry loop leaves the object as `Automata.Locate` describes |
| `AutomataImpl.Diagram.AddLink` | diagram/automata/diagram.go:81-108 | the object becomes `Automata.AddLink` of its old value |
| `AutomataImpl.Diagram.ParseLinkLine` | diagram/automata/parse.go:79-124 | the object and error are those of `Automata.ParseLinkLine` |
| `AutomataImpl.Diagram.ResolveSegments` | diagram/automata/parse.go:94-116 | the downward loop computes `Automata.Resolve` |
| `AutomataImpl.Diagram.AddQueued` | diagram/automata/parse.go:118-121 | the second loop computes `Automata.AddLinks` |
| `AutomataImpl.Diagram.ParseLine` | diagram/automata/parse.go:32-73 | one iteration of the line loop advances `Automata.ParseFrom` by one line |
| `AutomataImpl.Diagram.Parse` | diagram/automata/parse.go:26-77 | the object and error are those of `Automata.Parse` |
| `AutomataImpl.Diagram.CalculateStatesArea` | diagram/automata/diagram.go:192-210 | the accumulator loop computes the states' area |
| `AutomataImpl.Diagram.CanvasSize` | diagram/automata/diagram.go:214-223 | the sizing in `Draw` computes the canvas size |
| `SequenceSyntax.ArrowLength` | diagram/sequence/parse.go:20 | 4 at a `-->>`, 3 at a `->>`, 0 elsewhere |
| `SequenceSyntax.GroupsJoin` | diagram/sequence/parse.go:20 | the four groups put back together are the line |
| `SequenceSyntax.LastMessageAt` | diagram/sequence/parse.go:20 | the last split point before a bound at which the message pattern fits |
| `SequenceSyntax.MatchMessage` | diagram/sequence/parse.go:20 | no match iff the pattern fits at no split point; a match takes the last split point, which is the longest first group |
| `SequenceSyntax.MatchMessageShape` | diagram/sequence/parse.go:20 | a match is source, arrow (`->>` or `-->>`), non-empty target, `:`, text without `:`, the source not ending in `-` |
| `SequenceSyntax.MatchMessageCompose` | diagram/sequence/parse.go:20 | every line built that way matches with exactly its own groups |
| `SequenceSyntax.MatchClosureStart` | diagram/sequence/parse.go:21 | a match is `loop` or `alt`, one space and a non-empty condition |
| `SequenceSyntax.MatchClosureStartCompose` | diagram/sequence/parse.go:21 | every such line matches with its keyword and condition |
| `Sequence.New` | diagram/sequence/diagram.go:45-66 | an empty valid diagram whose cursors stand below the title and the participant boxes, at the left padding |
| `Sequence.AddNote` | diagram/sequence/diagram.go:209-211 | the note is appended and nothing else changes |
| `Sequence.FindFrom` | diagram/sequence/diagram.go:70-74 | the first participant with the label from a position, or none |
| `Sequence.AddParticipant` | diagram/sequence/diagram.go:68-89 | a known label returns its participant and changes nothing; a new one is appended at `usedX` (plus `pMargin` unless first), with its lifeline at `x + pWidth/2`, and `usedX` moves to its right edge |
| `Sequence.AddParticipantValid` | diagram/sequence/diagram.go:68-89 | registering a participant keeps the invariant and never moves an existing one |
| `Sequence.AppendLaidOut` | diagram/sequence/diagram.go:76-86 | a new participant continues the row of boxes |
| `Sequence.AppendDistinct` | diagram/sequence/diagram.go:70-74 | labels stay distinct |
| `Sequence.AddParticipantOnce` | diagram/sequence/diagram.go:68-89 | the returned participant is the only one with the label |
| `Sequence.AddParticipantIdempotent` | diagram/sequence/diagram.go:70-74 | registering the same label again returns the same participant and changes nothing |
| `Sequence.ParticipantsOrdered` | diagram/sequence/diagram.go:78-85 | participants stand strictly left to right in list order |
| `Sequence.ParticipantsMonotone` | diagram/sequence/diagram.go:78-85 | with non-negative sizes, x never decreases along the list |
| `Sequence.ClosureAddMessage` | diagram/sequence/closure.go:23-45 | the message becomes the closure's last message, only the edge fields change, and the left edge stays left of the right edge |
| `Sequence.ClosureAddMessageEdges` | diagram/sequence/closure.go:26-44 | the first message sets both edges and the self-call flag; later, the left edge is the leftmost participant so far and the right edge never moves left |
| `Sequence.FurtherLeftKeepsRight` | diagram/sequence/closure.go:37-38 | a message reaching further left updates only the left edge, even when it also reaches further right |
| `Sequence.FurtherRightMovesRight` | diagram/sequence/closure.go:39-41 | a message reaching only further right moves the right edge and sets the self-call flag from the message |
| `Sequence.InsideKeepsEdges` | diagram/sequence/closure.go:42-44 | a message within the edges keeps them, and sets the flag when it is a self-call at the right edge |
| `Sequence.NewMessage` | diagram/sequence/diagram.go:185-194 | the message is placed `mMargin` below the cursor between the two participants |
| `Sequence.AddMessageSpec` | diagram/sequence/diagram.go:181-207 | the message between the two registered participants is appended with `y1 = usedY + mMargin`, self-call iff the labels are equal; the cursor moves to `y1` (20 more for a self-call); only the current closure changes, becoming that closure with the message added by `Sequence.ClosureAddMessage` |
| `Sequence.AddParticipantKeeps` | diagram/sequence/diagram.go:68-89 | registering a participant touches only the participants and `usedX` |
| `Sequence.PlaceMessageSpec` | diagram/sequence/diagram.go:196-206 | placing a message appends it, moves the cursor, and updates only the current closure, which becomes that closure with the message added by `Sequence.ClosureAddMessage` |
| `Sequence.AddMessageValid` | diagram/sequence/diagram.go:181-207 | adding a message keeps the invariant |
| `Sequence.PlaceMessageValid` | diagram/sequence/diagram.go:196-206 | placing a message keeps the invariant |
| `Sequence.StartClosure` | diagram/sequence/diagram.go:91-105 | a new open closure with `y = usedY + cMargin`, the current closure as parent, is appended and made current, and `usedY` moves 20 below `y` |
| `Sequence.StartClosureValid` | diagram/sequence/diagram.go:91-105 | starting a closure keeps the invariant |
| `Sequence.ChildLeftBounds` | diagram/sequence/diagram.go:140-144 | the scan returns the least of the start and every child's x, and that value is one of them |
| `Sequence.ChildRightBounds` | diagram/sequence/diagram.go:160-164 | the scan returns the greatest of the start and every child's right edge, and that value is one of them |
| `Sequence.CloseBox` | diagram/sequence/diagram.go:132-174 | closing changes only the box and the closed flag |
| `Sequence.CloseBoxBounds` | diagram/sequence/diagram.go:132-172 | the box reaches `cMargin` beyond the leftmost and rightmost lifelines (60 more for a self-call at the right) and beyond every child box; each edge sits exactly `cMargin` beyond the lifeline or child box that reaches furthest; its bottom is `cMargin` below the cursor, 20 more after a closing self-call |
| `Sequence.EndClosure` | diagram/sequence/diagram.go:107-179 | it fails iff no closure is open, with `close before start closure`, and otherwise keeps the invariant |
| `Sequence.DiscardValid` | diagram/sequence/diagram.go:123-129 | dropping an empty current closure keeps the invariant |
| `Sequence.CloseValid` | diagram/sequence/diagram.go:132-177 | closing the current closure keeps the invariant |
| `Sequence.DiscardUndoesStart` | diagram/sequence/diagram.go:113-130 | ending a closure just started gives back the diagram exactly as before the start |
| `Sequence.EndClosureCursor` | diagram/sequence/diagram.go:113-177 | the parent becomes current; discarding moves the cursor up by exactly `20 + cMargin` and drops the last closure; closing marks it closed and never moves the cursor up |
| `Sequence.ParseFrom` | diagram/sequence/parse.go:29-85 | the loop keeps the invariant; it fails with the type error only before the type line, with the `end` error, or with the number of a line it read |
| `Sequence.ParseLine` | diagram/sequence/parse.go:59-84 | a line keeps the invariant and fails only with the `end` error or its own line error |
| `Sequence.ParseStatement` | diagram/sequence/parse.go:72-84 | a message or closure line keeps the invariant; anything else fails with `line N: unable to parse` |
| `Sequence.ParseLinesOf` | diagram/sequence/parse.go:24-88 | the line loop over the whole source keeps the invariant and fails only with its three kinds of error |
| `Sequence.Finish` | diagram/sequence/diagram.go:219-222 | validation fails iff there is a closure and the first one is not closed |
| `Sequence.Parse` | diagram/sequence/diagram.go:214-240 | the only errors are the type error, the `end` error, `closures must be closed` and numbered line errors |
| `Sequence.ParseBlank` | diagram/sequence/parse.go:45-48 | blank lines change nothing |
| `Sequence.ParseBlankLine` | diagram/sequence/parse.go:29-48 | a blank line changes nothing but advances the line number by one |
| `Sequence.ParseSkipsBlank` | diagram/sequence/parse.go:29-48 | after `m` blank lines the loop goes on from line `n + m` with the same diagram |
| `Sequence.ParseErrorLine` | diagram/sequence/parse.go:29-84 | after `m` blank lines a line nothing accepts fails with `line N: unable to parse`, N = `n + m`, blank lines counted |
| `Sequence.ParseWrongType` | diagram/sequence/parse.go:50-54 | a first non-blank line other than `sequenceDiagram` fails with `diagram type is unkown` |
| `Sequence.ParseStep` | diagram/sequence/parse.go:29-85 | after the type line each non-blank line is handled on its trimmed text and a failure stops the loop |
| `Sequence.ParseEndBeforeStart` | diagram/sequence/parse.go:61-65 | `end` with no open closure fails with an error that carries no line number |
| `Sequence.ParseLineMessage` | diagram/sequence/parse.go:72-74 | a message line adds a message between the trimmed source and target with the untrimmed text, a call iff the arrow is `->>` |
| `Sequence.MessageLineNoKeyword` | diagram/sequence/parse.go:59-61 | a message line is never the `autoSequenceNumber` or `end` keyword, so the message branch is reached |
| `Sequence.ParseLineClosure` | diagram/sequence/parse.go:75-81 | `loop c` or `alt c`, unless it also reads as a message, starts a closure of that kind with condition c |
| `Sequence.ClosureLineNoDirective` | diagram/sequence/parse.go:59-71 | a closure line is no keyword and has no title or note prefix |
| `Sequence.ParseLineUnmatched` | diagram/sequence/parse.go:82-83 | a line nothing accepts fails with `line N: unable to parse` |
| `Sequence.LineErrorNumbers` | diagram/sequence/parse.go:83 | two line errors are equal only for the same line number |
| `Sequence.FinishChecksFirstOnly` | diagram/sequence/diagram.go:220-222 | a later unclosed closure passes validation when the first one is closed |
| `Sequence.FinishCanvas` | diagram/sequence/diagram.go:224-237 | `lY2 = usedY + mMargin`; height is `lY2 + pHeight` (+ `40 + n*(noteHeight+4)` with n notes) + padding; width is `usedX + padding`, and every participant box fits `padding` inside it; nothing else changes |
| `SequenceImpl.Diagram.constructor` | diagram/sequence/diagram.go:45-66 | the new object is `Sequence.New` of the sizes |
| `SequenceImpl.Diagram.AddNote` | diagram/sequence/diagram.go:209-211 | the object becomes `Sequence.AddNote` of its old value |
| `SequenceImpl.Diagram.AddParticipant` | diagram/sequence/diagram.go:68-89 | the search loop and the append give `Sequence.AddParticipant` and its index |
| `SequenceImpl.Diagram.AddToClosure` | diagram/sequence/closure.go:23-45 | only the closure entry changes, to `Sequence.ClosureAddMessage` of it |
| `SequenceImpl.Diagram.AddMessage` | diagram/sequence/diagram.go:181-207 | the object becomes `Sequence.AddMessage` of its old value |
| `SequenceImpl.Diagram.PlaceMessage` | diagram/sequence/diagram.go:196-206 | the object becomes `Sequence.PlaceMessage` of its old value |
| `SequenceImpl.Diagram.StartClosure` | diagram/sequence/diagram.go:91-105 | the object becomes `Sequence.StartClosure` of its old value |
| `SequenceImpl.Diagram.HasDescendants` | diagram/sequence/diagram.go:116-122 | the loop finds a child of the closure iff one exists |
| `SequenceImpl.Diagram.LeftOfChildren` | diagram/sequence/diagram.go:140-144 | the loop computes the least child x |
| `SequenceImpl.Diagram.RightOfChildren` | diagram/sequence/diagram.go:160-164 | the loop computes the greatest child right edge |
| `SequenceImpl.Diagram.EndClosure` | diagram/sequence/diagram.go:107-179 | the object and error are those of `Sequence.EndClosure`; on the error the object is unchanged |
| `SequenceImpl.Diagram.Discard` | diagram/sequence/diagram.go:123-129 | the object becomes `Sequence.Discard` of its old value |
| `SequenceImpl.Diagram.Close` | diagram/sequence/diagram.go:132-177 | the object becomes `Sequence.Close` of its old value |
| `SequenceImpl.Diagram.Box` | diagram/sequence/diagram.go:132-172 | the box computed by the loops is `Sequence.CloseBox` |
| `SequenceImpl.Diagram.ParseLines` | diagram/sequence/parse.go:24-88 | the line loop leaves the object and error of `Sequence.ParseLinesOf` |
| `SequenceImpl.Diagram.ParseStep` | diagram/sequence/parse.go:30-84 | one iteration advances `Sequence.ParseFrom` by one line |
| `SequenceImpl.Diagram.ParseLine` | diagram/sequence/parse.go:59-84 | the object and error are those of `Sequence.ParseLine` |
| `SequenceImpl.Diagram.ParseStatement` | diagram/sequence/parse.go:72-84 | the object and error are those of `Sequence.ParseStatement` |
| `SequenceImpl.Diagram.Parse` | diagram/sequence/diagram.go:214-240 | the object and error are those of `Sequence.Parse` |
| `SequenceImpl.Diagram.Finish` | diagram/sequence/diagram.go:219-239 | the object and error are those of `Sequence.Finish` |

## Left out

- Drawing: `Draw`, `drawParticipants`, `drawClosures`, `drawMessages`, `drawStates` and `drawLinks` emit SVG through an external library, and the automata link ends use floating-point square roots. Only the integer canvas sizing of the automata `Draw` is modelled, and the dispatcher returns the parsed diagram instead of SVG bytes.
- The random placement fallback draws points with `math/rand` and a floating-point square root. It is modelled as a given sequence of points on the circle.
- Automata.Locate: when the given random points run out before a free one is found, the state stays unplaced. The source would keep drawing.
- `xml.Escape` is a parameter of `SvgUtil.TextMarkup` and `SvgUtil.WriteText`, not a model of XML escaping.
- I/O errors of the line reader other than end of input cannot occur on an in-memory buffer and are not modelled.
- Integers are unbounded. Go's 64-bit `int` wrap-around on huge coordinates or counts is not modelled.
- diagram/sequence/participant.go is not part of this model. The participant record (label, x, y, lifeline x) is inferred from its uses in diagram/sequence/diagram.go.
- Bytes are modelled as characters, so `[]byte` and `string` sources are the same `string` here. Only the white space of Go's `unicode.IsSpace` is trimmed.
- SequenceSyntax.MatchMessage: stated only for text without a newline. That is all the parser ever gives it, because trimmed lines have none.
- SequenceSyntax.MatchClosureStart: stated only for text without a newline, for the same reason.
- Sequence.ParseFrom: stated for diagrams that satisfy `Sequence.Valid`. `Sequence.New` establishes it and every operation keeps it. The same applies to `Sequence.ParseLine`, `Sequence.ParseStatement`, `Sequence.ParseLinesOf` and `Sequence.Parse`.
- Automata.AddLinkSpec: both labels must be registered, or empty for the source. `parseLinkLine` registers them first; the source would dereference a nil state otherwise.
- Closure objects that the source updates through pointers are entries of the closure list here. An update to the current closure replaces its entry.
- The HTTP handlers, storage, configuration and application lifecycle lie outside the diagram engine. That includes a second dispatcher in the web handlers that trims the source first.
