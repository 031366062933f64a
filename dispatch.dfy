/**
 * The entry point of the diagram engine (`diagram.Parse`): the trimmed
 * first line of the source names the grammar, a fresh diagram of that kind
 * with fixed sizes parses the whole source, and only a diagram that parsed
 * is handed on to drawing. Drawing itself is not part of this model, so the
 * result is the parsed diagram rather than its SVG bytes.
 */
module Dispatch {
  import opened Wrappers
  import opened Text
  import Sequence
  import Automata

  /** A parsed diagram of one of the two supported kinds. */
  datatype Drawing =
    | SequenceDrawing(sequence: Sequence.Model)
    | AutomataDrawing(automata: Automata.Model)

  /** The error for a first line that names no supported grammar, as `"%s" not supported` formats it. */
  function Unsupported(first: string): string {
    "\"" + first + "\" not supported"
  }

  /**
   * The first line as the dispatcher reads it: everything before the first
   * newline, or the whole source when there is none, with surrounding white
   * space trimmed. Leading blank lines are not skipped.
   */
  function FirstLine(source: string): string {
    var at := IndexOf(source, '\n');
    var cut := if at == -1 then |source| else at;
    TrimSpace(source[..cut])
  }

  /** The sequence diagram the dispatcher starts from: padding 8, participant width 150 and height 60, margins 50, 10 and 30. */
  function NewSequence(): (d: Sequence.Model)
    ensures Sequence.Valid(d) && d.participants == [] && d.closures == [] && d.current.None?
    ensures d.padding == 8 && d.pWidth == 150 && d.pHeight == 60
    ensures d.pMargin == 50 && d.cMargin == 10 && d.mMargin == 30
  {
    Sequence.New(8, 150, 60, 50, 10, 30)
  }

  /** The automata diagram the dispatcher starts from: padding 10, state margin 100. */
  function NewAutomata(samples: seq<Automata.Point>): (d: Automata.Model)
    ensures d.states == [] && d.links == [] && d.padding == 10 && d.sm == 100 && d.samples == samples
  {
    Automata.New(10, 100, samples)
  }

  /** An error one of the two grammars reports once its type line has been accepted. */
  ghost predicate GrammarError(msg: string) {
    msg == Sequence.ErrCloseBeforeStart || msg == Sequence.ErrUnclosed
    || (exists k :: 1 <= k && msg == Sequence.LineError(k))
    || (exists k :: 1 <= k && msg == Automata.LineError(k, Automata.ErrSyntaxInvalid))
  }

  /**
   * `Parse`: the grammar is chosen by the first line alone, and the chosen
   * parser's error is passed on unchanged. `samples` stands for the random
   * points the automata placement falls back on.
   */
  function Parse(source: string, samples: seq<Automata.Point>): (r: Result<Drawing>)
    ensures r.Ok? ==> (r.value.SequenceDrawing? <==> FirstLine(source) == Sequence.DiagramType)
    ensures r.Ok? ==> (r.value.AutomataDrawing? <==> FirstLine(source) == Automata.DiagramType)
    ensures FirstLine(source) != Sequence.DiagramType && FirstLine(source) != Automata.DiagramType
            <==> r == Err(Unsupported(FirstLine(source)))
    ensures r.Err? && r.msg != Unsupported(FirstLine(source)) ==> GrammarError(r.msg)
    ensures FirstLine(source) == Sequence.DiagramType ==>
      r == (match Sequence.Parse(NewSequence(), source)
            case Ok(d) => Ok(SequenceDrawing(d))
            case Err(e) => Err(e))
    ensures FirstLine(source) == Automata.DiagramType ==>
      r == (match Automata.Parse(NewAutomata(samples), source)
            case Ok(d) => Ok(AutomataDrawing(d))
            case Err(e) => Err(e))
  {
    var first := FirstLine(source);
    if first == Sequence.DiagramType then
      SequenceTypeAccepted(source);
      match Sequence.Parse(NewSequence(), source)
      case Err(e) =>
        assert e[0] != '"';
        Err(e)
      case Ok(d) => Ok(SequenceDrawing(d))
    else if first == Automata.DiagramType then
      AutomataTypeAccepted(source, samples);
      match Automata.Parse(NewAutomata(samples), source)
      case Err(e) =>
        assert e[0] != '"';
        Err(e)
      case Ok(d) => Ok(AutomataDrawing(d))
    else
      Err(Unsupported(first))
  }

  /** The dispatcher's first line is the grammars' first line, trimmed: a newline at its end is white space. */
  lemma FirstLineIsFirstOfLines(source: string)
    requires source != []
    ensures FirstLine(source) == TrimSpace(Lines(source)[0])
  {
    var n := FirstLineLength(source);
    assert Lines(source)[0] == source[..n];
    var at := IndexOf(source, '\n');
    if at == -1 {
      assert n == |source|;
    } else {
      assert at == n - 1;
      assert source[..n] == source[..at] + ['\n'];
      TrimSpaceAppendSpace(source[..at], '\n');
    }
  }

  /** After a type line, the sequence grammar reports only closure and line errors. */
  lemma SequenceAfterTypeLine(d: Sequence.Model, ls: seq<string>, n: int)
    requires Sequence.Valid(d) && forall k :: 0 <= k < |ls| ==> OneLine(ls[k])
    requires ls != [] && TrimSpace(ls[0]) == Sequence.DiagramType
    ensures var r := Sequence.ParseFrom(d, ls, n, true);
      r.Err? ==> (r.msg == Sequence.ErrCloseBeforeStart || exists k :: n < k && r.msg == Sequence.LineError(k))
  {
    assert Sequence.ParseFrom(d, ls, n, true) == Sequence.ParseFrom(d, ls[1..], n + 1, false);
  }

  /** Once the dispatcher has picked the sequence grammar, that grammar never rejects the diagram type. */
  lemma SequenceTypeAccepted(source: string)
    requires FirstLine(source) == Sequence.DiagramType
    ensures var r := Sequence.Parse(NewSequence(), source);
      r.Err? ==> (r.msg == Sequence.ErrCloseBeforeStart || r.msg == Sequence.ErrUnclosed
                  || exists k :: 2 <= k && r.msg == Sequence.LineError(k))
  {
    LinesAreSingle(source);
    FirstLineIsFirstOfLines(source);
    SequenceAfterTypeLine(NewSequence(), Lines(source), 1);
  }

  /** Once the dispatcher has picked the automata grammar, that grammar never rejects the diagram type. */
  lemma AutomataTypeAccepted(source: string, samples: seq<Automata.Point>)
    requires FirstLine(source) == Automata.DiagramType
    ensures var r := Automata.Parse(NewAutomata(samples), source);
      r.Err? ==> exists k :: 2 <= k && r.msg == Automata.LineError(k, Automata.ErrSyntaxInvalid)
  {
    var d := NewAutomata(samples);
    var ls := Lines(source);
    FirstLineIsFirstOfLines(source);
    assert Automata.ParseFrom(d, ls, 1, true) == Automata.ParseFrom(d, ls[1..], 2, false);
  }

  /** A source that starts with a newline is unsupported whatever follows, because its first line is empty. */
  lemma LeadingNewlineUnsupported(rest: string, samples: seq<Automata.Point>)
    ensures Parse("\n" + rest, samples) == Err(Unsupported(""))
  {
    var s := "\n" + rest;
    assert IndexOf(s, '\n') == 0;
    assert FirstLine(s) == [];
  }

  /**
   * The sequence grammar on its own skips a leading blank line and accepts
   * the type line after it, while the dispatcher rejects the same source.
   */
  lemma GrammarSkipsLeadingNewline(rest: string, samples: seq<Automata.Point>)
    requires FirstLine(rest) == Sequence.DiagramType
    ensures Parse("\n" + rest, samples) == Err(Unsupported(""))
    ensures var r := Sequence.Parse(NewSequence(), "\n" + rest);
      r.Err? ==> r.msg != Sequence.ErrTypeUnknown
  {
    LeadingNewlineUnsupported(rest, samples);
    var d := NewSequence();
    var ls := Lines(rest);
    LinesAfterNewline(rest);
    LinesAreSingle(rest);
    assert Sequence.ParseFrom(d, ["\n"] + ls, 1, true) == Sequence.ParseFrom(d, ls, 2, true);
    FirstLineIsFirstOfLines(rest);
    SequenceAfterTypeLine(d, ls, 2);
    assert Sequence.ErrTypeUnknown[0] != Sequence.ErrCloseBeforeStart[0];
  }
}
