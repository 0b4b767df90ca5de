/**
 When rendering is idempotent: exactly when no text put into a block reads back with
 a marker line.  And when a write leaves nothing for a check to report: exactly when
 no text contains a marker line or a CR.
 */
module RenderingProperties {
  import opened Bytes
  import opened Text
  import opened Render
  import opened Rendering

  // -------------------------------------------------------------- lines of text

  lemma FreeConcat(xs: seq<string>, ys: seq<string>, c: char)
    ensures Free(xs + ys, c) <==> Free(xs, c) && Free(ys, c)
  {
    if Free(xs + ys, c) {
      assert forall i :: 0 <= i < |xs| ==> xs[i] == (xs + ys)[i];
      assert forall i :: 0 <= i < |ys| ==> ys[i] == (xs + ys)[|xs| + i];
    }
  }

  lemma {:induction false} UnparseHas(segments: seq<Segment>, c: char)
    ensures Free(Unparse(segments), c) <==> forall k :: 0 <= k < |segments| ==> Free(segments[k].Lines(), c)
  {
    if segments != [] {
      UnparseHas(segments[1..], c);
      FreeConcat(segments[0].Lines(), Unparse(segments[1..]), c);
      assert forall k :: 1 <= k < |segments| ==> segments[k] == segments[1..][k - 1];
    }
  }

  lemma RenderedIsFree(render: Renderer, s: Segment)
    requires Free(s.Lines(), '\n') && (s.Block? ==> render(s.id).Some?)
    ensures Free(Rendered(render, s).Lines(), '\n')
  {
    if s.Block? {
      var text := render(s.id).value;
      if text != "" { SplitIsFree(text, '\n'); }
      assert s.Lines()[0] == s.begin && s.Lines()[|s.inner| + 1] == s.end;
    }
  }

  /** The lines of a rendered document are the lines of the rendered segments. */
  lemma LinesOfRendered(render: Renderer, content: string)
    requires RenderText(render, content).Ok?
    ensures var segments := Parse(Split(Normalize(content), '\n'));
            && segments.Ok? && WellMarked(segments.value, {}) && RenderSegments(render, segments.value).Ok?
            && Split(RenderText(render, content).value, '\n') == Unparse(RenderSegments(render, segments.value).value)
  {
    hide WellMarked, Unparse, RenderSegments, Rendered, ParseOutside;
    var lines := Split(Normalize(content), '\n');
    var segments := Parse(lines).value;
    var rendered := RenderSegments(render, segments).value;
    FindIff(lines, segments);
    SplitIsFree(Normalize(content), '\n');
    UnparseHas(segments, '\n');
    RenderKeeps(render, segments);
    forall k | 0 <= k < |rendered| ensures Free(rendered[k].Lines(), '\n') {
      RenderedIsFree(render, segments[k]);
    }
    UnparseHas(rendered, '\n');
    NotEmpty(segments);
    NotEmpty(rendered);
    SplitOfJoin(Unparse(rendered), '\n');
  }

  lemma NotEmpty(segments: seq<Segment>)
    ensures Unparse(segments) == [] <==> segments == []
  {
  }

  // ------------------------------------------------------------ counting markers

  predicate Counts(line: string, ends: bool)
  {
    if ends then MarkOf(line) == End else MarkOf(line).Begin?
  }

  /** How many end markers, or begin markers, are among the lines. */
  function Tally(lines: seq<string>, ends: bool): nat
  {
    if lines == [] then 0 else (if Counts(lines[0], ends) then 1 else 0) + Tally(lines[1..], ends)
  }

  lemma {:induction false} TallyConcat(xs: seq<string>, ys: seq<string>, ends: bool)
    ensures Tally(xs + ys, ends) == Tally(xs, ends) + Tally(ys, ends)
  {
    if xs == [] {
      assert xs + ys == ys;
    } else {
      assert (xs + ys)[1..] == xs[1..] + ys;
      TallyConcat(xs[1..], ys, ends);
    }
  }

  lemma {:induction false} PlainIffNoTally(lines: seq<string>)
    ensures AllPlain(lines) <==> Tally(lines, true) == 0 && Tally(lines, false) == 0
  {
    if lines != [] {
      hide MarkOf;
      PlainIffNoTally(lines[1..]);
      assert forall i :: 1 <= i < |lines| ==> lines[i] == lines[1..][i - 1];
    }
  }

  function BlockCount(segments: seq<Segment>): nat
  {
    if segments == [] then 0 else (if segments[0].Block? then 1 else 0) + BlockCount(segments[1..])
  }

  /** The markers that the given inner texts would add over one per block. */
  function Extra(segments: seq<Segment>, ends: bool): nat
  {
    if segments == [] then 0
    else (if segments[0].Block? then Tally(segments[0].inner, ends) else 0) + Extra(segments[1..], ends)
  }

  /** Markers are where they belong, except perhaps in inner text. */
  predicate OuterMarked(s: Segment)
  {
    match s
    case Line(text) => MarkOf(text) == Plain
    case Block(begin, id, inner, end) => MarkOf(begin) == Begin(id) && MarkOf(end) == End
  }

  lemma TallyOfSegment(s: Segment, ends: bool)
    requires OuterMarked(s)
    ensures Tally(s.Lines(), ends) == if s.Block? then 1 + Tally(s.inner, ends) else 0
  {
    hide MarkOf;
    if s.Block? {
      TallyConcat([s.begin] + s.inner, [s.end], ends);
      TallyConcat([s.begin], s.inner, ends);
    }
  }

  lemma {:induction false} TallyOfSegments(segments: seq<Segment>, ends: bool)
    requires forall k :: 0 <= k < |segments| ==> OuterMarked(segments[k])
    ensures Tally(Unparse(segments), ends) == BlockCount(segments) + Extra(segments, ends)
  {
    if segments != [] {
      hide OuterMarked;
      TallyOfSegments(segments[1..], ends);
      TallyOfSegment(segments[0], ends);
      TallyConcat(segments[0].Lines(), Unparse(segments[1..]), ends);
    }
  }

  lemma {:induction false} NoExtra(segments: seq<Segment>, ends: bool)
    ensures Extra(segments, ends) == 0 <==>
            forall k :: 0 <= k < |segments| && segments[k].Block? ==> Tally(segments[k].inner, ends) == 0
  {
    if segments != [] {
      NoExtra(segments[1..], ends);
      assert forall k :: 1 <= k < |segments| ==> segments[k] == segments[1..][k - 1];
    }
  }

  lemma {:induction false} WellMarkedFacts(segments: seq<Segment>, seen: set<string>)
    requires WellMarked(segments, seen)
    ensures forall k :: 0 <= k < |segments| ==> Marked(segments[k])
    decreases |segments|
  {
    if segments != [] {
      hide Marked;
      WellMarkedFacts(segments[1..], SeenAfter(segments[0], seen));
      assert forall k :: 1 <= k < |segments| ==> segments[k] == segments[1..][k - 1];
    }
  }

  /** A begin marker among the lines of well-marked segments opens one of their blocks. */
  lemma {:induction false} BeginLineOpens(segments: seq<Segment>, line: string)
    requires (forall k :: 0 <= k < |segments| ==> Marked(segments[k])) && line in Unparse(segments) &&
             MarkOf(line).Begin?
    ensures Uses(segments, MarkOf(line).id)
  {
    hide MarkOf;
    var head, tail := segments[0], segments[1..];
    if line in head.Lines() {
      assert head.Block?;
      assert head.begin == line;
      assert segments[0].Block?;
    } else {
      assert forall k :: 0 <= k < |tail| ==> tail[k] == segments[k + 1];
      BeginLineOpens(tail, line);
      var k :| 0 <= k < |tail| && tail[k].Block? && tail[k].id == MarkOf(line).id;
      assert segments[k + 1].Block?;
    }
  }

  lemma {:induction false} BeginLineStays(segments: seq<Segment>, k: nat)
    requires k < |segments| && segments[k].Block?
    ensures segments[k].begin in Unparse(segments)
  {
    hide *;
    var head, tail := segments[0], segments[1..];
    assert segments == [head] + tail;
    SegmentsFirst(head, tail, 0);
    if k == 0 {
      LinesOf(head);
      assert head.Lines()[0] == head.begin;
    } else {
      BeginLineStays(tail, k - 1);
      assert tail[k - 1] == segments[k];
    }
  }

  // ------------------------------------------------------------- filling blocks

  /** Inner lines for each block ID. */
  type Filler = string -> seq<string>

  function Fill(f: Filler, s: Segment): Segment
  {
    if s.Line? then s else s.(inner := f(s.id))
  }

  function FillAll(f: Filler, segments: seq<Segment>): (r: seq<Segment>)
    ensures |r| == |segments| && forall k :: 0 <= k < |r| ==> r[k] == Fill(f, segments[k])
  {
    seq(|segments|, k requires 0 <= k < |segments| => Fill(f, segments[k]))
  }

  predicate PlainFills(f: Filler, segments: seq<Segment>)
  {
    forall k :: 0 <= k < |segments| && segments[k].Block? ==> AllPlain(f(segments[k].id))
  }

  lemma FillFirst(f: Filler, segments: seq<Segment>)
    requires segments != []
    ensures FillAll(f, segments) == [Fill(f, segments[0])] + FillAll(f, segments[1..])
  {
  }

  lemma {:induction false} SameBlockCount(f: Filler, segments: seq<Segment>)
    ensures BlockCount(FillAll(f, segments)) == BlockCount(segments)
  {
    if segments != [] {
      SameBlockCount(f, segments[1..]);
      assert FillAll(f, segments)[1..] == FillAll(f, segments[1..]);
    }
  }

  /** Well-marked segments have one begin and one end marker per block and no other. */
  lemma TallyOfWellMarked(segments: seq<Segment>, ends: bool)
    requires WellMarked(segments, {})
    ensures Tally(Unparse(segments), ends) == BlockCount(segments)
  {
    hide MarkOf, WellMarked, Unparse, Tally;
    WellMarkedFacts(segments, {});
    TallyOfSegments(segments, ends);
    NoExtra(segments, ends);
    forall k | 0 <= k < |segments| && segments[k].Block? ensures Tally(segments[k].inner, ends) == 0 {
      PlainIffNoTally(segments[k].inner);
    }
  }

  /** The markers in a filled document: one pair per block, and those inside the filling. */
  lemma TallyOfFilled(f: Filler, segments: seq<Segment>, ends: bool)
    requires WellMarked(segments, {})
    ensures Tally(Unparse(FillAll(f, segments)), ends) == BlockCount(segments) + Extra(FillAll(f, segments), ends)
  {
    hide MarkOf, WellMarked, Unparse, Tally, AllPlain, BlockCount, Extra;
    WellMarkedFacts(segments, {});
    var filled := FillAll(f, segments);
    forall k | 0 <= k < |filled| ensures OuterMarked(filled[k]) {
      assert Marked(segments[k]);
    }
    TallyOfSegments(filled, ends);
    SameBlockCount(f, segments);
  }

  /** If filling the filled document again yields the same lines, no filling used in it contains a marker. */
  lemma StableIsMarkerFree(f: Filler, one: seq<Segment>, two: seq<Segment>)
    requires WellMarked(one, {}) && WellMarked(two, {})
    requires Unparse(two) == Unparse(FillAll(f, one))
    requires Unparse(FillAll(f, two)) == Unparse(two)
    ensures PlainFills(f, one)
  {
    hide *;
    TallyOfWellMarked(two, true);
    TallyOfWellMarked(two, false);
    TallyOfFilled(f, one, true);
    TallyOfFilled(f, one, false);
    TallyOfFilled(f, two, true);
    EndsAreGone(f, one, two);
    PlainFromExtra(f, one);
  }

  /** Every filling used in the first document is used again in the second, where end markers in it would show. */
  lemma EndsAreGone(f: Filler, one: seq<Segment>, two: seq<Segment>)
    requires WellMarked(one, {}) && WellMarked(two, {})
    requires Unparse(two) == Unparse(FillAll(f, one))
    requires Extra(FillAll(f, two), true) == 0
    ensures Extra(FillAll(f, one), true) == 0
  {
    hide MarkOf, WellMarked, Unparse, Tally, Extra, AllPlain;
    var first, second := FillAll(f, one), FillAll(f, two);
    NoExtra(first, true);
    NoExtra(second, true);
    WellMarkedFacts(one, {});
    WellMarkedFacts(two, {});
    forall k | 0 <= k < |first| && first[k].Block? ensures Tally(first[k].inner, true) == 0 {
      BeginLineStays(first, k);
      assert Marked(one[k]);
      BeginLineOpens(two, first[k].begin);
      var j :| 0 <= j < |two| && two[j].Block? && two[j].id == first[k].id;
      assert second[j].inner == first[k].inner;
    }
  }

  lemma PlainFromExtra(f: Filler, segments: seq<Segment>)
    requires Extra(FillAll(f, segments), true) == 0 && Extra(FillAll(f, segments), false) == 0
    ensures PlainFills(f, segments)
  {
    hide MarkOf, Tally, Extra, AllPlain;
    var filled := FillAll(f, segments);
    NoExtra(filled, true);
    NoExtra(filled, false);
    forall k | 0 <= k < |segments| && segments[k].Block? ensures AllPlain(f(segments[k].id)) {
      assert filled[k].inner == f(segments[k].id);
      PlainIffNoTally(filled[k].inner);
    }
  }

  lemma {:induction false} FilledWellMarked(f: Filler, segments: seq<Segment>, seen: set<string>)
    requires WellMarked(segments, seen) && PlainFills(f, segments)
    ensures WellMarked(FillAll(f, segments), seen)
    decreases |segments|
  {
    hide MarkOf, AllPlain, FillAll, WellMarked;
    if segments == [] {
      NothingFilled(f, seen);
    } else {
      var head, tail := segments[0], segments[1..];
      assert segments == [head] + tail;
      WellMarkedCons(head, tail, seen);
      FilledWellMarked(f, tail, SeenAfter(head, seen));
      FillFirst(f, segments);
      WellMarkedCons(Fill(f, head), FillAll(f, tail), seen);
    }
  }

  lemma NothingFilled(f: Filler, seen: set<string>)
    ensures FillAll(f, []) == [] && WellMarked([], seen)
  {
  }

  // --------------------------------------------------------- rendering as filling

  /** The inner lines that rendering writes. */
  function TextLines(render: Renderer): Filler
  {
    (id: string) => if render(id).Some? then InnerOf(render(id).value) else []
  }

  /** The inner lines that are read back from what rendering writes: a CR in a text ends a line, too. */
  function ReadBack(render: Renderer): Filler
  {
    (id: string) => AllPieces(TextLines(render)(id))
  }

  lemma {:induction false} RenderIsFill(render: Renderer, segments: seq<Segment>)
    requires RenderSegments(render, segments).Ok?
    ensures RenderSegments(render, segments).value == FillAll(TextLines(render), segments)
  {
    hide InnerOf;
    if segments != [] {
      RenderIsFill(render, segments[1..]);
      FillFirst(TextLines(render), segments);
    }
  }

  /** Rendering does not look at the inner lines it replaces. */
  lemma {:induction false} RenderOfFilled(render: Renderer, f: Filler, segments: seq<Segment>)
    ensures RenderSegments(render, FillAll(f, segments)) == RenderSegments(render, segments)
  {
    hide InnerOf;
    if segments != [] {
      RenderOfFilled(render, f, segments[1..]);
      FillFirst(f, segments);
      assert FillAll(f, segments)[1..] == FillAll(f, segments[1..]);
    }
  }

  // ------------------------------------------------------------ lines read back

  /** The lines that a written line is read back as: the CR of a CR LF goes, any other CR ends a line. */
  function Pieces(line: string): seq<string>
  {
    Split(CrToLf(StripCr(line)), '\n')
  }

  function AllPieces(lines: seq<string>): seq<string>
  {
    if lines == [] then [] else Pieces(lines[0]) + AllPieces(lines[1..])
  }

  lemma {:induction false} PiecesConcat(xs: seq<string>, ys: seq<string>)
    ensures AllPieces(xs + ys) == AllPieces(xs) + AllPieces(ys)
  {
    hide Pieces;
    if xs == [] {
      assert xs + ys == ys;
    } else {
      assert (xs + ys)[1..] == xs[1..] + ys;
      PiecesConcat(xs[1..], ys);
    }
  }

  lemma PiecesOne(line: string)
    requires '\n' !in line && '\r' !in line
    ensures Pieces(line) == [line] && AllPieces([line]) == [line] && Normalize(line) == line
  {
    NormalizeWithoutCr(line);
    SplitOfFree(line, "", '\n');
    assert AllPieces([line]) == Pieces(line) + AllPieces([]);
  }

  lemma {:induction false} PiecesOfPlain(lines: seq<string>)
    requires Free(lines, '\n') && Free(lines, '\r')
    ensures AllPieces(lines) == lines
  {
    hide Pieces;
    if lines != [] {
      PiecesOne(lines[0]);
      PiecesOfPlain(lines[1..]);
    }
  }

  /** Normalising a line that is followed by LF. */
  lemma {:induction false} NormalizeBeforeLf(line: string, rest: string)
    requires '\n' !in line
    ensures Normalize(line + "\n" + rest) == CrToLf(StripCr(line)) + "\n" + Normalize(rest)
  {
    var whole := line + "\n" + rest;
    if line == "" {
      assert whole[1..] == rest;
      assert CrlfToLf(whole) == "\n" + CrlfToLf(rest);
    } else if line == "\r" {
      assert whole[2..] == rest;
      assert CrlfToLf(whole) == "\n" + CrlfToLf(rest);
    } else {
      var tail := line[1..];
      assert whole[1..] == tail + "\n" + rest;
      assert whole[1] != '\n' || line[0] != '\r';
      assert CrlfToLf(whole) == [line[0]] + CrlfToLf(whole[1..]);
      NormalizeBeforeLf(tail, rest);
      StripCrFirst(line);
    }
  }

  lemma StripCrFirst(line: string)
    requires line != "" && line != "\r"
    ensures CrToLf(StripCr(line)) == [if line[0] == '\r' then '\n' else line[0]] + CrToLf(StripCr(line[1..]))
  {
    var dropped := StripCr(line);
    if |line| > 1 {
      assert line[1..][|line| - 2] == line[|line| - 1];
    }
    assert dropped[0] == line[0] && dropped[1..] == StripCr(line[1..]);
  }

  /** The lines of a written document as they are read back. */
  lemma {:induction false} LinesReadBack(lines: seq<string>)
    requires lines != [] && Free(lines, '\n') && '\r' !in lines[|lines| - 1]
    ensures Split(Normalize(Join(lines, '\n')), '\n') == AllPieces(lines)
  {
    hide CrlfToLf, CrToLf, Normalize, Pieces;
    if |lines| == 1 {
      PiecesOne(lines[0]);
      assert lines == [lines[0]];
      SplitOfFree(lines[0], "", '\n');
    } else {
      var rest := Join(lines[1..], '\n');
      NormalizeBeforeLf(lines[0], rest);
      LinesReadBack(lines[1..]);
      assert lines[0] + ['\n'] + rest == lines[0] + "\n" + rest;
      SplitConcat(CrToLf(StripCr(lines[0])), Normalize(rest), '\n');
      PiecesIs(lines[0]);
    }
  }

  lemma PiecesIs(line: string)
    ensures Pieces(line) == Split(CrToLf(StripCr(line)), '\n')
  {
  }

  lemma PiecesOfFilled(f: Filler, s: Segment)
    requires Free(s.Lines(), '\n') && Free(s.Lines(), '\r')
    ensures AllPieces(Fill(f, s).Lines()) == Fill(id => AllPieces(f(id)), s).Lines()
  {
    hide Pieces, AllPieces;
    LinesOf(s);
    LinesOf(Fill(f, s));
    LinesOf(Fill(id => AllPieces(f(id)), s));
    if s.Line? {
      assert s.Lines()[0] == s.text;
      PiecesOne(s.text);
    } else {
      assert s.Lines()[0] == s.begin && s.Lines()[|s.inner| + 1] == s.end;
      PiecesOne(s.begin);
      PiecesOne(s.end);
      PiecesConcat([s.begin] + f(s.id), [s.end]);
      PiecesConcat([s.begin], f(s.id));
    }
  }

  lemma {:induction false} PiecesOfAll(f: Filler, g: Filler, segments: seq<Segment>)
    requires forall k :: 0 <= k < |segments| ==> Free(segments[k].Lines(), '\n') && Free(segments[k].Lines(), '\r')
    requires forall id :: g(id) == AllPieces(f(id))
    ensures AllPieces(Unparse(FillAll(f, segments))) == Unparse(FillAll(g, segments))
  {
    hide Pieces, AllPieces, Free, FillAll, Unparse;
    if segments == [] {
      NothingFilled(f, {});
      NothingFilled(g, {});
      NothingRead();
    } else {
      var head, tail := segments[0], segments[1..];
      FillFirst(f, segments);
      FillFirst(g, segments);
      SegmentsFirst(Fill(f, head), FillAll(f, tail), 0);
      SegmentsFirst(Fill(g, head), FillAll(g, tail), 0);
      PiecesConcat(Fill(f, head).Lines(), Unparse(FillAll(f, tail)));
      PiecesOfFilled(f, head);
      assert Fill(id => AllPieces(f(id)), head) == Fill(g, head);
      assert forall k :: 0 <= k < |tail| ==> tail[k] == segments[k + 1];
      PiecesOfAll(f, g, tail);
    }
  }

  lemma NothingRead()
    ensures Unparse([]) == [] && AllPieces([]) == []
  {
  }

  // -------------------------------------------------------------- main results

  /** The segments of a document that renders. */
  function SegmentsOf(content: string): seq<Segment>
    requires Parse(Split(Normalize(content), '\n')).Ok?
  {
    Parse(Split(Normalize(content), '\n')).value
  }

  predicate Clean(render: Renderer, content: string)
    requires Parse(Split(Normalize(content), '\n')).Ok?
  {
    CrFree(render, SegmentsOf(content)) && MarkerFree(render, SegmentsOf(content))
  }

  lemma RendersParse(render: Renderer, content: string)
    ensures RenderText(render, content).Ok? ==> Parse(Split(Normalize(content), '\n')).Ok?
  {
  }

  /** CR in the rendered document comes only from the texts put into blocks. */
  lemma CrComesFromTexts(render: Renderer, content: string)
    requires RenderText(render, content).Ok? && Parse(Split(Normalize(content), '\n')).Ok?
    ensures '\r' !in RenderText(render, content).value <==> CrFree(render, SegmentsOf(content))
  {
    hide MarkOf, WellMarked, RenderSegments, Unparse, Rendered, ParseOutside;
    LinesOfRendered(render, content);
    NormalizeTwice(content);
    var lines := Split(Normalize(content), '\n');
    var segments := SegmentsOf(content);
    var rendered := RenderSegments(render, segments).value;
    JoinOfSplit(Normalize(content), '\n');
    JoinHas(lines, '\n', '\r');
    JoinHas(Unparse(rendered), '\n', '\r');
    FindIff(lines, segments);
    RenderKeeps(render, segments);
    UnparseHas(segments, '\r');
    UnparseHas(rendered, '\r');
    forall k | 0 <= k < |segments|
      ensures Free(rendered[k].Lines(), '\r') <==>
              (segments[k].Block? ==> '\r' !in render(segments[k].id).value)
    {
      RenderedHas(render, segments[k]);
    }
  }

  lemma RenderedHas(render: Renderer, s: Segment)
    requires Free(s.Lines(), '\r') && (s.Block? ==> render(s.id).Some?)
    ensures Free(Rendered(render, s).Lines(), '\r') <==> (s.Block? ==> '\r' !in render(s.id).value)
  {
    if s.Block? {
      var text := render(s.id).value;
      assert s.Lines()[0] == s.begin && s.Lines()[|s.inner| + 1] == s.end;
      FreeConcat([s.begin] + InnerOf(text), [s.end], '\r');
      FreeConcat([s.begin], InnerOf(text), '\r');
      JoinOfSplit(text, '\n');
      JoinHas(InnerOf(text), '\n', '\r');
    }
  }

  /** No text put into a block is read back with a marker line. */
  predicate ReadsMarkerFree(render: Renderer, content: string)
    requires Parse(Split(Normalize(content), '\n')).Ok?
  {
    PlainFills(ReadBack(render), SegmentsOf(content))
  }

  lemma SegmentsAreClean(content: string)
    requires Parse(Split(Normalize(content), '\n')).Ok?
    ensures WellMarked(SegmentsOf(content), {}) && SegmentsOf(content) != []
    ensures forall k :: 0 <= k < |SegmentsOf(content)| ==>
      Free(SegmentsOf(content)[k].Lines(), '\n') && Free(SegmentsOf(content)[k].Lines(), '\r')
  {
    hide MarkOf, WellMarked, Unparse, ParseOutside, Normalize;
    var lines, segments := Split(Normalize(content), '\n'), SegmentsOf(content);
    FindIff(lines, segments);
    NormalizeTwice(content);
    SplitIsFree(Normalize(content), '\n');
    JoinOfSplit(Normalize(content), '\n');
    JoinHas(lines, '\n', '\r');
    UnparseHas(segments, '\n');
    UnparseHas(segments, '\r');
    NotEmpty(segments);
  }

  lemma LastLine(f: Filler, segments: seq<Segment>)
    requires segments != []
    ensures var lines, own := Unparse(FillAll(f, segments)), segments[|segments| - 1].Lines();
            lines != [] && lines[|lines| - 1] == own[|own| - 1]
  {
    hide Unparse;
    var n := |segments| - 1;
    var filled := FillAll(f, segments);
    assert filled == filled[..n] + [filled[n]];
    UnparseConcat(filled[..n], [filled[n]]);
    UnparseOne(filled[n]);
    LinesOf(filled[n]);
    LinesOf(segments[n]);
  }

  /** What the rendered document is read back as: each block holds the pieces of its text. */
  lemma ReadBackOf(render: Renderer, content: string)
    requires RenderText(render, content).Ok? && Parse(Split(Normalize(content), '\n')).Ok?
    ensures Split(Normalize(RenderText(render, content).value), '\n') ==
            Unparse(FillAll(ReadBack(render), SegmentsOf(content)))
    ensures Split(RenderText(render, content).value, '\n') == Unparse(FillAll(TextLines(render), SegmentsOf(content)))
  {
    hide MarkOf, WellMarked, RenderSegments, Unparse, ParseOutside, FillAll, AllPieces, Normalize, InnerOf, Rendered;
    var segments, out := SegmentsOf(content), RenderText(render, content).value;
    LinesOfRendered(render, content);
    RenderIsFill(render, segments);
    SegmentsAreClean(content);
    var lines := Split(out, '\n');
    SplitIsFree(out, '\n');
    JoinOfSplit(out, '\n');
    LastLine(TextLines(render), segments);
    var own := segments[|segments| - 1].Lines();
    assert '\r' !in own[|own| - 1];
    LinesReadBack(lines);
    PiecesOfAll(TextLines(render), ReadBack(render), segments);
  }

  /**
   Idempotence.  Rendering the rendered document changes nothing exactly when no text
   put into a block is read back with a marker line.
   */
  lemma IdempotentIff(render: Renderer, content: string)
    requires RenderText(render, content).Ok? && Parse(Split(Normalize(content), '\n')).Ok?
    ensures RenderText(render, RenderText(render, content).value) == RenderText(render, content)
       <==> ReadsMarkerFree(render, content)
  {
    hide MarkOf, WellMarked, RenderSegments, Unparse, ParseOutside, FillAll, PlainFills, Normalize, ReadBack, TextLines;
    var out, one, f := RenderText(render, content).value, SegmentsOf(content), ReadBack(render);
    ReadBackOf(render, content);
    SegmentsAreClean(content);
    var lines := Split(Normalize(out), '\n');
    if ReadsMarkerFree(render, content) {
      FilledWellMarked(f, one, {});
      FindIff(lines, FillAll(f, one));
      RenderOfFilled(render, f, one);
    }
    if RenderText(render, out) == Ok(out) {
      RendersParse(render, out);
      ReadBackOf(render, out);
      var two := SegmentsOf(out);
      FindIff(lines, two);
      StableIsMarkerFree(f, one, two);
    }
  }

  /** For texts without CR, a marker read back is a marker line of the text. */
  lemma CrFreeReadsBack(render: Renderer, content: string)
    requires RenderText(render, content).Ok? && Parse(Split(Normalize(content), '\n')).Ok?
    requires CrFree(render, SegmentsOf(content))
    ensures ReadsMarkerFree(render, content) <==> MarkerFree(render, SegmentsOf(content))
  {
    hide MarkOf, Parse, Normalize, RenderText, AllPieces, AllPlain, InnerOf;
    var segments := SegmentsOf(content);
    forall k | 0 <= k < |segments| && segments[k].Block?
      ensures render(segments[k].id).Some? && ReadBack(render)(segments[k].id) == InnerOf(render(segments[k].id).value)
    {
      var id := segments[k].id;
      RendersAll(render, content, k);
      InnerReadsBack(render(id).value);
      assert TextLines(render)(id) == InnerOf(render(id).value);
      assert ReadBack(render)(id) == AllPieces(TextLines(render)(id));
    }
  }

  lemma RendersAll(render: Renderer, content: string, k: nat)
    requires RenderText(render, content).Ok? && Parse(Split(Normalize(content), '\n')).Ok?
    requires k < |SegmentsOf(content)| && SegmentsOf(content)[k].Block?
    ensures render(SegmentsOf(content)[k].id).Some?
  {
    hide RenderSegments, ParseOutside, Normalize;
    RenderKeeps(render, SegmentsOf(content));
  }

  lemma InnerReadsBack(text: string)
    requires '\r' !in text
    ensures AllPieces(InnerOf(text)) == InnerOf(text)
  {
    hide AllPieces, Split, Join;
    if text == "" {
      NothingRead();
    } else {
      SplitIsFree(text, '\n');
      JoinOfSplit(text, '\n');
      JoinHas(Split(text, '\n'), '\n', '\r');
      PiecesOfPlain(Split(text, '\n'));
    }
  }

  lemma MarkerFreeFills(render: Renderer, segments: seq<Segment>)
    requires MarkerFree(render, segments) && RenderSegments(render, segments).Ok?
    ensures PlainFills(TextLines(render), segments)
  {
    hide MarkOf, InnerOf, AllPlain, RenderSegments;
    RenderKeeps(render, segments);
  }

  lemma EndMarkerIsMarker()
    ensures MarkOf(END_MARKER) == End
  {
    TrimOfTight(END_MARKER);
    assert BEGIN_PREFIX[17] == 'b' && END_MARKER[17] == 'e';
  }

  const STATUS_ID := "release-status"

  const STATUS_BEGIN := BEGIN_PREFIX + STATUS_ID + MARKER_CLOSE

  lemma StatusBeginIsMarker()
    ensures MarkOf(STATUS_BEGIN) == Begin(STATUS_ID)
  {
    TrimOfTight(STATUS_BEGIN);
    TrimOfTight(STATUS_ID);
    var n := |STATUS_BEGIN|;
    assert STATUS_BEGIN[..|BEGIN_PREFIX|] == BEGIN_PREFIX && STATUS_BEGIN[n - 4..] == MARKER_CLOSE;
    assert STATUS_BEGIN[|BEGIN_PREFIX|..n - 4] == STATUS_ID;
  }

  lemma MarkersAreLines()
    ensures '\n' !in STATUS_BEGIN && '\r' !in STATUS_BEGIN && '\n' !in END_MARKER && '\r' !in END_MARKER
  {
  }

  /**
   The lines of a release-status block: the release, the wire protocol, the wire schema
   version as the manifest has it, and more.
   */
  function ReleaseStatus(release: string, wire: string, schemaVersion: string, more: seq<string>): string
  {
    Join([release, wire, "- **Wire schema:** " + schemaVersion] + more, '\n')
  }

  lemma StatusAround(
    release: string, wire: string, v: string, w: string, more: seq<string>) returns (pre: string, post: string)
    requires more != []
    ensures ReleaseStatus(release, wire, v + "\n" + END_MARKER + "\n" + w, more) ==
            pre + "\n" + END_MARKER + "\n" + post
  {
    hide Join;
    var schema := "- **Wire schema:** " + (v + "\n" + END_MARKER + "\n" + w);
    var rest := Join(more, '\n');
    JoinFirst(release, [wire, schema] + more);
    JoinFirst(wire, [schema] + more);
    JoinFirst(schema, more);
    assert [release, wire, schema] + more == [release] + ([wire, schema] + more);
    assert [wire, schema] + more == [wire] + ([schema] + more);
    pre := release + ['\n'] + wire + ['\n'] + "- **Wire schema:** " + v;
    post := w + ['\n'] + rest;
    var text := release + ['\n'] + (wire + ['\n'] + (schema + ['\n'] + rest));
    assert text == pre + "\n" + END_MARKER + "\n" + post;
  }

  lemma JoinFirst(line: string, rest: seq<string>)
    requires rest != []
    ensures Join([line] + rest, '\n') == line + ['\n'] + Join(rest, '\n')
  {
    assert ([line] + rest)[1..] == rest;
  }

  /** A line of a text is read back as one, whatever stands around it. */
  lemma LineReadsBack(pre: string, line: string, post: string)
    requires '\n' !in line && '\r' !in line
    ensures line in AllPieces(InnerOf(pre + "\n" + line + "\n" + post))
  {
    hide Split, AllPieces;
    var text, tail := pre + "\n" + line + "\n" + post, line + ['\n'] + post;
    assert text == pre + ['\n'] + tail;
    SplitConcat(pre, tail, '\n');
    SplitConcat(line, post, '\n');
    SplitOfFree(line, "", '\n');
    PiecesConcat(Split(pre, '\n'), [line] + Split(post, '\n'));
    PiecesConcat([line], Split(post, '\n'));
    PiecesOne(line);
    assert AllPieces(InnerOf(text))[|AllPieces(Split(pre, '\n'))|] == line;
  }

  /** In particular an end marker. */
  lemma MarkerReadsBack(pre: string, post: string)
    ensures !AllPlain(AllPieces(InnerOf(pre + "\n" + END_MARKER + "\n" + post)))
  {
    hide AllPieces, MarkOf, InnerOf;
    MarkersAreLines();
    EndMarkerIsMarker();
    LineReadsBack(pre, END_MARKER, post);
  }

  /**
   Without the condition idempotence fails.  Loading a manifest does not look into its
   fields, so the wire schema version may hold an end marker on a line of its own; then
   a document with a release-status block changes when it is rendered again.
   */
  lemma NotAlwaysIdempotent(render: Renderer, release: string, wire: string, v: string, w: string, more: seq<string>)
    requires more != []
    requires render(STATUS_ID) == Some(ReleaseStatus(release, wire, v + "\n" + END_MARKER + "\n" + w, more))
    ensures var content := Join([STATUS_BEGIN, END_MARKER], '\n');
            && RenderText(render, content).Ok?
            && RenderText(render, RenderText(render, content).value) != RenderText(render, content)
  {
    hide RenderSegments, Join, Parse, Normalize, MarkOf, AllPlain, AllPieces, InnerOf, ReleaseStatus;
    var lines := [STATUS_BEGIN, END_MARKER];
    var content := Join(lines, '\n');
    var segments := [Block(STATUS_BEGIN, STATUS_ID, [], END_MARKER)];
    StatusParses(segments, lines, content);
    RendersOne(render, segments);
    var pre, post := StatusAround(release, wire, v, w, more);
    MarkerReadsBack(pre, post);
    IdempotentIff(render, content);
    assert ReadBack(render)(STATUS_ID) == AllPieces(TextLines(render)(STATUS_ID));
    assert segments[0].Block? && !AllPlain(ReadBack(render)(segments[0].id));
  }

  lemma RendersOne(render: Renderer, segments: seq<Segment>)
    requires |segments| == 1 && (segments[0].Block? ==> render(segments[0].id).Some?)
    ensures RenderSegments(render, segments).Ok?
  {
    assert RenderSegments(render, segments[1..]) == Ok([]);
  }

  lemma StatusParses(segments: seq<Segment>, lines: seq<string>, content: string)
    requires segments == [Block(STATUS_BEGIN, STATUS_ID, [], END_MARKER)] && lines == [STATUS_BEGIN, END_MARKER]
    requires content == Join(lines, '\n')
    ensures Parse(Split(Normalize(content), '\n')) == Ok(segments)
  {
    hide MarkOf, Normalize, Join;
    MarkersAreLines();
    JoinHas(lines, '\n', '\r');
    NormalizeOfCrlf(content);
    SplitOfJoin(lines, '\n');
    EndMarkerIsMarker();
    StatusBeginIsMarker();
    UnparseOne(segments[0]);
    assert segments[0].Lines() == lines;
    assert segments[1..] == [];
    assert WellMarked(segments, {});
    FindIff(lines, segments);
  }

  // ------------------------------------------------------------ write and check

  /** CheckDrift: the canonical form and whether the content differs from it, newline style aside. */
  function CheckDrift(render: Renderer, content: string): Result<(string, bool), RenderError>
  {
    match RenderText(render, content)
    case Err(e) => Err(e)
    case Ok(canonical) => Ok((canonical, canonical != Normalize(content)))
  }

  /** The write-back of renderAll: nothing without drift, else the canonical form in the file's newline style. */
  function WriteBack(render: Renderer, data: string): Result<string, RenderError>
  {
    match CheckDrift(render, data)
    case Err(e) => Err(e)
    case Ok((canonical, drifted)) =>
      if !drifted then Ok(data)
      else Ok(if Contains(data, "\r\n") then LfToCrlf(canonical) else canonical)
  }

  predicate Drifts(render: Renderer, data: string)
  {
    CheckDrift(render, data).Err? || CheckDrift(render, data).value.1
  }

  /** The check of renderAll on one file: no drift, and at least one block. */
  predicate Checks(render: Renderer, data: string)
  {
    !Drifts(render, data) && Blocks(data).Ok? && Blocks(data).value != []
  }

  /** Only the normalised content matters to rendering. */
  lemma RenderOfNormalized(render: Renderer, data: string)
    ensures RenderText(render, Normalize(data)) == RenderText(render, data)
    ensures CheckDrift(render, Normalize(data)) == CheckDrift(render, data)
  {
    NormalizeTwice(data);
  }

  lemma CheckAfterCrFreeWrite(render: Renderer, data: string)
    requires RenderText(render, data).Ok? && Parse(Split(Normalize(data), '\n')).Ok?
    requires CrFree(render, SegmentsOf(data))
    ensures WriteBack(render, data).Ok?
    ensures !Drifts(render, WriteBack(render, data).value) <==> MarkerFree(render, SegmentsOf(data))
  {
    hide RenderText, Parse, CrFree, MarkerFree, Normalize, Contains, ReadsMarkerFree;
    var canonical := RenderText(render, data).value;
    CrComesFromTexts(render, data);
    NormalizeOfCrlf(canonical);
    CrFreeReadsBack(render, data);
    IdempotentIff(render, data);
    RenderOfNormalized(render, WriteBack(render, data).value);
    assert Normalize(WriteBack(render, data).value) == canonical;
  }

  /** The blocks of a document are found again in what is written, whatever its texts contain. */
  lemma BlocksSurvive(render: Renderer, data: string, k: nat, crlf: bool)
    requires RenderText(render, data).Ok? && Parse(Split(Normalize(data), '\n')).Ok?
    requires k < |SegmentsOf(data)| && SegmentsOf(data)[k].Block?
    requires Parse(Split(Normalize(Styled(RenderText(render, data).value, crlf)), '\n')).Ok?
    ensures Uses(SegmentsOf(Styled(RenderText(render, data).value, crlf)), SegmentsOf(data)[k].id)
  {
    hide MarkOf, WellMarked, RenderSegments, Unparse, ParseOutside, Normalize, RenderText, Uses, Styled;
    var out := RenderText(render, data).value;
    var written := Styled(out, crlf);
    var segments, again := SegmentsOf(data), SegmentsOf(written);
    LinesOfRendered(render, data);
    var rendered := RenderSegments(render, segments).value;
    RenderKeeps(render, segments);
    BeginLineStays(rendered, k);
    WellMarkedFacts(segments, {});
    assert Marked(segments[k]) && rendered[k].begin == segments[k].begin;
    var lines := Split(out, '\n');
    var j :| 0 <= j < |lines| && lines[j] == segments[k].begin;
    BeginHasNoCr(data, k);
    SplitIsFree(out, '\n');
    JoinOfSplit(out, '\n');
    LineSurvives(lines, j, crlf);
    FindIff(Split(Normalize(written), '\n'), again);
    WellMarkedFacts(again, {});
    BeginLineOpens(again, segments[k].begin);
  }

  lemma BeginHasNoCr(data: string, k: nat)
    requires Parse(Split(Normalize(data), '\n')).Ok? && k < |SegmentsOf(data)| && SegmentsOf(data)[k].Block?
    ensures '\r' !in SegmentsOf(data)[k].begin
  {
    hide MarkOf, WellMarked, Unparse, ParseOutside, Normalize;
    var lines := Split(Normalize(data), '\n');
    NormalizeTwice(data);
    JoinOfSplit(Normalize(data), '\n');
    JoinHas(lines, '\n', '\r');
    FindIff(lines, SegmentsOf(data));
    BeginLineStays(SegmentsOf(data), k);
  }

  /** A text with a CR is reported as drift forever: the check never sees its own output. */
  lemma CrIsNeverClean(render: Renderer, data: string)
    requires RenderText(render, data).Ok? && Parse(Split(Normalize(data), '\n')).Ok?
    requires !CrFree(render, SegmentsOf(data))
    ensures WriteBack(render, data).Ok? && Drifts(render, WriteBack(render, data).value)
  {
    hide RenderText, Parse, Normalize, Contains, MarkOf, Uses, LfToCrlf;
    var out := RenderText(render, data).value;
    CrComesFromTexts(render, data);
    NormalizeTwice(data);
    var crlf := Contains(data, "\r\n");
    var written := Styled(out, crlf);
    assert WriteBack(render, data) == Ok(written);
    if !Drifts(render, written) {
      NormalizeTwice(written);
      RendersParse(render, written);
      CrComesFromTexts(render, written);
      var segments, again := SegmentsOf(data), SegmentsOf(written);
      var k :| 0 <= k < |segments| && segments[k].Block? && render(segments[k].id).Some? &&
        '\r' in render(segments[k].id).value;
      BlocksSurvive(render, data, k, crlf);
      UsedIsCrFree(render, again, segments[k].id);
    }
  }

  lemma UsedIsCrFree(render: Renderer, segments: seq<Segment>, id: string)
    requires CrFree(render, segments) && Uses(segments, id) && render(id).Some?
    ensures '\r' !in render(id).value
  {
  }

  // --------------------------------------------------------- blocks found again

  lemma {:induction false} RefoundFrom(render: Renderer, segments: seq<Segment>, at: nat, again: nat)
    requires RenderSegments(render, segments).Ok?
    ensures var was, now := BlocksFrom(segments, at), BlocksFrom(RenderSegments(render, segments).value, again);
            |was| == |now| && forall i :: 0 <= i < |was| ==> Refound(render, was[i], now[i])
    decreases |segments|
  {
    hide InnerOf, BlocksFrom, Unparse;
    if segments == [] {
      NoSegments(at, {}, []);
      NoSegments(again, {}, []);
    } else {
      var s, rest := segments[0], RenderSegments(render, segments[1..]).value;
      var r := Rendered(render, s);
      assert ([r] + rest)[1..] == rest;
      SegmentsCons(segments, at);
      SegmentsCons([r] + rest, again);
      RefoundFrom(render, segments[1..], at + |s.Lines()|, again + |r.Lines()|);
      if s.Block? {
        JoinOfInner(render(s.id).value);
      }
    }
  }

  predicate Refound(render: Renderer, was: Found, now: Found)
  {
    now.id == was.id && render(was.id) == Some(now.inner)
  }

  lemma JoinOfInner(text: string)
    ensures Join(InnerOf(text), '\n') == text
  {
    JoinOfSplit(text, '\n');
  }

  /** After rendering, the same blocks are found in the same order, each holding exactly its rendered text. */
  lemma BlocksHoldTheirTexts(render: Renderer, content: string)
    requires RenderText(render, content).Ok? && Parse(Split(Normalize(content), '\n')).Ok? && Clean(render, content)
    ensures Blocks(content).Ok? && Blocks(RenderText(render, content).value).Ok?
    ensures var was, now := Blocks(content).value, Blocks(RenderText(render, content).value).value;
            |was| == |now| && forall i :: 0 <= i < |was| ==> Refound(render, was[i], now[i])
  {
    hide MarkOf, WellMarked, RenderSegments, Unparse, ParseOutside, CrFree, MarkerFree, BlocksFrom;
    var out, segments := RenderText(render, content).value, SegmentsOf(content);
    LinesOfRendered(render, content);
    CrComesFromTexts(render, content);
    NormalizeWithoutCr(out);
    RenderIsFill(render, segments);
    MarkerFreeFills(render, segments);
    FilledWellMarked(TextLines(render), segments, {});
    FindIff(Split(out, '\n'), RenderSegments(render, segments).value);
    RefoundFrom(render, segments, 0, 0);
  }

  /** Which blocks are found depends on the normalised content only. */
  lemma BlocksOfNormalized(a: string, b: string)
    requires Normalize(a) == Normalize(b)
    ensures Blocks(a) == Blocks(b)
  {
  }

  lemma WrittenBlocks(render: Renderer, data: string)
    requires RenderText(render, data).Ok? && Parse(Split(Normalize(data), '\n')).Ok? && Clean(render, data)
    ensures WriteBack(render, data).Ok? && Blocks(data).Ok? && Blocks(WriteBack(render, data).value).Ok?
    ensures |Blocks(WriteBack(render, data).value).value| == |Blocks(data).value|
  {
    hide RenderText, Parse, Normalize, Blocks, Contains;
    var canonical := RenderText(render, data).value;
    BlocksHoldTheirTexts(render, data);
    CrComesFromTexts(render, data);
    NormalizeOfCrlf(canonical);
    if canonical != Normalize(data) {
      BlocksOfNormalized(WriteBack(render, data).value, canonical);
    }
  }

  /**
   Write then check.  After a write, in the file's own newline style, the check
   reports nothing exactly when the file has a block and no text put into a block
   contains a CR or a marker line.
   */
  lemma WriteThenCheck(render: Renderer, data: string)
    requires RenderText(render, data).Ok? && Parse(Split(Normalize(data), '\n')).Ok?
    ensures WriteBack(render, data).Ok? && Blocks(data).Ok?
    ensures Checks(render, WriteBack(render, data).value) <==> Clean(render, data) && Blocks(data).value != []
  {
    hide RenderText, Normalize, CrFree, MarkerFree, WriteBack, Drifts, ParseOutside, BlocksFrom;
    if CrFree(render, SegmentsOf(data)) {
      CheckAfterCrFreeWrite(render, data);
      if MarkerFree(render, SegmentsOf(data)) {
        WrittenBlocks(render, data);
      }
    } else {
      CrIsNeverClean(render, data);
    }
  }

  ghost predicate HasCrlf(data: string)
  {
    exists i: nat :: CrlfAt(data, i)
  }

  /**
   What is written: the data itself without drift; else the rendering, in a file with a
   CR LF somewhere with a CR before every LF and otherwise the same.
   */
  lemma WrittenIs(render: Renderer, data: string)
    requires RenderText(render, data).Ok?
    ensures WriteBack(render, data).Ok?
    ensures var canonical, written := RenderText(render, data).value, WriteBack(render, data).value;
            if canonical == Normalize(data) then written == data
            else if HasCrlf(data) then AllCrlf(written) && CrlfToLf(written) == canonical
            else written == canonical
  {
    hide RenderText, Contains, Normalize, CrlfToLf, LfToCrlf;
    ContainsCrlf(data);
    LfToCrlfStyle(RenderText(render, data).value);
    CrlfUndone(RenderText(render, data).value);
  }

  /**
   The newline style of a file that drifted, with texts free of CR: each LF has a CR
   before it exactly when the data has a CR LF, there is no other CR, and the file
   normalises to the rendering.
   */
  lemma WrittenStyle(render: Renderer, data: string)
    requires RenderText(render, data).Ok? && Parse(Split(Normalize(data), '\n')).Ok?
    requires CrFree(render, SegmentsOf(data)) && Drifts(render, data)
    ensures WriteBack(render, data).Ok?
    ensures var written := WriteBack(render, data).value;
            && (forall i :: 0 <= i < |written| && written[i] == '\n' ==>
                  (i > 0 && written[i - 1] == '\r' <==> HasCrlf(data)))
            && NoBareCr(written)
            && Normalize(written) == RenderText(render, data).value
  {
    hide RenderText, Parse, CrFree, Normalize, CrlfToLf, LfToCrlf, Contains;
    var canonical := RenderText(render, data).value;
    CrComesFromTexts(render, data);
    ContainsCrlf(data);
    LfToCrlfStyle(canonical);
    NormalizeOfCrlf(canonical);
    NoCrNoStyle(canonical);
    var written := WriteBack(render, data).value;
    assert written == if HasCrlf(data) then LfToCrlf(canonical) else canonical;
  }

  lemma NoCrNoStyle(s: string)
    requires '\r' !in s
    ensures NoBareCr(s) && forall i :: 0 <= i < |s| && s[i] == '\n' ==> !(i > 0 && s[i - 1] == '\r')
  {
  }

  lemma RenderOutside(render: Renderer, segments: seq<Segment>)
    requires segments == [] || (segments[0].Line? && RenderSegments(render, segments[1..]) == Ok(segments[1..]))
    ensures RenderSegments(render, segments) == Ok(segments)
  {
    assert segments != [] ==> segments == [segments[0]] + segments[1..];
  }

  lemma {:induction false} NothingToFill(render: Renderer, segments: seq<Segment>, offset: nat)
    requires BlocksFrom(segments, offset) == []
    ensures RenderSegments(render, segments) == Ok(segments)
    decreases |segments|
  {
    hide BlocksFrom, RenderSegments;
    if segments != [] {
      SegmentsCons(segments, offset);
      NothingToFill(render, segments[1..], offset + |segments[0].Lines()|);
    }
    RenderOutside(render, segments);
  }

  /** A file without blocks, on which the check fails, has no drift to write back either. */
  lemma NoBlocksNoDrift(render: Renderer, data: string)
    requires Blocks(data) == Ok([])
    ensures CheckDrift(render, data) == Ok((Normalize(data), false)) && WriteBack(render, data) == Ok(data)
    ensures !Checks(render, data)
  {
    hide Normalize, ParseOutside, RenderSegments, BlocksFrom, Unparse, WellMarked;
    var lines := Split(Normalize(data), '\n');
    var segments := Parse(lines).value;
    NothingToFill(render, segments, 0);
    FindIff(lines, segments);
    JoinOfSplit(Normalize(data), '\n');
  }
}
