/**
 Rewriting protected blocks: where the found blocks are, the rendering loop, and what
 it leaves alone.
 */
module Rendering {
  import opened Bytes
  import opened Text
  import opened Render

  /** RenderBlock for one manifest: None for an unknown ID. */
  type Renderer = string -> Option<string>

  function InnerOf(text: string): seq<string>
  {
    if text == "" then [] else Split(text, '\n')
  }

  function RenderSegments(render: Renderer, segments: seq<Segment>): Result<seq<Segment>, RenderError>
  {
    if segments == [] then Ok([])
    else
      var head := segments[0];
      if head.Block? && render(head.id).None? then Err(UnknownID(head.id))
      else
        match RenderSegments(render, segments[1..])
        case Err(e) => Err(e)
        case Ok(rest) => Ok([Rendered(render, head)] + rest)
  }

  function Rendered(render: Renderer, s: Segment): Segment
    requires s.Block? ==> render(s.id).Some?
  {
    if s.Line? then s else s.(inner := InnerOf(render(s.id).value))
  }

  /** Render. */
  function RenderText(render: Renderer, content: string): Result<string, RenderError>
  {
    match Parse(Split(Normalize(content), '\n'))
    case Err(e) => Err(Finding(e))
    case Ok(segments) =>
      match RenderSegments(render, segments)
      case Err(e) => Err(e)
      case Ok(rendered) => Ok(Join(Unparse(rendered), '\n'))
  }

  // ---------------------------------------------------------- where blocks are

  lemma SegmentsCons(segments: seq<Segment>, offset: nat)
    requires segments != []
    ensures Unparse(segments) == segments[0].Lines() + Unparse(segments[1..])
    ensures BlocksFrom(segments, offset)
         == BlockAt(segments[0], offset) + BlocksFrom(segments[1..], offset + |segments[0].Lines()|)
  {
  }

  predicate InOrder(blocks: seq<Found>, from: nat, to: nat)
  {
    && (forall i :: 0 <= i < |blocks| ==> from < blocks[i].beginLine < blocks[i].endLine <= to)
    && (forall i, j :: 0 <= i < j < |blocks| ==> blocks[i].endLine < blocks[j].beginLine)
  }

  lemma InOrderCons(s: Segment, rest: seq<Found>, offset: nat, to: nat)
    requires offset + |s.Lines()| <= to && InOrder(rest, offset + |s.Lines()|, to)
    ensures InOrder(BlockAt(s, offset) + rest, offset, to)
  {
  }

  lemma {:induction false} BlocksInOrder(segments: seq<Segment>, offset: nat)
    ensures InOrder(BlocksFrom(segments, offset), offset, offset + |Unparse(segments)|)
    decreases |segments|
  {
    hide *;
    if segments == [] {
      NoSegments(offset, {}, []);
    } else {
      SegmentsCons(segments, offset);
      var head, next := segments[0], offset + |segments[0].Lines()|;
      BlocksInOrder(segments[1..], next);
      InOrderCons(head, BlocksFrom(segments[1..], next), offset, offset + |Unparse(segments)|);
    }
  }

  /** What a found block says about the lines of the document. */
  predicate Located(b: Found, lines: seq<string>)
  {
    && 1 <= b.beginLine < b.endLine <= |lines|
    && MarkOf(lines[b.beginLine - 1]) == Begin(b.id) && MarkOf(lines[b.endLine - 1]) == End
    && AllPlain(lines[b.beginLine..b.endLine - 1])
    && b.inner == Join(lines[b.beginLine..b.endLine - 1], '\n')
  }

  predicate FreshIDs(blocks: seq<Found>, seen: set<string>)
  {
    && (forall i :: 0 <= i < |blocks| ==> blocks[i].id !in seen && blocks[i].id != "")
    && (forall i, j :: 0 <= i < j < |blocks| ==> blocks[i].id != blocks[j].id)
  }

  function SeenAfter(s: Segment, seen: set<string>): set<string>
  {
    if s.Block? then seen + {s.id} else seen
  }

  lemma FreshCons(s: Segment, rest: seq<Found>, offset: nat, seen: set<string>)
    requires (s.Block? ==> s.id !in seen && s.id != "") && FreshIDs(rest, SeenAfter(s, seen))
    ensures FreshIDs(BlockAt(s, offset) + rest, seen)
  {
  }

  lemma {:induction false} BlocksHaveFreshIDs(segments: seq<Segment>, offset: nat, seen: set<string>)
    requires WellMarked(segments, seen)
    ensures FreshIDs(BlocksFrom(segments, offset), seen)
    decreases |segments|
  {
    hide *;
    if segments == [] {
      NoSegments(offset, seen, []);
    } else {
      SegmentsCons(segments, offset);
      WellMarkedHead(segments, seen);
      var head, next := segments[0], offset + |segments[0].Lines()|;
      BlocksHaveFreshIDs(segments[1..], next, SeenAfter(head, seen));
      FreshCons(head, BlocksFrom(segments[1..], next), offset, seen);
    }
  }

  predicate AllLocated(blocks: seq<Found>, lines: seq<string>)
  {
    forall i :: 0 <= i < |blocks| ==> Located(blocks[i], lines)
  }

  lemma AllLocatedConcat(xs: seq<Found>, ys: seq<Found>, lines: seq<string>)
    requires AllLocated(xs, lines) && AllLocated(ys, lines)
    ensures AllLocated(xs + ys, lines)
  {
  }

  lemma NoSegments(offset: nat, seen: set<string>, lines: seq<string>)
    ensures Unparse([]) == [] && BlocksFrom([], offset) == []
    ensures InOrder([], offset, offset) && FreshIDs([], seen) && AllLocated([], lines)
  {
  }

  lemma WellMarkedHead(segments: seq<Segment>, seen: set<string>)
    requires segments != [] && WellMarked(segments, seen)
    ensures Marked(segments[0]) && WellMarked(segments[1..], SeenAfter(segments[0], seen))
    ensures segments[0].Block? ==> segments[0].id !in seen && segments[0].id != ""
  {
    hide MarkOf;
  }

  lemma BlockStands(before: seq<string>, begin: string, inner: seq<string>, end: string, after: seq<string>)
    ensures var lines, b, e := before + ([begin] + inner + [end]) + after, |before|, |before| + |inner| + 1;
            e < |lines| && lines[b] == begin && lines[e] == end && lines[b + 1..e] == inner
  {
  }

  lemma HeadLocated(before: seq<string>, s: Segment, after: seq<string>)
    requires Marked(s)
    ensures AllLocated(BlockAt(s, |before|), before + s.Lines() + after)
  {
    hide MarkOf, Join, AllPlain, Marked;
    MarkedIff(s);
    LinesOf(s);
    if s.Block? {
      BlockStands(before, s.begin, s.inner, s.end, after);
    }
  }

  lemma {:induction false} BlocksLocated(before: seq<string>, segments: seq<Segment>, seen: set<string>)
    requires WellMarked(segments, seen)
    ensures AllLocated(BlocksFrom(segments, |before|), before + Unparse(segments))
    decreases |segments|
  {
    hide *;
    if segments == [] {
      NoSegments(|before|, seen, before + Unparse(segments));
    } else {
      SegmentsCons(segments, |before|);
      WellMarkedHead(segments, seen);
      var head, tail := segments[0], segments[1..];
      var next := before + head.Lines();
      assert before + Unparse(segments) == next + Unparse(tail);
      BlocksLocated(next, tail, SeenAfter(head, seen));
      HeadLocated(before, head, Unparse(tail));
      AllLocatedConcat(BlockAt(head, |before|), BlocksFrom(tail, |next|), before + Unparse(segments));
    }
  }

  /** The found blocks are ordered, disjoint, uniquely named, and exactly where and what the document says. */
  lemma BlocksAreSound(content: string)
    requires Blocks(content).Ok?
    ensures var lines := Split(Normalize(content), '\n');
            var blocks := Blocks(content).value;
            && InOrder(blocks, 0, |lines|) && FreshIDs(blocks, {})
            && AllLocated(blocks, lines)
  {
    hide Located, MarkOf, BlocksFrom, Unparse, InOrder, FreshIDs, ParseOutside, WellMarked;
    var lines := Split(Normalize(content), '\n');
    var segments := Parse(lines).value;
    FindIff(lines, segments);
    BlocksInOrder(segments, 0);
    BlocksHaveFreshIDs(segments, 0, {});
    BlocksLocated([], segments, {});
    assert [] + lines == lines;
  }

  // ------------------------------------------------------------ the render loop

  function Onto(done: seq<Segment>, rest: Result<seq<Segment>, RenderError>): Result<seq<Segment>, RenderError>
  {
    match rest
    case Err(e) => Err(e)
    case Ok(segments) => Ok(done + segments)
  }

  lemma RenderNext(render: Renderer, segments: seq<Segment>, k: nat, done: seq<Segment>)
    requires k < |segments|
    ensures var s, rest := segments[k], RenderSegments(render, segments[k + 1..]);
            Onto(done, RenderSegments(render, segments[k..])) ==
            if s.Block? && render(s.id).None? then Err(UnknownID(s.id)) else Onto(done + [Rendered(render, s)], rest)
  {
    var s, rest := segments[k], RenderSegments(render, segments[k + 1..]);
    assert segments[k..][1..] == segments[k + 1..];
    if rest.Ok? && (s.Block? ==> render(s.id).Some?) {
      assert done + [Rendered(render, s)] + rest.value == done + ([Rendered(render, s)] + rest.value);
    }
  }

  lemma SegmentLines(segments: seq<Segment>, k: nat, lines: seq<string>)
    requires k < |segments| && Unparse(segments) == lines
    ensures var i, own := |Unparse(segments[..k])|, segments[k].Lines();
            && i + |own| <= |lines| && lines[i..i + |own|] == own
            && |Unparse(segments[..k + 1])| == i + |own|
  {
    hide Unparse;
    var done, s, tail := segments[..k], segments[k], segments[k + 1..];
    assert segments == segments[..k + 1] + tail && segments[..k + 1] == done + [s];
    UnparseConcat(segments[..k + 1], tail);
    UnparseConcat(done, [s]);
    UnparseOne(s);
    assert lines == Unparse(done) + s.Lines() + Unparse(tail);
  }

  ghost predicate BeginsAt(blocks: seq<Found>, line: nat, id: string, endLine: nat)
  {
    exists b :: 0 <= b < |blocks| && blocks[b].beginLine == line && blocks[b].id == id && blocks[b].endLine == endLine
  }

  /** A segment is a block exactly when a found block begins on its first line. */
  lemma BlockAtSegment(segments: seq<Segment>, k: nat)
    requires k < |segments|
    ensures var blocks, i := BlocksFrom(segments, 0), |Unparse(segments[..k])|;
            if segments[k].Line? then forall b :: 0 <= b < |blocks| ==> blocks[b].beginLine != i + 1
            else BeginsAt(blocks, i + 1, segments[k].id, i + |segments[k].inner| + 2)
  {
    hide BlocksFrom, Unparse;
    var done, s, tail := segments[..k], segments[k], segments[k + 1..];
    var i := |Unparse(done)|;
    assert segments == done + ([s] + tail);
    BlocksConcat(done, [s] + tail, 0);
    BlocksConcat([s], tail, i);
    BlocksOne(s, i);
    UnparseOne(s);
    BlocksInOrder(done, 0);
    BlocksInOrder(tail, i + |s.Lines()|);
    var first, third := BlocksFrom(done, 0), BlocksFrom(tail, i + |s.Lines()|);
    var blocks := first + (BlockAt(s, i) + third);
    assert forall b :: 0 <= b < |first| ==> blocks[b] == first[b];
    if s.Line? {
      assert forall b :: |first| <= b < |blocks| ==> blocks[b] == third[b - |first|];
    } else {
      assert blocks[|first|] == BlockAt(s, i)[0];
    }
  }

  ghost predicate Indexes(beginAt: map<nat, Found>, blocks: seq<Found>)
  {
    && (forall b :: 0 <= b < |blocks| ==> blocks[b].beginLine in beginAt && beginAt[blocks[b].beginLine] == blocks[b])
    && (forall line :: line in beginAt ==> exists b :: 0 <= b < |blocks| && blocks[b].beginLine == line)
  }

  method IndexBlocks(blocks: seq<Found>, ghost to: nat) returns (beginAt: map<nat, Found>)
    requires InOrder(blocks, 0, to)
    ensures Indexes(beginAt, blocks)
  {
    beginAt := map[];
    for n := 0 to |blocks|
      invariant Indexes(beginAt, blocks[..n])
    {
      assert forall b :: 0 <= b < n ==> blocks[..n + 1][b] == blocks[..n][b];
      assert blocks[..n + 1][n] == blocks[n];
      beginAt := beginAt[blocks[n].beginLine := blocks[n]];
    }
    assert blocks[..|blocks|] == blocks;
  }

  lemma NormalizeTwice(content: string)
    ensures Normalize(Normalize(content)) == Normalize(content) && '\r' !in Normalize(content)
  {
    CrToLfHasNoCr(CrlfToLf(content));
    NormalizeWithoutCr(Normalize(content));
  }

  /** What the render loop needs to know at the segment it stands before. */
  lemma AtSegment(segments: seq<Segment>, k: nat, lines: seq<string>, beginAt: map<nat, Found>)
    requires k < |segments| && Unparse(segments) == lines && Indexes(beginAt, BlocksFrom(segments, 0))
    ensures var i, s := |Unparse(segments[..k])|, segments[k];
            && i + |s.Lines()| <= |lines| && |Unparse(segments[..k + 1])| == i + |s.Lines()|
            && (s.Line? ==> i + 1 !in beginAt && |s.Lines()| == 1 && lines[i] == s.text)
            && (s.Block? ==> i + 1 in beginAt && beginAt[i + 1].id == s.id
                             && beginAt[i + 1].endLine == i + |s.Lines()|
                             && lines[i] == s.begin && lines[i + |s.Lines()| - 1] == s.end)
  {
    hide BlocksFrom, Unparse;
    BlockAtSegment(segments, k);
    SegmentLines(segments, k, lines);
    var i, own := |Unparse(segments[..k])|, segments[k].Lines();
    assert forall j :: 0 <= j < |own| ==> own[j] == lines[i + j];
  }

  lemma RenderStart(render: Renderer, segments: seq<Segment>)
    ensures Onto([], RenderSegments(render, segments[0..])) == RenderSegments(render, segments)
    ensures Unparse(segments[..0]) == [] && Unparse([]) == []
  {
    assert segments[0..] == segments;
    var all := RenderSegments(render, segments);
    if all.Ok? { assert [] + all.value == all.value; }
  }

  lemma RenderEnd(render: Renderer, segments: seq<Segment>, k: nat, done: seq<Segment>)
    requires k == |segments|
    ensures Onto(done, RenderSegments(render, segments[k..])) == Ok(done)
  {
    assert done + [] == done;
  }

  lemma UnparseSnoc(done: seq<Segment>, s: Segment)
    ensures Unparse(done + [s]) == Unparse(done) + s.Lines()
  {
    UnparseConcat(done, [s]);
    UnparseOne(s);
  }

  lemma RenderPrelude(render: Renderer, content: string)
    ensures var lines := Split(Normalize(content), '\n');
            match Blocks(Normalize(content))
            case Err(e) => RenderText(render, content) == Err(Finding(e))
            case Ok(blocks) =>
              && Parse(lines).Ok? && Unparse(Parse(lines).value) == lines
              && blocks == BlocksFrom(Parse(lines).value, 0) && InOrder(blocks, 0, |lines|)
              && RenderText(render, content) ==
                 match RenderSegments(render, Parse(lines).value)
                 case Err(e) => Err(e)
                 case Ok(rendered) => Ok(Join(Unparse(rendered), '\n'))
  {
    hide InOrder, BlocksFrom, Unparse, RenderSegments, WellMarked, ParseOutside;
    NormalizeTwice(content);
    var lines := Split(Normalize(content), '\n');
    if Parse(lines).Ok? {
      FindIff(lines, Parse(lines).value);
      BlocksInOrder(Parse(lines).value, 0);
    }
  }

  lemma RenderedLines(render: Renderer, s: Segment)
    requires s.Block? ==> render(s.id).Some?
    ensures Rendered(render, s).Lines() ==
            if s.Line? then [s.text]
            else [s.begin] + (if render(s.id).value == "" then [] else Split(render(s.id).value, '\n')) + [s.end]
  {
  }

  lemma MoreSegments(segments: seq<Segment>, k: nat, lines: seq<string>)
    requires k <= |segments| && Unparse(segments) == lines && |Unparse(segments[..k])| < |lines|
    ensures k < |segments|
  {
    assert segments[..|segments|] == segments;
  }

  /** The render loop before line i, where `done` are the first k segments rendered. */
  ghost predicate Progress(
    render: Renderer, segments: seq<Segment>, lines: seq<string>, i: nat, out: seq<string>, k: nat, done: seq<Segment>)
  {
    && k <= |segments| && i == |Unparse(segments[..k])| <= |lines|
    && out == Unparse(done)
    && RenderSegments(render, segments) == Onto(done, RenderSegments(render, segments[k..]))
  }

  ghost predicate Ready(segments: seq<Segment>, lines: seq<string>, beginAt: map<nat, Found>)
  {
    Unparse(segments) == lines && Indexes(beginAt, BlocksFrom(segments, 0))
  }

  lemma NoProgress(render: Renderer, segments: seq<Segment>, lines: seq<string>)
    ensures Progress(render, segments, lines, 0, [], 0, [])
  {
    hide RenderSegments, Onto;
    RenderStart(render, segments);
  }

  /** The loop stands before a segment, which is a block exactly when the index has an entry here. */
  lemma AtProgress(
    render: Renderer, segments: seq<Segment>, lines: seq<string>, beginAt: map<nat, Found>,
    i: nat, out: seq<string>, k: nat, done: seq<Segment>)
    requires Ready(segments, lines, beginAt) && Progress(render, segments, lines, i, out, k, done) && i < |lines|
    ensures k < |segments|
    ensures segments[k].Block? <==> i + 1 in beginAt
    ensures segments[k].Block? ==> beginAt[i + 1].id == segments[k].id && i < beginAt[i + 1].endLine <= |lines|
    ensures segments[k].Block? ==> segments[k].begin == lines[i] && segments[k].end == lines[beginAt[i + 1].endLine - 1]
    ensures segments[k].Line? ==> segments[k].text == lines[i]
    ensures |Unparse(segments[..k + 1])| == if segments[k].Block? then beginAt[i + 1].endLine else i + 1
  {
    hide Unparse, RenderSegments, Onto, Indexes, BlocksFrom;
    MoreSegments(segments, k, lines);
    LinesOf(segments[k]);
    AtSegment(segments, k, lines, beginAt);
  }

  /** Rendering the segment before which the loop stands. */
  lemma NextProgress(
    render: Renderer, segments: seq<Segment>, lines: seq<string>,
    i: nat, out: seq<string>, k: nat, done: seq<Segment>, next: nat, more: seq<string>)
    requires Progress(render, segments, lines, i, out, k, done) && k < |segments|
    requires (segments[k].Block? ==> render(segments[k].id).Some?) && more == Rendered(render, segments[k]).Lines()
    requires next == |Unparse(segments[..k + 1])| <= |lines|
    ensures Progress(render, segments, lines, next, out + more, k + 1, done + [Rendered(render, segments[k])])
  {
    hide Unparse, RenderSegments, Onto, Rendered;
    RenderNext(render, segments, k, done);
    UnparseSnoc(done, Rendered(render, segments[k]));
  }

  lemma StopProgress(
    render: Renderer, segments: seq<Segment>, lines: seq<string>, i: nat, out: seq<string>, k: nat, done: seq<Segment>)
    requires Progress(render, segments, lines, i, out, k, done) && k < |segments|
    requires segments[k].Block? && render(segments[k].id).None?
    ensures RenderSegments(render, segments) == Err(UnknownID(segments[k].id))
  {
    hide Unparse, RenderSegments, Onto, Rendered;
    RenderNext(render, segments, k, done);
  }

  lemma AllProgress(
    render: Renderer, segments: seq<Segment>, lines: seq<string>, beginAt: map<nat, Found>,
    out: seq<string>, k: nat, done: seq<Segment>)
    requires Ready(segments, lines, beginAt) && Progress(render, segments, lines, |lines|, out, k, done)
    ensures RenderSegments(render, segments) == Ok(done) && out == Unparse(done)
  {
    hide Unparse, RenderSegments, Onto, Indexes, BlocksFrom;
    if k < |segments| {
      AtSegment(segments, k, lines, beginAt);
    }
    RenderEnd(render, segments, k, done);
  }

  /** Render, walking the lines and jumping over each block's old inner text. */
  method RenderDocument(render: Renderer, content: string) returns (r: Result<string, RenderError>)
    ensures r == RenderText(render, content)
  {
    hide *;
    var normalized := Normalize(content);
    RenderPrelude(render, content);
    var found := FindBlocks(normalized);
    if found.Err? {
      return Err(Finding(found.error));
    }
    var lines := Split(normalized, '\n');
    ghost var segments := Parse(lines).value;
    var beginAt := IndexBlocks(found.value, |lines|);
    var out: seq<string> := [];
    var i := 0;
    ghost var k := 0;
    ghost var done: seq<Segment> := [];
    MakeReady(segments, lines, beginAt);
    NoProgress(render, segments, lines);
    while i < |lines|
      invariant 0 <= i <= |lines|
      invariant Progress(render, segments, lines, i, out, k, done)
      decreases |lines| - i
    {
      AtProgress(render, segments, lines, beginAt, i, out, k, done);
      ghost var s := segments[k];
      if i + 1 in beginAt {
        var block := beginAt[i + 1];
        var rendered := render(block.id);
        if rendered.None? {
          StopProgress(render, segments, lines, i, out, k, done);
          return Err(UnknownID(block.id));
        }
        var text := if rendered.value != "" then Split(rendered.value, '\n') else [];
        RenderedLines(render, s);
        var more := [lines[i]] + text + [lines[block.endLine - 1]];
        NextProgress(render, segments, lines, i, out, k, done, block.endLine, more);
        out := out + more;
        i := block.endLine;
      } else {
        RenderedLines(render, s);
        NextProgress(render, segments, lines, i, out, k, done, i + 1, [lines[i]]);
        out := out + [lines[i]];
        i := i + 1;
      }
      done, k := done + [Rendered(render, s)], k + 1;
    }
    AllProgress(render, segments, lines, beginAt, out, k, done);
    return Ok(Join(out, '\n'));
  }

  lemma MakeReady(segments: seq<Segment>, lines: seq<string>, beginAt: map<nat, Found>)
    requires Unparse(segments) == lines && Indexes(beginAt, BlocksFrom(segments, 0))
    ensures Ready(segments, lines, beginAt)
  {
    hide Unparse, Indexes, BlocksFrom;
  }

  // --------------------------------------------------- what rendering leaves alone

  /** Segment by segment: lines outside blocks and marker lines stay, inner text becomes the rendered text. */
  lemma {:induction false} RenderKeeps(render: Renderer, segments: seq<Segment>)
    requires RenderSegments(render, segments).Ok?
    ensures var rendered := RenderSegments(render, segments).value;
            |rendered| == |segments| &&
            forall k :: 0 <= k < |segments| ==>
              (segments[k].Block? ==> render(segments[k].id).Some?) && rendered[k] == Rendered(render, segments[k])
  {
    if segments != [] {
      RenderKeeps(render, segments[1..]);
    }
  }

  /** The texts that a document's blocks are given. */
  predicate Uses(segments: seq<Segment>, id: string)
  {
    exists k :: 0 <= k < |segments| && segments[k].Block? && segments[k].id == id
  }

  predicate MarkerFree(render: Renderer, segments: seq<Segment>)
  {
    forall k :: 0 <= k < |segments| && segments[k].Block? && render(segments[k].id).Some? ==>
      AllPlain(InnerOf(render(segments[k].id).value))
  }

  predicate CrFree(render: Renderer, segments: seq<Segment>)
  {
    forall k :: 0 <= k < |segments| && segments[k].Block? && render(segments[k].id).Some? ==>
      '\r' !in render(segments[k].id).value
  }
}
