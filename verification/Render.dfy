/**
 Protected blocks in markdown documents: finding them and rewriting their inner
 text.  The specification reads a document's lines as a list of segments, plain
 lines and blocks, and writes segments back as lines.
 */
module Render {
  import opened Bytes
  import opened Text

  const BEGIN_PREFIX := "<!-- cap-release:begin:"
  const MARKER_CLOSE := " -->"
  const END_MARKER := "<!-- cap-release:end -->"

  datatype FindError = Nested | EmptyID | DuplicateID | EndWithoutBegin | Unclosed

  datatype RenderError = Finding(error: FindError) | UnknownID(id: string)

  // -------------------------------------------------------------------- lines

  /** What one line is: a begin marker with its ID, an end marker, or neither. */
  datatype Mark = Begin(id: string) | End | Plain

  /** The prefix and the close of a begin marker never overlap, so cutting out the ID is safe. */
  lemma MarkerRoom(trimmed: string)
    requires BEGIN_PREFIX <= trimmed && |trimmed| >= 4 && trimmed[|trimmed| - 4..] == MARKER_CLOSE
    ensures |BEGIN_PREFIX| + |MARKER_CLOSE| <= |trimmed|
  {
    assert trimmed[|trimmed| - 4] == ' ';
    assert forall k :: 5 <= k < |BEGIN_PREFIX| ==> trimmed[k] == BEGIN_PREFIX[k] != ' ';
  }

  function ParseBeginID(trimmed: string): Option<string>
  {
    if BEGIN_PREFIX <= trimmed && |trimmed| >= 4 && trimmed[|trimmed| - 4..] == MARKER_CLOSE then
      MarkerRoom(trimmed);
      Some(TrimSpace(trimmed[|BEGIN_PREFIX|..|trimmed| - |MARKER_CLOSE|]))
    else None
  }

  function MarkOf(line: string): Mark
  {
    var trimmed := TrimSpace(line);
    match ParseBeginID(trimmed)
    case Some(id) => Begin(id)
    case None => if trimmed == END_MARKER then End else Plain
  }

  // ----------------------------------------------------------------- segments

  datatype Segment =
    | Line(text: string)
    | Block(begin: string, id: string, inner: seq<string>, end: string)
  {
    function Lines(): (r: seq<string>)
      ensures |r| >= 1
    {
      match this
      case Line(text) => [text]
      case Block(begin, _, inner, end) => [begin] + inner + [end]
    }
  }

  function Unparse(segments: seq<Segment>): seq<string>
  {
    if segments == [] then [] else segments[0].Lines() + Unparse(segments[1..])
  }

  function Prepend(s: Segment, rest: Result<seq<Segment>, FindError>): Result<seq<Segment>, FindError>
  {
    match rest
    case Ok(segments) => Ok([s] + segments)
    case Err(e) => Err(e)
  }

  /** Reading lines outside a block; `seen` are the IDs used so far. */
  function ParseOutside(lines: seq<string>, seen: set<string>): Result<seq<Segment>, FindError>
    decreases |lines|
  {
    if lines == [] then Ok([])
    else
      match MarkOf(lines[0])
      case Plain => Prepend(Line(lines[0]), ParseOutside(lines[1..], seen))
      case End => Err(EndWithoutBegin)
      case Begin(id) =>
        if id == "" then Err(EmptyID)
        else if id in seen then Err(DuplicateID)
        else ParseInside(lines[1..], seen + {id}, lines[0], id, [])
  }

  /** Reading lines inside the block that `begin` opened. */
  function ParseInside(lines: seq<string>, seen: set<string>, begin: string, id: string, inner: seq<string>):
    Result<seq<Segment>, FindError>
    decreases |lines|
  {
    if lines == [] then Err(Unclosed)
    else
      match MarkOf(lines[0])
      case Begin(_) => Err(Nested)
      case End => Prepend(Block(begin, id, inner, lines[0]), ParseOutside(lines[1..], seen))
      case Plain => ParseInside(lines[1..], seen, begin, id, inner + [lines[0]])
  }

  function Parse(lines: seq<string>): Result<seq<Segment>, FindError>
  {
    ParseOutside(lines, {})
  }

  // --------------------------------------------------------------- FindBlocks

  /** One protected block with its 1-based marker lines and LF-joined inner text. */
  datatype Found = Found(id: string, beginLine: nat, endLine: nat, inner: string)

  /** The block that a segment starting after `offset` lines is, if it is one. */
  function BlockAt(s: Segment, offset: nat): seq<Found>
  {
    if s.Line? then [] else [Found(s.id, offset + 1, offset + |s.inner| + 2, Join(s.inner, '\n'))]
  }

  function BlocksFrom(segments: seq<Segment>, offset: nat): seq<Found>
    decreases |segments|
  {
    if segments == [] then []
    else BlockAt(segments[0], offset) + BlocksFrom(segments[1..], offset + |segments[0].Lines()|)
  }

  function Blocks(content: string): Result<seq<Found>, FindError>
  {
    match Parse(Split(Normalize(content), '\n'))
    case Ok(segments) => Ok(BlocksFrom(segments, 0))
    case Err(e) => Err(e)
  }

  function Follow(done: seq<Segment>, rest: Result<seq<Segment>, FindError>): Result<seq<Segment>, FindError>
  {
    match rest
    case Ok(segments) => Ok(done + segments)
    case Err(e) => Err(e)
  }

  lemma {:induction false} UnparseConcat(xs: seq<Segment>, ys: seq<Segment>)
    ensures Unparse(xs + ys) == Unparse(xs) + Unparse(ys)
  {
    if xs == [] {
      assert xs + ys == ys;
    } else {
      assert (xs + ys)[1..] == xs[1..] + ys;
      UnparseConcat(xs[1..], ys);
      assert Unparse(xs + ys) == xs[0].Lines() + (Unparse(xs[1..]) + Unparse(ys));
    }
  }

  lemma UnparseOne(s: Segment)
    ensures Unparse([s]) == s.Lines()
  {
    assert Unparse([s]) == s.Lines() + Unparse([]);
  }

  lemma SegmentsFirst(s: Segment, rest: seq<Segment>, offset: nat)
    ensures BlocksFrom([s] + rest, offset) == BlockAt(s, offset) + BlocksFrom(rest, offset + |s.Lines()|)
    ensures Unparse([s] + rest) == s.Lines() + Unparse(rest)
  {
    assert ([s] + rest)[1..] == rest;
  }

  lemma SegmentsNone(offset: nat)
    ensures BlocksFrom([], offset) == [] && Unparse([]) == []
  {
  }

  lemma {:induction false} BlocksConcat(xs: seq<Segment>, ys: seq<Segment>, offset: nat)
    ensures BlocksFrom(xs + ys, offset) == BlocksFrom(xs, offset) + BlocksFrom(ys, offset + |Unparse(xs)|)
    decreases |xs|
  {
    hide *;
    if xs == [] {
      assert xs + ys == ys;
      SegmentsNone(offset);
    } else {
      assert xs == [xs[0]] + xs[1..] && xs + ys == [xs[0]] + (xs[1..] + ys);
      SegmentsFirst(xs[0], xs[1..], offset);
      SegmentsFirst(xs[0], xs[1..] + ys, offset);
      BlocksConcat(xs[1..], ys, offset + |xs[0].Lines()|);
    }
  }

  lemma BlocksOne(s: Segment, offset: nat)
    ensures BlocksFrom([s], offset) == BlockAt(s, offset)
  {
    assert BlocksFrom([s], offset) == BlockAt(s, offset) + BlocksFrom([], offset + |s.Lines()|);
  }

  lemma OutsideCons(line: string, rest: seq<string>, seen: set<string>)
    ensures ParseOutside([line] + rest, seen) ==
            match MarkOf(line)
            case Plain => Prepend(Line(line), ParseOutside(rest, seen))
            case End => Err(EndWithoutBegin)
            case Begin(id) =>
              if id == "" then Err(EmptyID)
              else if id in seen then Err(DuplicateID)
              else ParseInside(rest, seen + {id}, line, id, [])
  {
    assert ([line] + rest)[1..] == rest;
  }

  lemma InsideCons(line: string, rest: seq<string>, seen: set<string>, begin: string, id: string, inner: seq<string>)
    ensures ParseInside([line] + rest, seen, begin, id, inner) ==
            match MarkOf(line)
            case Begin(_) => Err(Nested)
            case End => Prepend(Block(begin, id, inner, line), ParseOutside(rest, seen))
            case Plain => ParseInside(rest, seen, begin, id, inner + [line])
  {
    assert ([line] + rest)[1..] == rest;
  }

  lemma FollowPrepend(done: seq<Segment>, s: Segment, rest: Result<seq<Segment>, FindError>)
    ensures Follow(done, Prepend(s, rest)) == Follow(done + [s], rest)
  {
    if rest.Ok? {
      assert done + ([s] + rest.value) == done + [s] + rest.value;
    }
  }

  lemma AppendDone(done: seq<Segment>, s: Segment, rest: Result<seq<Segment>, FindError>)
    ensures Follow(done, Prepend(s, rest)) == Follow(done + [s], rest)
    ensures BlocksFrom(done + [s], 0) == BlocksFrom(done, 0) + BlocksFrom([s], |Unparse(done)|)
    ensures Unparse(done + [s]) == Unparse(done) + s.Lines()
  {
    hide *;
    FollowPrepend(done, s, rest);
    BlocksConcat(done, [s], 0);
    UnparseConcat(done, [s]);
    UnparseOne(s);
  }

  /** FindBlocks, line by line with its open flag, current block, inner lines and set of IDs. */
  method FindBlocks(content: string) returns (r: Result<seq<Found>, FindError>)
    ensures r == Blocks(content)
  {
    hide BlocksFrom, Unparse, TrimSpace, ParseBeginID, Split, Normalize, Join, Prepend, ParseOutside, ParseInside,
      Follow, Parse;
    var lines := Split(Normalize(content), '\n');
    var blocks: seq<Found> := [];
    var seen: set<string> := {};
    var open := false;
    var current := Found("", 0, 0, "");
    var inner: seq<string> := [];
    ghost var done: seq<Segment> := [];
    ghost var begin := "";
    StartOfFind(lines);
    var i := 0;
    while i < |lines|
      invariant 0 <= i <= |lines|
      invariant blocks == BlocksFrom(done, 0)
      invariant |Unparse(done)| == if open then i - 1 - |inner| else i
      invariant open ==> current == Found(current.id, i - |inner|, 0, "")
      invariant Parse(lines) == Follow(done, if open then ParseInside(lines[i..], seen, begin, current.id, inner)
                                                     else ParseOutside(lines[i..], seen))
    {
      assert lines[i..] == [lines[i]] + lines[i + 1..];
      if open {
        InsideCons(lines[i], lines[i + 1..], seen, begin, current.id, inner);
      } else {
        OutsideCons(lines[i], lines[i + 1..], seen);
      }
      FollowError(done);
      var trimmed := TrimSpace(lines[i]);
      var id := ParseBeginID(trimmed);
      if id.Some? {
        if open {
          return Err(Nested);
        }
        if id.value == "" {
          return Err(EmptyID);
        }
        if id.value in seen {
          return Err(DuplicateID);
        }
        seen := seen + {id.value};
        open, current, inner := true, Found(id.value, i + 1, 0, ""), [];
        begin := lines[i];
      } else if trimmed == END_MARKER {
        if !open {
          return Err(EndWithoutBegin);
        }
        ghost var block := Block(begin, current.id, inner, lines[i]);
        AppendDone(done, block, ParseOutside(lines[i + 1..], seen));
        BlocksOne(block, |Unparse(done)|);
        current := current.(endLine := i + 1, inner := Join(inner, '\n'));
        blocks := blocks + [current];
        done := done + [block];
        open := false;
      } else if open {
        inner := inner + [lines[i]];
      } else {
        AppendDone(done, Line(lines[i]), ParseOutside(lines[i + 1..], seen));
        BlocksOne(Line(lines[i]), |Unparse(done)|);
        done := done + [Line(lines[i])];
      }
      i := i + 1;
    }
    EndOfFind(done, lines[i..], seen, begin, current.id, inner);
    if open {
      return Err(Unclosed);
    }
    return Ok(blocks);
  }

  lemma StartOfFind(lines: seq<string>)
    ensures Parse(lines) == Follow([], ParseOutside(lines[0..], {}))
    ensures BlocksFrom([], 0) == [] && Unparse([]) == []
  {
    assert lines[0..] == lines;
    var all := Parse(lines);
    if all.Ok? {
      assert [] + all.value == all.value;
    }
  }

  lemma FollowError(done: seq<Segment>)
    ensures forall e :: Follow(done, Err(e)) == Err(e)
  {
  }

  lemma EndOfFind(
    done: seq<Segment>, lines: seq<string>, seen: set<string>, begin: string, id: string, inner: seq<string>)
    requires lines == []
    ensures Follow(done, ParseOutside(lines, seen)) == Ok(done)
    ensures Follow(done, ParseInside(lines, seen, begin, id, inner)) == Err(Unclosed)
  {
    assert done + [] == done;
  }

  // ------------------------------------------------------------- reading back

  predicate Marked(s: Segment)
  {
    match s
    case Line(text) => MarkOf(text) == Plain
    case Block(begin, id, inner, end) =>
      && MarkOf(begin) == Begin(id) && id != "" && MarkOf(end) == End
      && AllPlain(inner)
  }

  /** Segments as they can stand in a document: markers only where they belong, IDs distinct and not in `seen`. */
  predicate WellMarked(segments: seq<Segment>, seen: set<string>)
    decreases |segments|
  {
    segments == [] ||
    (&& Marked(segments[0])
     && (segments[0].Block? ==> segments[0].id !in seen)
     && WellMarked(segments[1..], if segments[0].Block? then seen + {segments[0].id} else seen))
  }

  predicate AllPlain(lines: seq<string>)
  {
    forall i :: 0 <= i < |lines| ==> MarkOf(lines[i]) == Plain
  }

  lemma {:induction false} ParseInsideInner(
    inner: seq<string>, end: string, rest: seq<string>, seen: set<string>, begin: string, id: string,
    before: seq<string>)
    requires MarkOf(end) == End && AllPlain(inner)
    ensures ParseInside(inner + [end] + rest, seen, begin, id, before)
         == Prepend(Block(begin, id, before + inner, end), ParseOutside(rest, seen))
  {
    hide MarkOf, ParseInside, ParseOutside;
    if inner == [] {
      assert inner + [end] + rest == [end] + rest && before + inner == before;
      InsideCons(end, rest, seen, begin, id, before);
    } else {
      var tail := inner[1..] + [end] + rest;
      assert inner + [end] + rest == [inner[0]] + tail;
      InsideCons(inner[0], tail, seen, begin, id, before);
      ParseInsideInner(inner[1..], end, rest, seen, begin, id, before + [inner[0]]);
      assert before + [inner[0]] + inner[1..] == before + inner;
    }
  }

  lemma LinesOf(s: Segment)
    ensures s.Line? ==> s.Lines() == [s.text]
    ensures s.Block? ==> s.Lines() == [s.begin] + s.inner + [s.end]
  {
  }

  lemma MarkedIff(s: Segment)
    ensures s.Line? ==> (Marked(s) <==> MarkOf(s.text) == Plain)
    ensures s.Block? ==>
              (Marked(s) <==> MarkOf(s.begin) == Begin(s.id) && s.id != "" && MarkOf(s.end) == End && AllPlain(s.inner))
  {
    hide MarkOf;
  }

  lemma NothingToRead(seen: set<string>)
    ensures Unparse([]) == [] && ParseOutside([], seen) == Ok([])
  {
  }

  lemma PrependOk(s: Segment, rest: seq<Segment>)
    ensures Prepend(s, Ok(rest)) == Ok([s] + rest)
  {
  }

  /** Reading is the inverse of writing on well-marked segments. */
  lemma {:induction false} ParseOfUnparse(segments: seq<Segment>, seen: set<string>)
    requires WellMarked(segments, seen)
    ensures ParseOutside(Unparse(segments), seen) == Ok(segments)
    decreases |segments|
  {
    hide *;
    if segments == [] {
      NothingToRead(seen);
    } else {
      var head, tail := segments[0], segments[1..];
      var rest := Unparse(tail);
      assert segments == [head] + tail;
      WellMarkedCons(head, tail, seen);
      LinesOf(head);
      MarkedIff(head);
      PrependOk(head, tail);
      match head
      case Line(text) =>
        ParseOfUnparse(tail, seen);
        OutsideCons(text, rest, seen);
      case Block(begin, id, inner, end) =>
        ParseOfUnparse(tail, seen + {id});
        assert Unparse(segments) == [begin] + (inner + [end] + rest);
        OutsideCons(begin, inner + [end] + rest, seen);
        ParseInsideInner(inner, end, rest, seen + {id}, begin, id, []);
        assert [] + inner == inner;
    }
  }

  lemma WellMarkedCons(s: Segment, rest: seq<Segment>, seen: set<string>)
    ensures WellMarked([s] + rest, seen) <==>
            Marked(s) && (s.Block? ==> s.id !in seen) && WellMarked(rest, if s.Block? then seen + {s.id} else seen)
    ensures Unparse([s] + rest) == s.Lines() + Unparse(rest)
  {
    assert ([s] + rest)[1..] == rest;
  }

  /** And whatever is read is well marked and writes back the same lines. */
  lemma {:induction false} UnparseOfParse(lines: seq<string>, seen: set<string>)
    requires ParseOutside(lines, seen).Ok?
    ensures WellMarked(ParseOutside(lines, seen).value, seen) && Unparse(ParseOutside(lines, seen).value) == lines
    decreases |lines|
  {
    if lines != [] {
      var line, rest := lines[0], lines[1..];
      assert lines == [line] + rest;
      OutsideCons(line, rest, seen);
      hide MarkOf, ParseInside, ParseOutside;
      match MarkOf(line)
      case Plain =>
        UnparseOfParse(rest, seen);
        WellMarkedCons(Line(line), ParseOutside(rest, seen).value, seen);
      case Begin(id) =>
        UnparseOfInside(rest, seen, line, id, []);
        assert [line] + [] + rest == lines;
      case End =>
    }
  }

  lemma InsideNeedsEnd(seen: set<string>, begin: string, id: string, inner: seq<string>)
    ensures ParseInside([], seen, begin, id, inner).Err?
  {
  }

  lemma PlainSnoc(inner: seq<string>, line: string)
    requires AllPlain(inner) && MarkOf(line) == Plain
    ensures AllPlain(inner + [line])
  {
    hide MarkOf;
  }

  lemma PrependOkOnly(s: Segment, rest: Result<seq<Segment>, FindError>)
    ensures Prepend(s, rest).Ok? <==> rest.Ok?
    ensures rest.Ok? ==> Prepend(s, rest).value == [s] + rest.value
  {
  }

  lemma {:induction false} UnparseOfInside(
    lines: seq<string>, seen: set<string>, begin: string, id: string, inner: seq<string>)
    requires ParseInside(lines, seen + {id}, begin, id, inner).Ok?
    requires MarkOf(begin) == Begin(id) && id != "" && id !in seen && AllPlain(inner)
    ensures WellMarked(ParseInside(lines, seen + {id}, begin, id, inner).value, seen)
    ensures Unparse(ParseInside(lines, seen + {id}, begin, id, inner).value) == [begin] + inner + lines
    decreases |lines|
  {
    hide *;
    InsideNeedsEnd(seen + {id}, begin, id, inner);
    var line, rest := lines[0], lines[1..];
    assert lines == [line] + rest;
    InsideCons(line, rest, seen + {id}, begin, id, inner);
    if MarkOf(line) == Plain {
      PlainSnoc(inner, line);
      UnparseOfInside(rest, seen, begin, id, inner + [line]);
      assert [begin] + (inner + [line]) + rest == [begin] + inner + lines;
    } else {
      var block := Block(begin, id, inner, line);
      PrependOkOnly(block, ParseOutside(rest, seen + {id}));
      UnparseOfParse(rest, seen + {id});
      WellMarkedCons(block, ParseOutside(rest, seen + {id}).value, seen);
      MarkedIff(block);
      LinesOf(block);
      assert block.Lines() + rest == [begin] + inner + lines;
    }
  }

  /** Finding blocks succeeds on exactly the documents that well-marked segments write. */
  lemma FindIff(lines: seq<string>, segments: seq<Segment>)
    ensures Parse(lines) == Ok(segments) <==> WellMarked(segments, {}) && Unparse(segments) == lines
  {
    if Parse(lines) == Ok(segments) {
      UnparseOfParse(lines, {});
    }
    if WellMarked(segments, {}) && Unparse(segments) == lines {
      ParseOfUnparse(segments, {});
    }
  }
}
