/**
 Synchronising canonical sources into marked regions of a guide.

 The guide is the list of its lines: its bytes split at LF, so that every line but
 the last is followed by LF and a CR LF line keeps its CR.  A region is the pair of
 its marker lines.  (Offsets into the bytes and line numbers determine each other.)
 */
module Snippets {
  import opened Bytes
  import opened Text

  datatype Snippet = Snippet(name: string, language: string)

  datatype Boundary = AtStart | AtEnd

  /** What is wrong with the markers of one snippet. */
  datatype Fault =
    | Missing(boundary: Boundary)
    | Duplicated(boundary: Boundary, count: nat)
    | NotStandalone(boundary: Boundary)
    | StartNotBeforeEnd
    | InsideFence

  datatype SyncError =
    | MixedNewlines
    | BadMarkers(faults: seq<(string, Fault)>)
    | Misordered(name: string)
    | Overlap(name: string, previous: string)

  /** The line numbers of the start and end markers. */
  datatype Region = Region(start: nat, end: nat)

  type Lines = seq<string>

  function Marker(name: string, boundary: string): string
  {
    "<!-- cap-snippet:" + name + ":" + boundary + " -->"
  }

  function StartMarker(s: Snippet): string
  {
    Marker(s.name, "start")
  }

  function EndMarker(s: Snippet): string
  {
    Marker(s.name, "end")
  }

  // ------------------------------------------------------------------- fences

  datatype Fence = Fence(character: char, length: nat)

  function SkipSpaces(s: string): (r: string)
    ensures |r| <= |s|
  {
    if s != "" && s[0] == ' ' then SkipSpaces(s[1..]) else s
  }

  function RunLength(s: string, c: char): (n: nat)
    ensures n <= |s|
  {
    if s != "" && s[0] == c then 1 + RunLength(s[1..], c) else 0
  }

  /** bytes.strip leaves nothing: only ASCII white space. */
  predicate Blank(s: string)
  {
    forall i :: 0 <= i < |s| ==> s[i] == ' ' || '\U{0009}' <= s[i] <= '\U{000D}'
  }

  /** _advance_fence, on the content of a line without its terminator. */
  function Advance(active: Option<Fence>, content: string): Option<Fence>
  {
    var stripped := SkipSpaces(content);
    if |content| - |stripped| > 3 || stripped == "" then active
    else
      var character := stripped[0];
      if character != '`' && character != '~' then active
      else
        var run := RunLength(stripped, character);
        match active
        case None => if run >= 3 then Some(Fence(character, run)) else None
        case Some(fence) =>
          if character == fence.character && run >= fence.length && Blank(stripped[run..]) then None else active
  }

  function AdvanceAll(active: Option<Fence>, contents: seq<string>): Option<Fence>
    decreases contents
  {
    if contents == [] then active else AdvanceAll(Advance(active, contents[0]), contents[1..])
  }

  /**
   The fence after a line.  bytes.splitlines also ends lines at a lone CR, so the
   scanner sees the pieces between CRs; an empty piece changes nothing.
   */
  function AdvanceLine(active: Option<Fence>, line: string): Option<Fence>
  {
    AdvanceAll(active, Split(line, '\r'))
  }

  function FenceAfter(active: Option<Fence>, lines: Lines): Option<Fence>
    decreases lines
  {
    if lines == [] then active else FenceAfter(AdvanceLine(active, lines[0]), lines[1..])
  }

  lemma {:induction false} FenceConcat(active: Option<Fence>, xs: Lines, ys: Lines)
    ensures FenceAfter(active, xs + ys) == FenceAfter(FenceAfter(active, xs), ys)
    decreases xs
  {
    if xs == [] {
      assert xs + ys == ys;
    } else {
      assert (xs + ys)[1..] == xs[1..] + ys;
      FenceConcat(AdvanceLine(active, xs[0]), xs[1..], ys);
    }
  }

  lemma FenceOne(active: Option<Fence>, line: string)
    ensures FenceAfter(active, [line]) == AdvanceLine(active, line)
  {
    assert FenceAfter(active, [line]) == FenceAfter(AdvanceLine(active, line), []);
  }

  /** _outside_fence: scanning from the top of the guide to a line. */
  method OutsideFence(lines: Lines, line: nat) returns (outside: bool)
    requires line <= |lines|
    ensures outside <==> FenceAfter(None, lines[..line]).None?
  {
    var active: Option<Fence> := None;
    for i := 0 to line
      invariant active == FenceAfter(None, lines[..i])
    {
      active := AdvanceLine(active, lines[i]);
      assert lines[..i + 1] == lines[..i] + [lines[i]];
      FenceConcat(None, lines[..i], [lines[i]]);
      FenceOne(FenceAfter(None, lines[..i]), lines[i]);
    }
    return active.None?;
  }

  // ------------------------------------------------------------------ markers

  /** bytes.count within one line; a marker holds no LF, so it never spans lines. */
  function Count(s: string, part: string): nat
    requires part != ""
  {
    if |s| < |part| then 0
    else if part <= s then 1 + Count(s[|part|..], part)
    else Count(s[1..], part)
  }

  function Total(lines: Lines, part: string): nat
    requires part != ""
  {
    if lines == [] then 0 else Count(lines[0], part) + Total(lines[1..], part)
  }

  function FirstWith(lines: Lines, part: string): (k: nat)
    requires part != "" && Total(lines, part) > 0
    ensures k < |lines| && Count(lines[k], part) > 0
  {
    if Count(lines[0], part) > 0 then 0 else 1 + FirstWith(lines[1..], part)
  }

  /** _marker_line: the marker occurs once in the guide, and stands alone on its line. */
  function Locate(lines: Lines, marker: string): (r: Option<nat>)
    requires marker != ""
    ensures r.Some? ==> r.value < |lines| && StripCr(lines[r.value]) == marker && Total(lines, marker) == 1
  {
    if Total(lines, marker) != 1 then None
    else
      var k := FirstWith(lines, marker);
      if StripCr(lines[k]) == marker then Some(k) else None
  }

  // ------------------------------------------------------------------ regions

  /** _validate_region. */
  function RegionOf(lines: Lines, s: Snippet): Option<Region>
  {
    var start, end := Locate(lines, StartMarker(s)), Locate(lines, EndMarker(s));
    if start.None? || end.None? || start.value >= end.value then None
    else if FenceAfter(None, lines[..start.value]).Some? || FenceAfter(None, lines[..end.value]).Some? then None
    else Some(Region(start.value, end.value))
  }

  /** The first thing wrong with a snippet's markers, in the order of the checks. */
  function FaultOf(lines: Lines, s: Snippet): (f: Option<Fault>)
    ensures f.None? <==> RegionOf(lines, s).Some?
  {
    var start, end := MarkerFault(lines, StartMarker(s), AtStart), MarkerFault(lines, EndMarker(s), AtEnd);
    if start.Some? then start
    else if end.Some? then end
    else
      var from, to := Locate(lines, StartMarker(s)).value, Locate(lines, EndMarker(s)).value;
      if from >= to then Some(StartNotBeforeEnd)
      else if FenceAfter(None, lines[..from]).Some? || FenceAfter(None, lines[..to]).Some? then Some(InsideFence)
      else None
  }

  /** _marker_line's error for one marker. */
  function MarkerFault(lines: Lines, marker: string, boundary: Boundary): (f: Option<Fault>)
    requires marker != ""
    ensures f.None? <==> Locate(lines, marker).Some?
  {
    var count := Total(lines, marker);
    if count == 0 then Some(Missing(boundary))
    else if count != 1 then Some(Duplicated(boundary, count))
    else if StripCr(lines[FirstWith(lines, marker)]) != marker then Some(NotStandalone(boundary))
    else None
  }

  /** The faults of all snippets that have one, in the order of the snippets. */
  function Faults(lines: Lines, snippets: seq<Snippet>): seq<(string, Fault)>
  {
    if snippets == [] then []
    else
      var last := |snippets| - 1;
      var fault := FaultOf(lines, snippets[last]);
      Faults(lines, snippets[..last]) + if fault.Some? then [(snippets[last].name, fault.value)] else []
  }

  predicate AllValid(lines: Lines, snippets: seq<Snippet>)
  {
    forall i :: 0 <= i < |snippets| ==> RegionOf(lines, snippets[i]).Some?
  }

  function RegionsOf(lines: Lines, snippets: seq<Snippet>): (r: seq<Region>)
    requires AllValid(lines, snippets)
    ensures |r| == |snippets| && forall i :: 0 <= i < |r| ==> RegionOf(lines, snippets[i]) == Some(r[i])
  {
    seq(|snippets|, i requires 0 <= i < |snippets| => RegionOf(lines, snippets[i]).value)
  }

  predicate Ascending(regions: seq<Region>)
  {
    forall i, j :: 0 <= i < j < |regions| ==> regions[i].start < regions[j].start
  }

  predicate Apart(regions: seq<Region>)
  {
    forall i :: 0 < i < |regions| ==> regions[i - 1].end < regions[i].start
  }

  /** A region with the name of its snippet. */
  datatype Placed = Placed(name: string, region: Region)

  function PlacedAll(snippets: seq<Snippet>, regions: seq<Region>): (r: seq<Placed>)
    requires |snippets| == |regions|
    ensures |r| == |snippets| && forall i :: 0 <= i < |r| ==> r[i] == Placed(snippets[i].name, regions[i])
  {
    seq(|snippets|, i requires 0 <= i < |snippets| => Placed(snippets[i].name, regions[i]))
  }

  function Put(x: Placed, s: seq<Placed>): seq<Placed>
    decreases |s|
  {
    if s == [] || x.region.start <= s[0].region.start then [x] + s else [s[0]] + Put(x, s[1..])
  }

  /** sorted by start; equal starts keep their order. */
  function ByStart(s: seq<Placed>): seq<Placed>
  {
    if s == [] then [] else Put(s[0], ByStart(s[1..]))
  }

  /** The first name that stands where another is expected. */
  function Mismatch(actual: seq<Placed>, expected: seq<Placed>): string
    decreases |actual|
  {
    if actual == [] || expected == [] then ""
    else if actual[0].name != expected[0].name then actual[0].name
    else Mismatch(actual[1..], expected[1..])
  }

  predicate OverlapFrom(regions: seq<Region>, i: nat)
    requires 0 < i
  {
    exists k :: i <= k < |regions| && regions[k - 1].end >= regions[k].start
  }

  /** The first region from `i` on that starts before the one before it has ended. */
  function FirstOverlap(snippets: seq<Snippet>, regions: seq<Region>, i: nat): SyncError
    requires |snippets| == |regions| && 0 < i && OverlapFrom(regions, i)
    decreases |regions| - i
  {
    if regions[i - 1].end >= regions[i].start then Overlap(snippets[i].name, snippets[i - 1].name)
    else FirstOverlap(snippets, regions, i + 1)
  }

  /** _validate_regions: regions in snippet order and apart, or the first thing wrong, with the names it concerns. */
  function Validate(lines: Lines, snippets: seq<Snippet>): Result<seq<Region>, SyncError>
  {
    if !AllValid(lines, snippets) then Err(BadMarkers(Faults(lines, snippets)))
    else
      var regions := RegionsOf(lines, snippets);
      var placed := PlacedAll(snippets, regions);
      if !Ascending(regions) then Err(Misordered(Mismatch(ByStart(placed), placed)))
      else if !Apart(regions) then Err(FirstOverlap(snippets, regions, 1))
      else Ok(regions)
  }

  /** _guide_eol: whether lines end in CR LF; both styles at once are an error. */
  function GuideCrlf(lines: Lines): Result<bool, SyncError>
  {
    var crlf := exists i :: 0 <= i < |lines| - 1 && EndsWithCr(lines[i]);
    var bare := exists i :: 0 <= i < |lines| - 1 && !EndsWithCr(lines[i]);
    if crlf && bare then Err(MixedNewlines) else Ok(crlf)
  }

  // ---------------------------------------------------------------- rendering

  /** A block's lines: the opening fence with the language, the LF-normalised source, the closing fence. */
  function BlockLines(s: Snippet, source: string): Lines
  {
    var text := "```" + s.language + "\n" + CrlfToLf(source) + "```\n";
    var lines := Split(text, '\n');
    lines[..|lines| - 1]
  }

  /** The text that a block's lines make up, for every source, whatever newlines it has or lacks. */
  lemma BlockText(s: Snippet, source: string)
    ensures Join(BlockLines(s, source), '\n') == "```" + s.language + "\n" + CrlfToLf(source) + "```"
    ensures Free(BlockLines(s, source), '\n')
  {
    hide Split, Join, CrlfToLf;
    var text := "```" + s.language + "\n" + CrlfToLf(source) + "```";
    assert "```" + s.language + "\n" + CrlfToLf(source) + "```\n" == text + ['\n'] + "";
    SplitConcat(text, "", '\n');
    SplitOfFree("", "", '\n');
    JoinOfSplit(text, '\n');
    SplitIsFree(text, '\n');
    assert BlockLines(s, source) == Split(text, '\n');
  }

  function StyledLines(block: Lines, crlf: bool): (r: Lines)
    ensures |r| == |block|
  {
    seq(|block|, i requires 0 <= i < |block| => if crlf then block[i] + "\r" else block[i])
  }

  function Inner(lines: Lines, r: Region): Lines
    requires r.start < r.end <= |lines|
  {
    lines[r.start + 1..r.end]
  }

  /** Drift: the region's lines, CR LF read as LF, are not the block's lines. */
  predicate Drifted(lines: Lines, r: Region, block: Lines)
    requires r.start < r.end <= |lines|
  {
    var inner := Inner(lines, r);
    |inner| != |block| || exists i :: 0 <= i < |inner| && StripCr(inner[i]) != block[i]
  }

  predicate WithinGuide(lines: Lines, regions: seq<Region>)
  {
    && (forall i :: 0 <= i < |regions| ==> regions[i].start < regions[i].end < |lines|)
    && Apart(regions)
  }

  /** Where copying resumes before region `i`: at the previous end marker. */
  function Cursor(regions: seq<Region>, i: nat): nat
    requires i <= |regions|
  {
    if i == 0 then 0 else regions[i - 1].end
  }

  /** The output of _render before region `i`. */
  function Output(lines: Lines, regions: seq<Region>, blocks: seq<Lines>, i: nat): Lines
    requires WithinGuide(lines, regions) && |blocks| == |regions| && i <= |regions|
  {
    if i == 0 then []
    else
      Output(lines, regions, blocks, i - 1)
      + lines[Cursor(regions, i - 1)..regions[i - 1].start + 1]
      + blocks[i - 1]
  }

  function Rendered(lines: Lines, regions: seq<Region>, blocks: seq<Lines>): Lines
    requires WithinGuide(lines, regions) && |blocks| == |regions|
  {
    Output(lines, regions, blocks, |regions|) + lines[Cursor(regions, |regions|)..]
  }

  /** _render, copying up to each region and putting the block in place of its content. */
  method RenderGuide(lines: Lines, regions: seq<Region>, blocks: seq<Lines>) returns (output: Lines)
    requires WithinGuide(lines, regions) && |blocks| == |regions|
    ensures output == Rendered(lines, regions, blocks)
  {
    output := [];
    var cursor := 0;
    for i := 0 to |regions|
      invariant cursor == Cursor(regions, i) <= |lines|
      invariant output == Output(lines, regions, blocks, i)
    {
      output := output + lines[cursor..regions[i].start + 1];
      output := output + blocks[i];
      cursor := regions[i].end;
    }
    output := output + lines[cursor..];
  }
}
