/**
 What one synchronisation leaves for the next: the rendered guide validates with
 the same regions in the same order, and shows no drift, under conditions on the
 inserted blocks that are necessary as well as sufficient.
 */
module SnippetsProperties {
  import opened Bytes
  import opened Text
  import opened Snippets

  // ----------------------------------------------------------- counting markers

  lemma {:induction false} TotalConcat(xs: Lines, ys: Lines, part: string)
    requires part != ""
    ensures Total(xs + ys, part) == Total(xs, part) + Total(ys, part)
  {
    if xs == [] {
      assert xs + ys == ys;
    } else {
      assert (xs + ys)[1..] == xs[1..] + ys;
      TotalConcat(xs[1..], ys, part);
    }
  }

  lemma {:induction false} TotalAtLeast(lines: Lines, k: nat, part: string)
    requires part != "" && k < |lines|
    ensures Total(lines, part) >= Count(lines[k], part)
  {
    if k > 0 {
      TotalAtLeast(lines[1..], k - 1, part);
    }
  }

  lemma MarkerLineCounts(line: string, marker: string)
    requires marker != "" && StripCr(line) == marker
    ensures Count(line, marker) >= 1
  {
    assert marker <= line;
  }

  lemma {:induction false} FirstIsOnly(lines: Lines, k: nat, part: string)
    requires part != "" && k < |lines| && Count(lines[k], part) >= 1 && Total(lines, part) == 1
    ensures FirstWith(lines, part) == k
  {
    if k > 0 {
      TotalAtLeast(lines[1..], k - 1, part);
      FirstIsOnly(lines[1..], k - 1, part);
    }
  }

  /** A marker is located at a line exactly when it occurs once and that line is the marker. */
  lemma LocateIff(lines: Lines, k: nat, marker: string)
    requires marker != ""
    ensures Locate(lines, marker) == Some(k) <==>
            k < |lines| && StripCr(lines[k]) == marker && Total(lines, marker) == 1
  {
    if k < |lines| && StripCr(lines[k]) == marker && Total(lines, marker) == 1 {
      MarkerLineCounts(lines[k], marker);
      FirstIsOnly(lines, k, marker);
    }
  }

  /** Lines away from the located one do not contain the marker. */
  lemma NotElsewhere(lines: Lines, k: nat, from: nat, to: nat, marker: string)
    requires marker != "" && Locate(lines, marker) == Some(k) && from <= to <= |lines| && !(from <= k < to)
    ensures Total(lines[from..to], marker) == 0
  {
    hide *;
    MarkerLineCounts(lines[k], marker);
    assert lines == lines[..from] + (lines[from..to] + lines[to..]);
    TotalConcat(lines[..from], lines[from..to] + lines[to..], marker);
    TotalConcat(lines[from..to], lines[to..], marker);
    if k < from {
      TotalAtLeast(lines[..from], k, marker);
    } else {
      TotalAtLeast(lines[to..], k - to, marker);
    }
  }

  // ------------------------------------------------------------ valid guides

  lemma MarkersAreMarkers(s: Snippet)
    ensures StartMarker(s) != "" && EndMarker(s) != ""
    ensures StartMarker(s)[0] == '<' && EndMarker(s)[0] == '<'
  {
  }

  /** A guide with its regions, as validation returns them. */
  predicate Valid(lines: Lines, snippets: seq<Snippet>, regions: seq<Region>)
  {
    Validate(lines, snippets) == Ok(regions)
  }

  /** The same, marker by marker. */
  predicate ValidAt(lines: Lines, s: Snippet, r: Region)
  {
    && Locate(lines, StartMarker(s)) == Some(r.start) && Locate(lines, EndMarker(s)) == Some(r.end)
    && r.start < r.end < |lines|
    && FenceAfter(None, lines[..r.start]).None? && FenceAfter(None, lines[..r.end]).None?
  }

  lemma ValidIff(lines: Lines, snippets: seq<Snippet>, regions: seq<Region>)
    ensures Valid(lines, snippets, regions) <==>
            && |regions| == |snippets|
            && (forall i :: 0 <= i < |regions| ==> ValidAt(lines, snippets[i], regions[i]))
            && Ascending(regions) && Apart(regions)
  {
    hide Locate, FenceAfter;
    if Valid(lines, snippets, regions) {
      forall i | 0 <= i < |regions| ensures ValidAt(lines, snippets[i], regions[i]) {
        assert RegionOf(lines, snippets[i]) == Some(regions[i]);
      }
    }
    if |regions| == |snippets| && (forall i :: 0 <= i < |regions| ==> ValidAt(lines, snippets[i], regions[i]))
       && Ascending(regions) && Apart(regions) {
      forall i | 0 <= i < |snippets| ensures RegionOf(lines, snippets[i]) == Some(regions[i]) {
        assert ValidAt(lines, snippets[i], regions[i]);
      }
      assert RegionsOf(lines, snippets) == regions;
    }
  }

  lemma {:induction false} ApartOrdered(regions: seq<Region>, lines: Lines, i: nat, j: nat)
    requires WithinGuide(lines, regions) && i < j < |regions|
    ensures regions[i].end < regions[j].start
    decreases j
  {
    if i < j - 1 {
      ApartOrdered(regions, lines, i, j - 1);
    }
  }

  /** No marker of a valid guide stands inside a region. */
  lemma InnerIsMarkerFree(lines: Lines, snippets: seq<Snippet>, regions: seq<Region>, i: nat, j: nat, end: bool)
    requires Valid(lines, snippets, regions) && i < |regions| && j < |regions| && WithinGuide(lines, regions)
    ensures StartMarker(snippets[j]) != "" && EndMarker(snippets[j]) != ""
    ensures Total(Inner(lines, regions[i]), if end then EndMarker(snippets[j]) else StartMarker(snippets[j])) == 0
  {
    hide Locate, FenceAfter, Total, Validate, Valid, StartMarker, EndMarker;
    ValidIff(lines, snippets, regions);
    MarkersAreMarkers(snippets[j]);
    assert ValidAt(lines, snippets[j], regions[j]);
    if i < j { ApartOrdered(regions, lines, i, j); }
    if j < i { ApartOrdered(regions, lines, j, i); }
    var marker := if end then EndMarker(snippets[j]) else StartMarker(snippets[j]);
    var k := if end then regions[j].end else regions[j].start;
    assert regions[i].start + 1 <= regions[i].end;
    NotElsewhere(lines, k, regions[i].start + 1, regions[i].end, marker);
  }

  // ---------------------------------------------------------- the rendered guide

  /** Where the markers of region `i` stand after rendering. */
  function Moved(lines: Lines, regions: seq<Region>, blocks: seq<Lines>, i: nat): Region
    requires WithinGuide(lines, regions) && |blocks| == |regions| && i < |regions|
  {
    Region(|Output(lines, regions, blocks, i)| + regions[i].start - Cursor(regions, i),
           |Output(lines, regions, blocks, i + 1)|)
  }

  function MovedAll(lines: Lines, regions: seq<Region>, blocks: seq<Lines>): (r: seq<Region>)
    requires WithinGuide(lines, regions) && |blocks| == |regions|
    ensures |r| == |regions|
  {
    seq(|regions|, i requires 0 <= i < |regions| => Moved(lines, regions, blocks, i))
  }

  lemma CursorBounds(lines: Lines, regions: seq<Region>, i: nat)
    requires WithinGuide(lines, regions) && i <= |regions|
    ensures Cursor(regions, i) <= |lines|
    ensures i < |regions| ==> Cursor(regions, i) <= regions[i].start
  {
  }

  /** The rendered guide starts with the output before any region, followed by what the region copies. */
  lemma {:induction false} OutputIsPrefix(lines: Lines, regions: seq<Region>, blocks: seq<Lines>, i: nat)
    requires WithinGuide(lines, regions) && |blocks| == |regions| && i <= |regions|
    ensures Output(lines, regions, blocks, i) <= Rendered(lines, regions, blocks)
    ensures i < |regions| ==>
      Output(lines, regions, blocks, i) + lines[Cursor(regions, i)..regions[i].start + 1]
      <= Rendered(lines, regions, blocks)
    decreases |regions| - i
  {
    CursorBounds(lines, regions, i);
    if i < |regions| {
      OutputIsPrefix(lines, regions, blocks, i + 1);
    }
  }

  /** What stands at and after the moved markers. */
  lemma MovedLines(lines: Lines, regions: seq<Region>, blocks: seq<Lines>, i: nat)
    requires WithinGuide(lines, regions) && |blocks| == |regions| && i < |regions|
    ensures var out, m := Rendered(lines, regions, blocks), Moved(lines, regions, blocks, i);
            && m.start < m.end < |out|
            && out[m.start] == lines[regions[i].start] && out[m.end] == lines[regions[i].end]
            && out[..m.start] == Output(lines, regions, blocks, i) + lines[Cursor(regions, i)..regions[i].start]
            && out[..m.end] == Output(lines, regions, blocks, i + 1)
            && out[m.start + 1..m.end] == blocks[i]
  {
    hide Output, Rendered;
    CursorBounds(lines, regions, i);
    OutputIsPrefix(lines, regions, blocks, i + 1);
    OutputStep(lines, regions, blocks, i);
    var copied := lines[Cursor(regions, i)..regions[i].start + 1];
    assert copied[..|copied| - 1] == lines[Cursor(regions, i)..regions[i].start];
    PrefixOfThree(Rendered(lines, regions, blocks), Output(lines, regions, blocks, i), copied, blocks[i]);
    EndMarkerMoved(lines, regions, blocks, i);
  }

  lemma OutputStep(lines: Lines, regions: seq<Region>, blocks: seq<Lines>, i: nat)
    requires WithinGuide(lines, regions) && |blocks| == |regions| && i < |regions|
    ensures Cursor(regions, i) <= regions[i].start
    ensures Output(lines, regions, blocks, i + 1)
         == Output(lines, regions, blocks, i) + lines[Cursor(regions, i)..regions[i].start + 1] + blocks[i]
  {
  }

  lemma PrefixOfThree(whole: Lines, a: Lines, b: Lines, c: Lines)
    requires a + b + c <= whole && b != []
    ensures var k := |a| + |b| - 1;
            && whole[k] == b[|b| - 1] && whole[..k] == a + b[..|b| - 1]
            && whole[k + 1..k + 1 + |c|] == c && whole[..k + 1 + |c|] == a + b + c
  {
    var k, abc := |a| + |b| - 1, a + b + c;
    assert whole[..|abc|] == abc;
    assert abc[..k] == a + b[..|b| - 1];
    assert whole[..k] == whole[..|abc|][..k];
    assert whole[k + 1..k + 1 + |c|] == whole[..|abc|][k + 1..] == abc[k + 1..] == c;
    assert whole[k] == abc[k];
  }

  lemma EndMarkerMoved(lines: Lines, regions: seq<Region>, blocks: seq<Lines>, i: nat)
    requires WithinGuide(lines, regions) && |blocks| == |regions| && i < |regions|
    ensures |Output(lines, regions, blocks, i + 1)| < |Rendered(lines, regions, blocks)|
    ensures Rendered(lines, regions, blocks)[|Output(lines, regions, blocks, i + 1)|] == lines[regions[i].end]
  {
    CursorBounds(lines, regions, i + 1);
    if i + 1 < |regions| {
      OutputIsPrefix(lines, regions, blocks, i + 1);
      var next := lines[Cursor(regions, i + 1)..regions[i + 1].start + 1];
      assert next[0] == lines[regions[i].end];
      assert (Output(lines, regions, blocks, i + 1) + next)[|Output(lines, regions, blocks, i + 1)|] == next[0];
    }
  }

  /** Rendering keeps the order of the regions and the distances between them. */
  lemma MovedApart(lines: Lines, regions: seq<Region>, blocks: seq<Lines>)
    requires WithinGuide(lines, regions) && |blocks| == |regions|
    ensures WithinGuide(Rendered(lines, regions, blocks), MovedAll(lines, regions, blocks))
  {
    hide Output, Rendered;
    var moved := MovedAll(lines, regions, blocks);
    forall i | 0 <= i < |moved| ensures moved[i].start < moved[i].end < |Rendered(lines, regions, blocks)| {
      MovedLines(lines, regions, blocks, i);
    }
    forall i | 0 < i < |moved| ensures moved[i - 1].end < moved[i].start {
      assert moved[i] == Moved(lines, regions, blocks, i) && moved[i - 1] == Moved(lines, regions, blocks, i - 1);
    }
  }

  lemma AscendingWhenApart(lines: Lines, regions: seq<Region>)
    requires WithinGuide(lines, regions)
    ensures Ascending(regions)
  {
    forall i, j | 0 <= i < j < |regions| ensures regions[i].start < regions[j].start {
      ApartOrdered(regions, lines, i, j);
    }
  }

  // ------------------------------------------------------- markers in the blocks

  function InBlocks(blocks: seq<Lines>, i: nat, marker: string): nat
    requires i <= |blocks| && marker != ""
  {
    if i == 0 then 0 else InBlocks(blocks, i - 1, marker) + Total(blocks[i - 1], marker)
  }

  /** A marker that no region's old content holds occurs in the output as often as before, and in the blocks. */
  lemma {:induction false} TotalOfOutput(lines: Lines, regions: seq<Region>, blocks: seq<Lines>, i: nat, marker: string)
    requires WithinGuide(lines, regions) && |blocks| == |regions| && i <= |regions| && marker != ""
    requires forall k :: 0 <= k < |regions| ==> Total(Inner(lines, regions[k]), marker) == 0
    ensures Cursor(regions, i) <= |lines|
    ensures Total(Output(lines, regions, blocks, i), marker)
         == Total(lines[..Cursor(regions, i)], marker) + InBlocks(blocks, i, marker)
  {
    hide Total, Output;
    if i == 0 {
      OutputOfNone(lines, regions, blocks, marker);
    } else {
      var r, cursor := regions[i - 1], Cursor(regions, i - 1);
      TotalOfOutput(lines, regions, blocks, i - 1, marker);
      OutputStep(lines, regions, blocks, i - 1);
      var before, copied := Output(lines, regions, blocks, i - 1), lines[cursor..r.start + 1];
      TotalConcat(before + copied, blocks[i - 1], marker);
      TotalConcat(before, copied, marker);
      assert lines[..r.end] == lines[..cursor] + copied + Inner(lines, r);
      TotalConcat(lines[..cursor] + copied, Inner(lines, r), marker);
      TotalConcat(lines[..cursor], copied, marker);
    }
  }

  lemma OutputOfNone(lines: Lines, regions: seq<Region>, blocks: seq<Lines>, marker: string)
    requires WithinGuide(lines, regions) && |blocks| == |regions| && marker != ""
    ensures Output(lines, regions, blocks, 0) == [] && Total([], marker) == 0
    ensures lines[..Cursor(regions, 0)] == []
  {
  }

  lemma TotalOfRendered(lines: Lines, regions: seq<Region>, blocks: seq<Lines>, marker: string)
    requires WithinGuide(lines, regions) && |blocks| == |regions| && marker != ""
    requires forall k :: 0 <= k < |regions| ==> Total(Inner(lines, regions[k]), marker) == 0
    ensures Total(Rendered(lines, regions, blocks), marker) == Total(lines, marker) + InBlocks(blocks, |blocks|, marker)
  {
    hide Total, Output, InBlocks;
    var n := |regions|;
    var cursor := Cursor(regions, n);
    TotalOfOutput(lines, regions, blocks, n, marker);
    TotalConcat(Output(lines, regions, blocks, n), lines[cursor..], marker);
    assert lines == lines[..cursor] + lines[cursor..];
    TotalConcat(lines[..cursor], lines[cursor..], marker);
  }

  lemma {:induction false} InBlocksZero(blocks: seq<Lines>, i: nat, marker: string)
    requires i <= |blocks| && marker != ""
    ensures InBlocks(blocks, i, marker) == 0 <==> forall k :: 0 <= k < i ==> Total(blocks[k], marker) == 0
  {
    if i > 0 {
      InBlocksZero(blocks, i - 1, marker);
    }
  }

  // ------------------------------------------------------------ fences in blocks

  predicate PlainNames(snippets: seq<Snippet>)
  {
    forall i :: 0 <= i < |snippets| ==> '\r' !in snippets[i].name
  }

  lemma MarkerHasNoCr(name: string, boundary: string)
    requires '\r' !in name && '\r' !in boundary
    ensures '\r' !in Marker(name, boundary)
  {
  }

  /** A line that is a marker, with or without CR, leaves the scanner outside a fence. */
  lemma MarkerKeepsOutside(line: string, marker: string)
    requires StripCr(line) == marker && marker != "" && marker[0] == '<' && '\r' !in marker
    ensures AdvanceLine(None, line).None?
  {
    SplitOfFree(marker, "", '\r');
    assert line == marker || line == marker + ['\r'] + "";
    assert Advance(None, marker).None?;
    assert AdvanceAll(None, [marker]) == AdvanceAll(Advance(None, marker), []);
    assert [marker, ""][1..] == [""];
    assert AdvanceAll(None, [""]) == AdvanceAll(Advance(None, ""), []);
  }

  predicate Neutral(block: Lines)
  {
    FenceAfter(None, block).None?
  }

  lemma StartKeepsOutside(lines: Lines, snippets: seq<Snippet>, regions: seq<Region>, i: nat)
    requires Valid(lines, snippets, regions) && PlainNames(snippets) && i < |regions| && i < |snippets|
    requires regions[i].start < |lines|
    ensures AdvanceLine(None, lines[regions[i].start]).None?
  {
    hide Validate, AdvanceLine, Locate, FenceAfter, Marker;
    ValidIff(lines, snippets, regions);
    assert ValidAt(lines, snippets[i], regions[i]);
    MarkersAreMarkers(snippets[i]);
    MarkerHasNoCr(snippets[i].name, "start");
    MarkerKeepsOutside(lines[regions[i].start], StartMarker(snippets[i]));
  }

  /** Copying up to and including a start marker, then a block. */
  lemma FenceThroughRegion(before: Lines, copied: Lines, start: string, block: Lines)
    requires AdvanceLine(None, start).None?
    requires FenceAfter(None, before + copied).None?
    ensures FenceAfter(None, before + (copied + [start]) + block) == FenceAfter(None, block)
  {
    hide AdvanceLine;
    assert before + (copied + [start]) + block == before + copied + [start] + block;
    FenceConcat(None, before + copied + [start], block);
    FenceConcat(None, before + copied, [start]);
    FenceOne(None, start);
  }

  /** In a valid guide the scanner is outside a fence wherever copying resumes and wherever it stops. */
  lemma OutsideInGuide(lines: Lines, snippets: seq<Snippet>, regions: seq<Region>, i: nat)
    requires Valid(lines, snippets, regions) && WithinGuide(lines, regions) && i < |regions|
    ensures Cursor(regions, i) <= regions[i].start <= |lines|
    ensures FenceAfter(None, lines[..Cursor(regions, i)]).None?
    ensures FenceAfter(None, lines[..regions[i].start]).None?
  {
    hide Valid, Validate, Locate, AdvanceLine;
    ValidIff(lines, snippets, regions);
    assert ValidAt(lines, snippets[i], regions[i]);
    if i > 0 {
      assert ValidAt(lines, snippets[i - 1], regions[i - 1]);
    } else {
      assert lines[..0] == [];
    }
  }

  lemma CopiesStayOutside(lines: Lines, snippets: seq<Snippet>, regions: seq<Region>, out: Lines, i: nat)
    requires Valid(lines, snippets, regions) && WithinGuide(lines, regions) && i < |regions|
    requires FenceAfter(None, out).None?
    ensures Cursor(regions, i) <= regions[i].start
    ensures FenceAfter(None, out + lines[Cursor(regions, i)..regions[i].start]).None?
  {
    hide *;
    OutsideInGuide(lines, snippets, regions, i);
    var cursor := Cursor(regions, i);
    var copied := lines[cursor..regions[i].start];
    assert lines[..regions[i].start] == lines[..cursor] + copied;
    FenceConcat(None, lines[..cursor], copied);
    FenceConcat(None, out, copied);
  }

  /** Before each region the output leaves the scanner outside a fence, if the blocks before it are neutral. */
  lemma {:induction false} OutsideBeforeRegion(
    lines: Lines, snippets: seq<Snippet>, regions: seq<Region>, blocks: seq<Lines>, i: nat)
    requires Valid(lines, snippets, regions) && PlainNames(snippets) && WithinGuide(lines, regions)
    requires |blocks| == |regions| == |snippets| && i <= |regions| && forall k :: 0 <= k < i ==> Neutral(blocks[k])
    ensures FenceAfter(None, Output(lines, regions, blocks, i)).None?
  {
    hide Valid, FenceAfter, Output, WithinGuide;
    if i == 0 {
      NothingChanges(lines, regions, blocks);
    } else {
      OutsideBeforeRegion(lines, snippets, regions, blocks, i - 1);
      CopiesStayOutside(lines, snippets, regions, Output(lines, regions, blocks, i - 1), i - 1);
      ThroughRegion(lines, snippets, regions, blocks, i - 1);
      assert Neutral(blocks[i - 1]);
    }
  }

  lemma NothingChanges(lines: Lines, regions: seq<Region>, blocks: seq<Lines>)
    requires WithinGuide(lines, regions) && |blocks| == |regions|
    ensures Output(lines, regions, blocks, 0) == [] && FenceAfter(None, []).None?
    ensures Cursor(regions, 0) == 0 && lines[..0] == []
  {
  }

  lemma ThroughRegion(lines: Lines, snippets: seq<Snippet>, regions: seq<Region>, blocks: seq<Lines>, i: nat)
    requires Valid(lines, snippets, regions) && PlainNames(snippets) && WithinGuide(lines, regions)
    requires |blocks| == |regions| && i < |regions| && |snippets| == |regions| && Cursor(regions, i) <= regions[i].start
    requires FenceAfter(None, Output(lines, regions, blocks, i) + lines[Cursor(regions, i)..regions[i].start]).None?
    ensures FenceAfter(None, Output(lines, regions, blocks, i + 1)) == FenceAfter(None, blocks[i])
  {
    hide Valid, AdvanceLine, FenceAfter, Output;
    var start := regions[i].start;
    OutputStep(lines, regions, blocks, i);
    StartKeepsOutside(lines, snippets, regions, i);
    assert lines[Cursor(regions, i)..start + 1] == lines[Cursor(regions, i)..start] + [lines[start]];
    FenceThroughRegion(Output(lines, regions, blocks, i), lines[Cursor(regions, i)..start], lines[start], blocks[i]);
  }

  // ----------------------------------------------------------------- revalidation

  /** The block contains neither marker of the snippet. */
  predicate Lacks(block: Lines, s: Snippet)
  {
    MarkersAreMarkers(s);
    Total(block, StartMarker(s)) == 0 && Total(block, EndMarker(s)) == 0
  }

  predicate NoMarkers(blocks: seq<Lines>, snippets: seq<Snippet>)
  {
    forall k, j :: 0 <= k < |blocks| && 0 <= j < |snippets| ==> Lacks(blocks[k], snippets[j])
  }

  predicate AllNeutral(blocks: seq<Lines>)
  {
    forall k :: 0 <= k < |blocks| ==> Neutral(blocks[k])
  }

  /** The counts of one snippet's markers after rendering. */
  lemma MarkerCounts(lines: Lines, snippets: seq<Snippet>, regions: seq<Region>, blocks: seq<Lines>, j: nat)
    requires Valid(lines, snippets, regions) && WithinGuide(lines, regions) && |blocks| == |regions|
    requires j < |snippets| && |snippets| == |regions|
    ensures StartMarker(snippets[j]) != "" && EndMarker(snippets[j]) != ""
    ensures var out := Rendered(lines, regions, blocks);
            Total(out, StartMarker(snippets[j])) == 1 && Total(out, EndMarker(snippets[j])) == 1 <==>
            forall k :: 0 <= k < |blocks| ==> Lacks(blocks[k], snippets[j])
  {
    hide Valid, Validate, Total, Rendered, StartMarker, EndMarker, Inner, FenceAfter, InBlocks;
    MarkersAreMarkers(snippets[j]);
    ValidIff(lines, snippets, regions);
    assert ValidAt(lines, snippets[j], regions[j]);
    forall k | 0 <= k < |regions|
      ensures Total(Inner(lines, regions[k]), StartMarker(snippets[j])) == 0
      ensures Total(Inner(lines, regions[k]), EndMarker(snippets[j])) == 0
    {
      InnerIsMarkerFree(lines, snippets, regions, k, j, false);
      InnerIsMarkerFree(lines, snippets, regions, k, j, true);
    }
    TotalOfRendered(lines, regions, blocks, StartMarker(snippets[j]));
    TotalOfRendered(lines, regions, blocks, EndMarker(snippets[j]));
    InBlocksZero(blocks, |blocks|, StartMarker(snippets[j]));
    InBlocksZero(blocks, |blocks|, EndMarker(snippets[j]));
  }

  lemma MarkersMoved(lines: Lines, snippets: seq<Snippet>, regions: seq<Region>, blocks: seq<Lines>, j: nat)
    requires Valid(lines, snippets, regions) && WithinGuide(lines, regions) && |blocks| == |regions|
    requires j < |snippets| && |snippets| == |regions|
    ensures StartMarker(snippets[j]) != "" && EndMarker(snippets[j]) != ""
    ensures var out, m := Rendered(lines, regions, blocks), Moved(lines, regions, blocks, j);
            && (Locate(out, StartMarker(snippets[j])).Some? <==> Total(out, StartMarker(snippets[j])) == 1)
            && (Locate(out, EndMarker(snippets[j])).Some? <==> Total(out, EndMarker(snippets[j])) == 1)
            && (Locate(out, StartMarker(snippets[j])).Some? ==> Locate(out, StartMarker(snippets[j])) == Some(m.start))
            && (Locate(out, EndMarker(snippets[j])).Some? ==> Locate(out, EndMarker(snippets[j])) == Some(m.end))
  {
    hide Valid, Validate, Locate, Total, Rendered, Output, StartMarker, EndMarker, FenceAfter;
    MarkersAreMarkers(snippets[j]);
    ValidIff(lines, snippets, regions);
    assert ValidAt(lines, snippets[j], regions[j]);
    MovedLines(lines, regions, blocks, j);
    var out, m := Rendered(lines, regions, blocks), Moved(lines, regions, blocks, j);
    LocateIff(out, m.start, StartMarker(snippets[j]));
    LocateIff(out, m.end, EndMarker(snippets[j]));
  }

  lemma {:induction false} FencesMoved(
    lines: Lines, snippets: seq<Snippet>, regions: seq<Region>, blocks: seq<Lines>, j: nat)
    requires Valid(lines, snippets, regions) && WithinGuide(lines, regions) && PlainNames(snippets)
    requires |blocks| == |regions| == |snippets| && j < |regions|
    ensures var out, m := Rendered(lines, regions, blocks), Moved(lines, regions, blocks, j);
            && m.start <= |out| && m.end <= |out|
            && (AllNeutral(blocks) ==> FenceAfter(None, out[..m.start]).None? && FenceAfter(None, out[..m.end]).None?)
            && (FenceAfter(None, out[..m.start]).None? && FenceAfter(None, out[..m.end]).None? ==> Neutral(blocks[j]))
  {
    hide Valid, FenceAfter, Rendered, Output, WithinGuide;
    MovedLines(lines, regions, blocks, j);
    var out, m := Rendered(lines, regions, blocks), Moved(lines, regions, blocks, j);
    CursorBounds(lines, regions, j);
    if AllNeutral(blocks) {
      OutsideBeforeRegion(lines, snippets, regions, blocks, j);
      CopiesStayOutside(lines, snippets, regions, Output(lines, regions, blocks, j), j);
    }
    if FenceAfter(None, out[..m.start]).None? {
      ThroughRegion(lines, snippets, regions, blocks, j);
    }
  }

  /**
   Revalidation.  The rendered guide validates exactly when no block contains a
   marker and every block leaves the fence scanner outside; and then it validates
   with the same regions, in the same order, at their new places.
   */
  lemma RevalidatesIff(lines: Lines, snippets: seq<Snippet>, regions: seq<Region>, blocks: seq<Lines>)
    requires Valid(lines, snippets, regions) && WithinGuide(lines, regions) && PlainNames(snippets)
    requires |blocks| == |regions| == |snippets|
    ensures var out := Rendered(lines, regions, blocks);
            && (Validate(out, snippets).Ok? <==> NoMarkers(blocks, snippets) && AllNeutral(blocks))
            && (Validate(out, snippets).Ok? ==> Valid(out, snippets, MovedAll(lines, regions, blocks)))
  {
    hide Validate, RegionOf, FenceAfter, Rendered, Output, Locate, Total, StartMarker, EndMarker, WithinGuide, Neutral;
    var out, moved := Rendered(lines, regions, blocks), MovedAll(lines, regions, blocks);
    MovedApart(lines, regions, blocks);
    AscendingWhenApart(out, moved);
    ApartOfWithin(out, moved);
    forall j | 0 <= j < |snippets|
      ensures ValidAt(out, snippets[j], moved[j]) ==> Neutral(blocks[j])
      ensures NoMarkers(blocks, snippets) && AllNeutral(blocks) ==> ValidAt(out, snippets[j], moved[j])
      ensures RegionOf(out, snippets[j]).Some? ==> ValidAt(out, snippets[j], moved[j])
    {
      OneRegion(lines, snippets, regions, blocks, j);
    }
    ValidIff(out, snippets, moved);
    if Validate(out, snippets).Ok? {
      ValidityOfResult(out, snippets);
      forall j | 0 <= j < |snippets| ensures ValidAt(out, snippets[j], moved[j]) {
        assert RegionOf(out, snippets[j]).Some?;
      }
      NoMarkersFromCounts(lines, snippets, regions, blocks);
    }
  }

  lemma ApartOfWithin(lines: Lines, regions: seq<Region>)
    requires WithinGuide(lines, regions)
    ensures Apart(regions)
  {
  }

  lemma ValidityOfResult(lines: Lines, snippets: seq<Snippet>)
    requires Validate(lines, snippets).Ok?
    ensures AllValid(lines, snippets)
  {
  }

  lemma OneRegion(lines: Lines, snippets: seq<Snippet>, regions: seq<Region>, blocks: seq<Lines>, j: nat)
    requires Valid(lines, snippets, regions) && WithinGuide(lines, regions) && PlainNames(snippets)
    requires |blocks| == |regions| == |snippets| && j < |regions|
    ensures var out, m := Rendered(lines, regions, blocks), Moved(lines, regions, blocks, j);
            && (ValidAt(out, snippets[j], m) ==> Neutral(blocks[j]))
            && (NoMarkers(blocks, snippets) && AllNeutral(blocks) ==> ValidAt(out, snippets[j], m))
            && (RegionOf(out, snippets[j]).Some? ==> ValidAt(out, snippets[j], m))
  {
    hide Valid, FenceAfter, Rendered, Output, Locate, Total, StartMarker, EndMarker, WithinGuide, Neutral, AllNeutral;
    MarkersMoved(lines, snippets, regions, blocks, j);
    MarkerCounts(lines, snippets, regions, blocks, j);
    FencesMoved(lines, snippets, regions, blocks, j);
    MovedLines(lines, regions, blocks, j);
  }

  lemma NoMarkersFromCounts(lines: Lines, snippets: seq<Snippet>, regions: seq<Region>, blocks: seq<Lines>)
    requires Valid(lines, snippets, regions) && WithinGuide(lines, regions) && |blocks| == |regions| == |snippets|
    requires AllValid(Rendered(lines, regions, blocks), snippets)
    ensures NoMarkers(blocks, snippets)
  {
    hide Valid, FenceAfter, Rendered, Output, Total, StartMarker, EndMarker, WithinGuide;
    forall k, j | 0 <= k < |blocks| && 0 <= j < |snippets|
      ensures Lacks(blocks[k], snippets[j])
    {
      MarkerCounts(lines, snippets, regions, blocks, j);
      MarkersAreMarkers(snippets[j]);
      assert RegionOf(Rendered(lines, regions, blocks), snippets[j]).Some?;
    }
  }
}
