/** One synchronisation followed by another: exactly when the second finds nothing to do. */
module SnippetsSync {
  import opened Bytes
  import opened Text
  import opened Snippets
  import opened SnippetsProperties

  predicate NoDrift(lines: Lines, regions: seq<Region>, blocks: seq<Lines>)
    requires WithinGuide(lines, regions) && |blocks| == |regions|
  {
    forall i :: 0 <= i < |regions| ==> !Drifted(lines, regions[i], blocks[i])
  }

  lemma ValidIsWithin(lines: Lines, snippets: seq<Snippet>, regions: seq<Region>)
    requires Valid(lines, snippets, regions)
    ensures WithinGuide(lines, regions) && |regions| == |snippets|
  {
    hide Valid, Validate, Locate, FenceAfter;
    ValidIff(lines, snippets, regions);
    forall i | 0 <= i < |regions| ensures regions[i].start < regions[i].end < |lines| {
      assert ValidAt(lines, snippets[i], regions[i]);
    }
  }

  /** What a check reports nothing about: one newline style, valid regions, no drift. */
  predicate Settled(lines: Lines, snippets: seq<Snippet>, blocks: seq<Lines>)
    requires |blocks| == |snippets|
  {
    && GuideCrlf(lines).Ok?
    && Validate(lines, snippets).Ok?
    && var regions := Validate(lines, snippets).value;
       ValidIsWithin(lines, snippets, regions);
       NoDrift(lines, regions, blocks)
  }

  function StyledAll(blocks: seq<Lines>, crlf: bool): (r: seq<Lines>)
    ensures |r| == |blocks|
  {
    seq(|blocks|, i requires 0 <= i < |blocks| => StyledLines(blocks[i], crlf))
  }

  /** synchronize without --check: an error, the guide unchanged, or the guide with every block rewritten. */
  function Synchronize(lines: Lines, snippets: seq<Snippet>, blocks: seq<Lines>): Result<Lines, SyncError>
    requires |blocks| == |snippets|
  {
    match GuideCrlf(lines)
    case Err(e) => Err(e)
    case Ok(crlf) =>
      match Validate(lines, snippets)
      case Err(e) => Err(e)
      case Ok(regions) =>
        ValidIsWithin(lines, snippets, regions);
        if NoDrift(lines, regions, blocks) then Ok(lines) else Ok(Rendered(lines, regions, StyledAll(blocks, crlf)))
  }

  // ----------------------------------------------------------------- newline style

  predicate Uniform(lines: Lines, crlf: bool)
  {
    forall i :: 0 <= i < |lines| ==> EndsWithCr(lines[i]) == crlf
  }

  lemma UniformConcat(xs: Lines, ys: Lines, crlf: bool)
    ensures Uniform(xs + ys, crlf) <==> Uniform(xs, crlf) && Uniform(ys, crlf)
  {
    if Uniform(xs + ys, crlf) {
      assert forall i :: 0 <= i < |xs| ==> xs[i] == (xs + ys)[i];
      assert forall i :: 0 <= i < |ys| ==> ys[i] == (xs + ys)[|xs| + i];
    }
  }

  lemma UniformSlice(lines: Lines, from: nat, to: nat, crlf: bool)
    requires from <= to <= |lines| && Uniform(lines, crlf)
    ensures Uniform(lines[from..to], crlf)
  {
  }

  /** Every line before the last agrees with one of them, or the styles are mixed. */
  lemma GuideCrlfIff(lines: Lines, k: nat, crlf: bool)
    requires k < |lines| - 1 && EndsWithCr(lines[k]) == crlf
    ensures GuideCrlf(lines).Ok? <==> Uniform(lines[..|lines| - 1], crlf)
    ensures GuideCrlf(lines).Ok? ==> GuideCrlf(lines) == Ok(crlf)
  {
    var before := lines[..|lines| - 1];
    assert forall i :: 0 <= i < |before| ==> before[i] == lines[i];
  }

  lemma UniformStart(lines: Lines, regions: seq<Region>, blocks: seq<Lines>, crlf: bool)
    requires WithinGuide(lines, regions) && |blocks| == |regions|
    ensures Uniform(Output(lines, regions, blocks, 0), crlf)
  {
  }

  lemma {:induction false} UniformOutput(lines: Lines, regions: seq<Region>, blocks: seq<Lines>, i: nat, crlf: bool)
    requires WithinGuide(lines, regions) && |blocks| == |regions| && i <= |regions|
    requires |lines| > 0 && Uniform(lines[..|lines| - 1], crlf)
    ensures Uniform(Output(lines, regions, blocks, i), crlf) <==> forall k :: 0 <= k < i ==> Uniform(blocks[k], crlf)
  {
    hide Uniform, Output, Cursor;
    if i == 0 {
      UniformStart(lines, regions, blocks, crlf);
    } else {
      CursorBounds(lines, regions, i - 1);
      UniformOutput(lines, regions, blocks, i - 1, crlf);
      OutputStep(lines, regions, blocks, i - 1);
      var before, copied :=
        Output(lines, regions, blocks, i - 1), lines[Cursor(regions, i - 1)..regions[i - 1].start + 1];
      assert copied == lines[..|lines| - 1][Cursor(regions, i - 1)..regions[i - 1].start + 1];
      UniformSlice(lines[..|lines| - 1], Cursor(regions, i - 1), regions[i - 1].start + 1, crlf);
      UniformConcat(before + copied, blocks[i - 1], crlf);
      UniformConcat(before, copied, crlf);
    }
  }

  /** The rendered guide has one newline style exactly when the blocks have the guide's. */
  lemma StyleOfRendered(lines: Lines, regions: seq<Region>, blocks: seq<Lines>, crlf: bool)
    requires WithinGuide(lines, regions) && |blocks| == |regions| > 0 && GuideCrlf(lines) == Ok(crlf)
    ensures var out := Rendered(lines, regions, blocks);
            && (GuideCrlf(out).Ok? <==> forall k :: 0 <= k < |blocks| ==> Uniform(blocks[k], crlf))
            && (GuideCrlf(out).Ok? ==> GuideCrlf(out) == Ok(crlf))
  {
    var n, last := |regions|, |lines| - 1;
    var out, cursor := Rendered(lines, regions, blocks), Cursor(regions, n);
    GuideUniform(lines, crlf, regions[0].start);
    hide Uniform, GuideCrlf, Output, EndsWithCr;
    CursorBounds(lines, regions, n);
    UniformOutput(lines, regions, blocks, n, crlf);
    var copied := lines[cursor..last];
    assert copied == lines[..last][cursor..last];
    UniformSlice(lines[..last], cursor, last, crlf);
    assert out[..|out| - 1] == Output(lines, regions, blocks, n) + copied;
    UniformConcat(Output(lines, regions, blocks, n), copied, crlf);
    MovedLines(lines, regions, blocks, 0);
    GuideCrlfIff(out, Moved(lines, regions, blocks, 0).start, crlf);
  }

  lemma GuideUniform(lines: Lines, crlf: bool, k: nat)
    requires GuideCrlf(lines) == Ok(crlf) && k < |lines| - 1
    ensures Uniform(lines[..|lines| - 1], crlf) && EndsWithCr(lines[k]) == crlf
  {
    var before := lines[..|lines| - 1];
    assert forall i :: 0 <= i < |before| ==> before[i] == lines[i];
    GuideCrlfIff(lines, k, EndsWithCr(lines[k]));
  }

  // --------------------------------------------------------------- styled blocks

  /** Block lines never end in CR of their own. */
  predicate CrFreeEnds(blocks: seq<Lines>)
  {
    forall k, i :: 0 <= k < |blocks| && 0 <= i < |blocks[k]| ==> !EndsWithCr(blocks[k][i])
  }

  lemma StyleOfBlocks(blocks: seq<Lines>, crlf: bool)
    ensures (forall k :: 0 <= k < |blocks| ==> Uniform(StyledAll(blocks, crlf)[k], crlf)) <==>
            crlf || CrFreeEnds(blocks)
  {
    var styled := StyledAll(blocks, crlf);
    if crlf {
      forall k, i | 0 <= k < |blocks| && 0 <= i < |styled[k]| ensures EndsWithCr(styled[k][i]) {
        assert styled[k][i] == blocks[k][i] + "\r";
      }
    } else {
      assert forall k :: 0 <= k < |blocks| ==> styled[k] == blocks[k];
    }
  }

  lemma StyledHasNoDrift(lines: Lines, r: Region, block: Lines, crlf: bool)
    requires r.start < r.end <= |lines| && Inner(lines, r) == StyledLines(block, crlf)
    requires crlf || forall i :: 0 <= i < |block| ==> !EndsWithCr(block[i])
    ensures !Drifted(lines, r, block)
  {
    forall i | 0 <= i < |block| ensures StripCr(StyledLines(block, crlf)[i]) == block[i] {
      if crlf { assert (block[i] + "\r")[..|block[i]|] == block[i]; }
    }
  }

  lemma AdvanceWithCr(active: Option<Fence>, line: string)
    ensures AdvanceLine(active, line + "\r") == AdvanceLine(active, line)
  {
    SplitConcat(line, "", '\r');
    assert line + ['\r'] + "" == line + "\r";
    AdvanceNothing(active, Split(line, '\r'));
  }

  lemma {:induction false} AdvanceNothing(active: Option<Fence>, contents: seq<string>)
    ensures AdvanceAll(active, contents + [""]) == AdvanceAll(active, contents)
    decreases contents
  {
    if contents == [] {
      assert contents + [""] == [""];
      assert AdvanceAll(active, [""]) == AdvanceAll(Advance(active, ""), []);
    } else {
      assert (contents + [""])[1..] == contents[1..] + [""];
      AdvanceNothing(Advance(active, contents[0]), contents[1..]);
    }
  }

  lemma {:induction false} StyledFence(active: Option<Fence>, block: Lines, crlf: bool)
    ensures FenceAfter(active, StyledLines(block, crlf)) == FenceAfter(active, block)
    decreases block
  {
    var styled := StyledLines(block, crlf);
    if block != [] {
      hide AdvanceLine;
      assert styled[1..] == StyledLines(block[1..], crlf);
      AdvanceWithCr(active, block[0]);
      StyledFence(AdvanceLine(active, block[0]), block[1..], crlf);
    }
  }

  lemma {:induction false} CountWithCr(s: string, part: string)
    requires part != "" && '\r' !in part
    ensures Count(s + "\r", part) == Count(s, part)
  {
    var longer := s + "\r";
    if |longer| >= |part| {
      if part <= longer {
        assert longer[|s|] == '\r';
        assert forall i :: 0 <= i < |part| ==> longer[i] == part[i] != '\r';
        assert |part| <= |s| && part <= s;
        assert longer[|part|..] == s[|part|..] + "\r";
        CountWithCr(s[|part|..], part);
      } else if s != "" {
        assert longer[1..] == s[1..] + "\r";
        assert |s| >= |part| ==> !(part <= s);
        CountWithCr(s[1..], part);
        if |s| < |part| { CountOfShort(s[1..], part); }
      }
    }
  }

  lemma CountOfShort(s: string, part: string)
    requires part != "" && |s| < |part|
    ensures Count(s, part) == 0
  {
  }

  lemma {:induction false} StyledTotal(block: Lines, crlf: bool, part: string)
    requires part != "" && '\r' !in part
    ensures Total(StyledLines(block, crlf), part) == Total(block, part)
  {
    var styled := StyledLines(block, crlf);
    if block != [] {
      hide Count;
      assert styled[1..] == StyledLines(block[1..], crlf);
      CountWithCr(block[0], part);
      StyledTotal(block[1..], crlf, part);
    }
  }

  lemma StyledConditions(blocks: seq<Lines>, snippets: seq<Snippet>, crlf: bool)
    requires PlainNames(snippets)
    ensures NoMarkers(StyledAll(blocks, crlf), snippets) <==> NoMarkers(blocks, snippets)
    ensures AllNeutral(StyledAll(blocks, crlf)) <==> AllNeutral(blocks)
  {
    hide FenceAfter, StyledLines, NoMarkers;
    var styled := StyledAll(blocks, crlf);
    assert forall k :: 0 <= k < |blocks| ==> styled[k] == StyledLines(blocks[k], crlf);
    if NoMarkers(blocks, snippets) {
      SameMarkers(blocks, styled, snippets, crlf);
    }
    if NoMarkers(styled, snippets) {
      SameMarkers(styled, blocks, snippets, crlf);
    }
    forall k | 0 <= k < |blocks| ensures Neutral(styled[k]) <==> Neutral(blocks[k]) {
      StyledFence(None, blocks[k], crlf);
    }
  }

  lemma SameMarkers(xs: seq<Lines>, ys: seq<Lines>, snippets: seq<Snippet>, crlf: bool)
    requires PlainNames(snippets) && |xs| == |ys| && NoMarkers(xs, snippets)
    requires forall k :: 0 <= k < |xs| ==> ys[k] == StyledLines(xs[k], crlf) || xs[k] == StyledLines(ys[k], crlf)
    ensures NoMarkers(ys, snippets)
  {
    hide Total, StartMarker, EndMarker, StyledLines;
    forall k, j | 0 <= k < |ys| && 0 <= j < |snippets| ensures Lacks(ys[k], snippets[j]) {
      StyledTotals(xs[k], snippets[j], crlf);
      StyledTotals(ys[k], snippets[j], crlf);
      assert Lacks(xs[k], snippets[j]);
    }
  }

  lemma StyledTotals(block: Lines, s: Snippet, crlf: bool)
    requires '\r' !in s.name
    ensures StartMarker(s) != "" && EndMarker(s) != ""
    ensures Total(StyledLines(block, crlf), StartMarker(s)) == Total(block, StartMarker(s))
    ensures Total(StyledLines(block, crlf), EndMarker(s)) == Total(block, EndMarker(s))
  {
    hide Total, StyledLines;
    MarkersAreMarkers(s);
    MarkerHasNoCr(s.name, "start");
    MarkerHasNoCr(s.name, "end");
    StyledTotal(block, crlf, StartMarker(s));
    StyledTotal(block, crlf, EndMarker(s));
  }

  // -------------------------------------------------------------------- convergence

  /** What the blocks must satisfy for the guide to settle. */
  predicate Settling(blocks: seq<Lines>, snippets: seq<Snippet>, crlf: bool)
  {
    NoMarkers(blocks, snippets) && AllNeutral(blocks) && (crlf || CrFreeEnds(blocks))
  }

  /**
   Convergence.  After rewriting a valid guide, the next pass finds one newline
   style, the same valid regions and no drift, exactly when no block contains a
   marker, every block closes the fence it opens, and, in an LF guide, no block
   line ends in CR.
   */
  lemma ConvergesIff(lines: Lines, snippets: seq<Snippet>, blocks: seq<Lines>, crlf: bool, regions: seq<Region>)
    requires |blocks| == |snippets| > 0 && PlainNames(snippets)
    requires GuideCrlf(lines) == Ok(crlf) && Valid(lines, snippets, regions) && WithinGuide(lines, regions) &&
             |regions| == |snippets|
    ensures Settled(Rendered(lines, regions, StyledAll(blocks, crlf)), snippets, blocks) <==>
            Settling(blocks, snippets, crlf)
  {
    hide Valid, GuideCrlf, Rendered, WithinGuide, Drifted, NoMarkers, AllNeutral, CrFreeEnds, StyledLines;
    var styled := StyledAll(blocks, crlf);
    var out, moved := Rendered(lines, regions, styled), MovedAll(lines, regions, styled);
    RevalidatesIff(lines, snippets, regions, styled);
    StyledConditions(blocks, snippets, crlf);
    StyleOfRendered(lines, regions, styled, crlf);
    StyleOfBlocks(blocks, crlf);
    MovedApart(lines, regions, styled);
    if Settling(blocks, snippets, crlf) {
      ValidMeans(out, snippets, moved);
      forall i | 0 <= i < |moved| ensures !Drifted(out, moved[i], blocks[i]) {
        MovedLines(lines, regions, styled, i);
        MovedHasNoDrift(out, moved[i], blocks, i, crlf);
      }
    }
  }

  /** A settled guide is left alone by the next pass. */
  lemma SettledStays(lines: Lines, snippets: seq<Snippet>, blocks: seq<Lines>)
    requires |blocks| == |snippets| && Settled(lines, snippets, blocks)
    ensures Synchronize(lines, snippets, blocks) == Ok(lines)
  {
    hide GuideCrlf, Validate, Rendered;
  }

  lemma ValidatedMeans(lines: Lines, snippets: seq<Snippet>, regions: seq<Region>)
    requires Validate(lines, snippets) == Ok(regions)
    ensures Valid(lines, snippets, regions) && WithinGuide(lines, regions) && |regions| == |snippets|
  {
    hide RegionOf;
    ValidIff(lines, snippets, regions);
    ValidIsWithin(lines, snippets, regions);
  }

  /**
   The second pass.  What a pass leaves behind is settled exactly when the guide was
   settled already or its blocks settle; a settled guide stays as it is.
   */
  lemma SecondPass(lines: Lines, snippets: seq<Snippet>, blocks: seq<Lines>)
    requires |blocks| == |snippets| > 0 && PlainNames(snippets) && Synchronize(lines, snippets, blocks).Ok?
    ensures GuideCrlf(lines).Ok?
    ensures var out := Synchronize(lines, snippets, blocks).value;
            && (Settled(out, snippets, blocks) <==>
                Settled(lines, snippets, blocks) || Settling(blocks, snippets, GuideCrlf(lines).value))
            && (Settled(out, snippets, blocks) ==> Synchronize(out, snippets, blocks) == Ok(out))
  {
    hide GuideCrlf, Validate, Rendered, Settling, Valid, WithinGuide, NoDrift, StyledAll;
    var out, regions := Synchronize(lines, snippets, blocks).value, Validate(lines, snippets).value;
    ValidatedMeans(lines, snippets, regions);
    if !NoDrift(lines, regions, blocks) {
      ConvergesIff(lines, snippets, blocks, GuideCrlf(lines).value, regions);
    }
    if Settled(out, snippets, blocks) {
      SettledStays(out, snippets, blocks);
    }
  }

  lemma ValidMeans(lines: Lines, snippets: seq<Snippet>, regions: seq<Region>)
    requires Valid(lines, snippets, regions)
    ensures Validate(lines, snippets) == Ok(regions)
  {
  }

  lemma MovedHasNoDrift(out: Lines, m: Region, blocks: seq<Lines>, i: nat, crlf: bool)
    requires i < |blocks| && m.start < m.end <= |out| && out[m.start + 1..m.end] == StyledLines(blocks[i], crlf)
    requires crlf || CrFreeEnds(blocks)
    ensures !Drifted(out, m, blocks[i])
  {
    StyledHasNoDrift(out, m, blocks[i], crlf);
  }

  // ------------------------------------------------------------- outside the regions

  lemma CopiedAgain(lines: Lines, regions: seq<Region>, blocks: seq<Lines>, i: nat)
    requires WithinGuide(lines, regions) && |blocks| == |regions| && i < |regions|
    requires WithinGuide(Rendered(lines, regions, blocks), MovedAll(lines, regions, blocks))
    ensures var out, moved := Rendered(lines, regions, blocks), MovedAll(lines, regions, blocks);
            && Cursor(moved, i) <= moved[i].start && Cursor(regions, i) <= regions[i].start
            && out[Cursor(moved, i)..moved[i].start + 1] == lines[Cursor(regions, i)..regions[i].start + 1]
  {
    hide Output, Rendered;
    var out, moved := Rendered(lines, regions, blocks), MovedAll(lines, regions, blocks);
    CursorBounds(lines, regions, i);
    CursorBounds(out, moved, i);
    MovedCursor(lines, regions, blocks, i);
    OutputIsPrefix(lines, regions, blocks, i);
    var before, copied := Output(lines, regions, blocks, i), lines[Cursor(regions, i)..regions[i].start + 1];
    assert out[|before|..|before| + |copied|] == (before + copied)[|before|..] == copied;
  }

  lemma MovedCursor(lines: Lines, regions: seq<Region>, blocks: seq<Lines>, i: nat)
    requires WithinGuide(lines, regions) && |blocks| == |regions| && i <= |regions|
    ensures Cursor(MovedAll(lines, regions, blocks), i) == |Output(lines, regions, blocks, i)|
  {
    hide Output, FenceAfter;
    NothingChanges(lines, regions, blocks);
  }

  lemma {:induction false} OutputAgain(
    lines: Lines, regions: seq<Region>, blocks: seq<Lines>, others: seq<Lines>, i: nat)
    requires WithinGuide(lines, regions) && |blocks| == |others| == |regions| && i <= |regions|
    requires WithinGuide(Rendered(lines, regions, blocks), MovedAll(lines, regions, blocks))
    ensures Output(Rendered(lines, regions, blocks), MovedAll(lines, regions, blocks), others, i) ==
            Output(lines, regions, others, i)
  {
    hide Output, Rendered, WithinGuide, FenceAfter, Cursor, MovedAll;
    var out, moved := Rendered(lines, regions, blocks), MovedAll(lines, regions, blocks);
    if i == 0 {
      NothingChanges(lines, regions, others);
      NothingChanges(out, moved, others);
    } else {
      OutputAgain(lines, regions, blocks, others, i - 1);
      CopiedAgain(lines, regions, blocks, i - 1);
      OutputStep(lines, regions, others, i - 1);
      OutputStep(out, moved, others, i - 1);
    }
  }

  /**
   Rendering touches nothing outside the regions: putting any blocks into the
   rendered guide gives what putting them into the original would have given.
   */
  lemma OutsideUnchanged(lines: Lines, regions: seq<Region>, blocks: seq<Lines>, others: seq<Lines>)
    requires WithinGuide(lines, regions) && |blocks| == |others| == |regions|
    ensures WithinGuide(Rendered(lines, regions, blocks), MovedAll(lines, regions, blocks))
    ensures Rendered(Rendered(lines, regions, blocks), MovedAll(lines, regions, blocks), others) ==
            Rendered(lines, regions, others)
  {
    var n := |regions|;
    MovedApart(lines, regions, blocks);
    OutputAgain(lines, regions, blocks, others, n);
    MovedCursor(lines, regions, blocks, n);
    var out := Rendered(lines, regions, blocks);
    CursorBounds(lines, regions, n);
    assert out[|Output(lines, regions, blocks, n)|..] == lines[Cursor(regions, n)..];
  }

  // ------------------------------------------------------------------ good sources

  const OPENED := Some(Fence('`', 3))

  /** Source lines of a normalised source that is empty or ends in a newline. */
  function SourceLines(normalized: string): Lines
  {
    var lines := Split(normalized, '\n');
    lines[..|lines| - 1]
  }

  predicate GoodLanguage(language: string)
  {
    forall i :: 0 <= i < |language| ==>
      language[i] != '`' && language[i] != '<' && language[i] != '\r' && language[i] != '\n'
  }

  /** Newline-terminated, free of CR, and no line closes a three-backtick fence. */
  predicate GoodSource(source: string)
  {
    var normalized := CrlfToLf(source);
    && (normalized == "" || normalized[|normalized| - 1] == '\n')
    && '\r' !in normalized
    && forall i :: 0 <= i < |SourceLines(normalized)| ==> Advance(OPENED, SourceLines(normalized)[i]) == OPENED
  }

  /** The lines of a source's text between its fences. */
  lemma SourceThenFence(normalized: string)
    requires normalized == "" || normalized[|normalized| - 1] == '\n'
    ensures Split(normalized + "```\n", '\n') == SourceLines(normalized) + ["```", ""]
  {
    hide Split;
    var fence := "```\n";
    FenceSplit();
    if normalized == "" {
      assert normalized + fence == fence;
      EmptySplit();
      assert [] + ["```", ""] == ["```", ""];
    } else {
      var body := normalized[..|normalized| - 1];
      assert normalized == body + ['\n'] + "";
      SplitConcat(body, "", '\n');
      EmptySplit();
      assert normalized + fence == body + ['\n'] + fence;
      SplitConcat(body, fence, '\n');
      assert SourceLines(normalized) == Split(body, '\n');
    }
  }

  lemma EmptySplit()
    ensures Split("", '\n') == [""]
  {
  }

  lemma FenceSplit()
    ensures Split("```\n", '\n') == ["```", ""]
  {
    hide Split;
    EmptySplit();
    SplitOfFree("```", "", '\n');
    assert "```" + ['\n'] + "" == "```\n";
  }

  lemma BlockOfGoodSource(s: Snippet, source: string)
    requires GoodSource(source) && GoodLanguage(s.language)
    ensures BlockLines(s, source) == ["```" + s.language] + SourceLines(CrlfToLf(source)) + ["```"]
  {
    hide Advance, CrlfToLf, Split, SourceLines;
    var normalized := CrlfToLf(source);
    var open := "```" + s.language;
    assert '\n' !in open;
    SplitOfFree(open, normalized + "```\n", '\n');
    assert open + "\n" + normalized + "```\n" == open + ['\n'] + (normalized + "```\n");
    SourceThenFence(normalized);
  }

  lemma {:induction false} StaysOpen(lines: Lines)
    requires Free(lines, '\r') && forall i :: 0 <= i < |lines| ==> Advance(OPENED, lines[i]) == OPENED
    ensures FenceAfter(OPENED, lines) == OPENED
  {
    if lines != [] {
      hide Advance;
      SplitOfFree(lines[0], "", '\r');
      AdvanceSingle(OPENED, lines[0]);
      StaysOpen(lines[1..]);
    }
  }

  lemma AdvanceSingle(active: Option<Fence>, content: string)
    ensures AdvanceAll(active, [content]) == Advance(active, content)
  {
    assert AdvanceAll(active, [content]) == AdvanceAll(Advance(active, content), []);
  }

  lemma FenceLines(language: string)
    requires GoodLanguage(language)
    ensures AdvanceLine(None, "```" + language) == OPENED && AdvanceLine(OPENED, "```") == None
  {
    var open := "```" + language;
    SplitOfFree(open, "", '\r');
    SplitOfFree("```", "", '\r');
    AdvanceSingle(None, open);
    AdvanceSingle(OPENED, "```");
    assert open[1..] == "``" + language && open[2..] == "`" + language && open[3..] == language;
    assert RunLength(language, '`') == 0;
    assert RunLength(open[2..], '`') == 1 && RunLength(open[1..], '`') == 2 && RunLength(open, '`') == 3;
    assert "```"[1..] == "``" && "```"[2..] == "`" && "```"[3..] == "";
    assert RunLength("`", '`') == 1 && RunLength("``", '`') == 2 && RunLength("```", '`') == 3;
  }

  /** The block of a good source opens one fence and closes it. */
  lemma GoodBlockIsNeutral(s: Snippet, source: string)
    requires GoodSource(source) && GoodLanguage(s.language)
    ensures Neutral(BlockLines(s, source))
    ensures forall i :: 0 <= i < |BlockLines(s, source)| ==> !EndsWithCr(BlockLines(s, source)[i])
  {
    var body := SourceLines(CrlfToLf(source));
    BlockOfGoodSource(s, source);
    SourceIsFree(CrlfToLf(source));
    hide BlockLines, CrlfToLf, AdvanceLine, Advance, SourceLines;
    StaysOpen(body);
    FenceLines(s.language);
    FenceConcat(None, ["```" + s.language] + body, ["```"]);
    FenceConcat(None, ["```" + s.language], body);
    FenceOne(None, "```" + s.language);
    FenceOne(OPENED, "```");
  }

  lemma SourceIsFree(normalized: string)
    requires '\r' !in normalized
    ensures Free(SourceLines(normalized), '\r')
  {
    var lines := Split(normalized, '\n');
    JoinOfSplit(normalized, '\n');
    JoinHas(lines, '\n', '\r');
  }

  /** Newline-terminated, CR-free sources without markers and closing fences settle every valid guide. */
  lemma GoodSourcesConverge(
    lines: Lines, snippets: seq<Snippet>, sources: seq<string>, blocks: seq<Lines>, crlf: bool, regions: seq<Region>)
    requires |sources| == |blocks| == |snippets| > 0 && PlainNames(snippets)
    requires GuideCrlf(lines) == Ok(crlf) && Valid(lines, snippets, regions) && WithinGuide(lines, regions) &&
             |regions| == |snippets|
    requires forall i :: 0 <= i < |snippets| ==>
      GoodSource(sources[i]) && GoodLanguage(snippets[i].language) && blocks[i] == BlockLines(snippets[i], sources[i])
    requires NoMarkers(blocks, snippets)
    ensures Settled(Rendered(lines, regions, StyledAll(blocks, crlf)), snippets, blocks)
  {
    hide Valid, GuideCrlf, Rendered, WithinGuide, NoMarkers, GoodSource, GoodLanguage, BlockLines, Neutral, Settled;
    forall i | 0 <= i < |blocks|
      ensures Neutral(blocks[i]) && forall k :: 0 <= k < |blocks[i]| ==> !EndsWithCr(blocks[i][k])
    {
      GoodBlockIsNeutral(snippets[i], sources[i]);
    }
    ConvergesIff(lines, snippets, blocks, crlf, regions);
  }
}
