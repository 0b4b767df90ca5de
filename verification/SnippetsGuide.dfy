/** Synchronising the one guide that the script has: its six snippets, and what a pass over it leaves behind. */
module SnippetsGuide {
  import opened Bytes
  import opened Text
  import opened Snippets
  import opened SnippetsProperties
  import opened SnippetsSync
  import opened SnippetsValidation

  /** The guide's six snippets. */
  const CATALOGUE: seq<Snippet> := [
    Snippet("go-worker", "go"), Snippet("go-client", "go"),
    Snippet("python-worker", "python"), Snippet("python-client", "python"),
    Snippet("node-worker", "javascript"), Snippet("node-client", "javascript")]

  lemma CatalogueIsDistinct()
    ensures DistinctNames(CATALOGUE)
  {
    var c := CATALOGUE;
    assert c[0].name[0] == 'g' && c[1].name[0] == 'g' && c[0].name[3] == 'w' && c[1].name[3] == 'c';
    assert c[2].name[0] == 'p' && c[3].name[0] == 'p' && c[2].name[7] == 'w' && c[3].name[7] == 'c';
    assert c[4].name[0] == 'n' && c[5].name[0] == 'n' && c[4].name[5] == 'w' && c[5].name[5] == 'c';
  }

  lemma CatalogueIsPlain()
    ensures PlainNames(CATALOGUE) && forall i :: 0 <= i < |CATALOGUE| ==> GoodLanguage(CATALOGUE[i].language)
  {
    hide GoodLanguage;
    LanguagesAreGood();
    NamesArePlain();
  }

  lemma LanguagesAreGood()
    ensures GoodLanguage("go") && GoodLanguage("python") && GoodLanguage("javascript")
  {
  }

  lemma NamesArePlain()
    ensures '\r' !in "go-worker" && '\r' !in "go-client" && '\r' !in "python-worker" && '\r' !in "python-client"
    ensures '\r' !in "node-worker" && '\r' !in "node-client"
  {
  }

  function BlocksOf(snippets: seq<Snippet>, sources: seq<string>): (blocks: seq<Lines>)
    requires |sources| == |snippets|
    ensures |blocks| == |snippets| && forall i :: 0 <= i < |blocks| ==> blocks[i] == BlockLines(snippets[i], sources[i])
  {
    seq(|snippets|, i requires 0 <= i < |snippets| => BlockLines(snippets[i], sources[i]))
  }

  /** synchronize without --check: newline style, regions, blocks, drift, and a rewrite only where there is drift. */
  method SynchronizeGuide(lines: Lines, sources: seq<string>) returns (r: Result<Lines, SyncError>)
    requires |sources| == |CATALOGUE|
    ensures r == Synchronize(lines, CATALOGUE, BlocksOf(CATALOGUE, sources))
  {
    hide GuideCrlf, Validate, BlockLines, Rendered, Drifted, StyledLines, DistinctNames;
    var style := GuideCrlf(lines);
    if style.Err? {
      return Err(style.error);
    }
    CatalogueIsDistinct();
    var regions := ValidateRegions(lines, CATALOGUE);
    if regions.Err? {
      return Err(regions.error);
    }
    ValidIsWithin(lines, CATALOGUE, regions.value);
    var blocks: seq<Lines> := [];
    for i := 0 to |CATALOGUE|
      invariant |blocks| == i && forall k :: 0 <= k < i ==> blocks[k] == BlockLines(CATALOGUE[k], sources[k])
    {
      blocks := blocks + [BlockLines(CATALOGUE[i], sources[i])];
    }
    assert blocks == BlocksOf(CATALOGUE, sources);
    var drifted: seq<string> := [];
    for i := 0 to |CATALOGUE|
      invariant drifted == [] <==> forall k :: 0 <= k < i ==> !Drifted(lines, regions.value[k], blocks[k])
    {
      if Drifted(lines, regions.value[i], blocks[i]) {
        drifted := drifted + [CATALOGUE[i].name];
      }
    }
    if drifted == [] {
      return Ok(lines);
    }
    var output := RenderGuide(lines, regions.value, StyledAll(blocks, style.value));
    return Ok(output);
  }

  // ---------------------------------------------------------------- good sources

  lemma {:induction false} NoCount(s: string, part: string)
    requires part != "" && part[0] !in s
    ensures Count(s, part) == 0
  {
    if s != "" {
      assert s[0] in s;
      NoCount(s[1..], part);
    }
  }

  lemma TotalOfOne(line: string, part: string)
    requires part != "" && part[0] !in line
    ensures Total([line], part) == 0
  {
    NoCount(line, part);
    assert Total([line], part) == Count(line, part) + Total([], part);
  }

  /** A block's fence lines hold no marker, so the block lacks what its source lacks. */
  lemma BlockLacks(s: Snippet, source: string, t: Snippet)
    requires GoodSource(source) && GoodLanguage(s.language) && Lacks(SourceLines(CrlfToLf(source)), t)
    ensures Lacks(BlockLines(s, source), t)
  {
    hide GoodSource, BlockLines, SourceLines, CrlfToLf, Total, Marker;
    var open, body := "```" + s.language, SourceLines(CrlfToLf(source));
    BlockOfGoodSource(s, source);
    MarkersAreMarkers(t);
    assert '<' !in open && '<' !in "```";
    forall marker | marker == StartMarker(t) || marker == EndMarker(t)
      ensures Total(BlockLines(s, source), marker) == 0
    {
      TotalConcat([open] + body, ["```"], marker);
      TotalConcat([open], body, marker);
      TotalOfOne(open, marker);
      TotalOfOne("```", marker);
    }
  }

  /** Newline-terminated, free of CR, no line closes the fence, and none holds a marker of the guide. */
  predicate Usable(source: string)
  {
    GoodSource(source) && forall j :: 0 <= j < |CATALOGUE| ==> Lacks(SourceLines(CrlfToLf(source)), CATALOGUE[j])
  }

  /** One pass over the guide with usable sources settles it: the next pass finds nothing to do. */
  lemma GuideConverges(lines: Lines, sources: seq<string>)
    requires |sources| == |CATALOGUE| && forall i :: 0 <= i < |sources| ==> Usable(sources[i])
    requires Synchronize(lines, CATALOGUE, BlocksOf(CATALOGUE, sources)).Ok?
    ensures var blocks := BlocksOf(CATALOGUE, sources);
            var out := Synchronize(lines, CATALOGUE, blocks).value;
            Settled(out, CATALOGUE, blocks) && Synchronize(out, CATALOGUE, blocks) == Ok(out)
  {
    hide GuideCrlf, Validate, BlockLines, Rendered, StyledLines, GoodSource, GoodLanguage, Lacks, PlainNames,
      WithinGuide;
    var blocks := BlocksOf(CATALOGUE, sources);
    CatalogueIsPlain();
    forall k, j | 0 <= k < |blocks| && 0 <= j < |CATALOGUE| ensures Lacks(blocks[k], CATALOGUE[j]) {
      assert Usable(sources[k]);
      BlockLacks(CATALOGUE[k], sources[k], CATALOGUE[j]);
    }
    var regions := Validate(lines, CATALOGUE).value;
    ValidatedMeans(lines, CATALOGUE, regions);
    GoodSourcesConverge(lines, CATALOGUE, sources, blocks, GuideCrlf(lines).value, regions);
    SecondPass(lines, CATALOGUE, blocks);
  }
}
