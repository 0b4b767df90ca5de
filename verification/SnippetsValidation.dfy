/** Validating a guide's regions by sorting them, against the order of the snippets themselves. */
module SnippetsValidation {
  import opened Bytes
  import opened Text
  import opened Snippets

  predicate Rising(s: seq<Placed>)
  {
    forall i, j :: 0 <= i < j < |s| ==> s[i].region.start <= s[j].region.start
  }

  lemma {:induction false} PutKeeps(x: Placed, s: seq<Placed>)
    ensures multiset(Put(x, s)) == multiset(s) + multiset{x}
    decreases |s|
  {
    if s != [] && x.region.start > s[0].region.start {
      PutKeeps(x, s[1..]);
      assert s == [s[0]] + s[1..];
    }
  }

  lemma {:induction false} PutRises(x: Placed, s: seq<Placed>)
    requires Rising(s)
    ensures Rising(Put(x, s))
    decreases |s|
  {
    if s != [] && x.region.start > s[0].region.start {
      var rest := Put(x, s[1..]);
      PutRises(x, s[1..]);
      PutKeeps(x, s[1..]);
      forall i | 0 <= i < |rest| ensures s[0].region.start <= rest[i].region.start {
        assert rest[i] in multiset(rest);
        assert rest[i] == x || rest[i] in s[1..];
      }
    }
  }

  lemma {:induction false} ByStartSorts(s: seq<Placed>)
    ensures multiset(ByStart(s)) == multiset(s) && Rising(ByStart(s))
  {
    hide Put, Rising;
    if s == [] {
      NothingRises();
    } else {
      ByStartSorts(s[1..]);
      PutKeeps(s[0], ByStart(s[1..]));
      PutRises(s[0], ByStart(s[1..]));
      assert s == [s[0]] + s[1..];
    }
  }

  lemma NothingRises()
    ensures Rising([])
  {
  }

  lemma {:induction false} ByStartFixed(s: seq<Placed>)
    requires Rising(s)
    ensures ByStart(s) == s
  {
    if s != [] {
      ByStartFixed(s[1..]);
      assert s == [s[0]] + s[1..];
    }
  }

  predicate SameNames(a: seq<Placed>, b: seq<Placed>)
  {
    |a| == |b| && forall i :: 0 <= i < |a| ==> a[i].name == b[i].name
  }

  predicate NamesDiffer(s: seq<Placed>)
  {
    forall i, j :: 0 <= i < j < |s| ==> s[i].name != s[j].name
  }

  /** With distinct names, sorting leaves the names in place exactly when the starts were rising already. */
  lemma NamesKeptIff(s: seq<Placed>)
    requires NamesDiffer(s)
    ensures SameNames(ByStart(s), s) <==> Rising(s)
  {
    var sorted := ByStart(s);
    ByStartSorts(s);
    if SameNames(sorted, s) {
      forall i | 0 <= i < |s| ensures sorted[i] == s[i] {
        assert sorted[i] in multiset(s);
        var j :| 0 <= j < |s| && s[j] == sorted[i];
      }
      assert sorted == s;
    }
    if Rising(s) {
      ByStartFixed(s);
    }
  }

  predicate DistinctNames(snippets: seq<Snippet>)
  {
    forall i, j :: 0 <= i < j < |snippets| ==> snippets[i].name != snippets[j].name
  }

  lemma MarkerOfName(a: Snippet, b: Snippet)
    requires StartMarker(a) == StartMarker(b)
    ensures a.name == b.name
  {
    var prefix, suffix := "<!-- cap-snippet:", ":start -->";
    assert StartMarker(a) == prefix + a.name + suffix && StartMarker(b) == prefix + b.name + suffix;
    assert |a.name| == |b.name|;
    assert a.name == StartMarker(a)[|prefix|..|prefix| + |a.name|];
    assert b.name == StartMarker(b)[|prefix|..|prefix| + |a.name|];
  }

  /** Different snippets start on different lines. */
  lemma StartsDiffer(lines: Lines, a: Snippet, b: Snippet, r: Region, q: Region)
    requires RegionOf(lines, a) == Some(r) && RegionOf(lines, b) == Some(q) && a.name != b.name
    ensures r.start != q.start
  {
    hide Total, FirstWith, FenceAfter, StripCr, Marker;
    if r.start == q.start {
      assert StripCr(lines[r.start]) == StartMarker(a) == StartMarker(b);
      MarkerOfName(a, b);
      assert false;
    }
  }

  lemma AscendingIffRising(lines: Lines, snippets: seq<Snippet>)
    requires AllValid(lines, snippets) && DistinctNames(snippets)
    ensures Ascending(RegionsOf(lines, snippets)) <==> Rising(PlacedAll(snippets, RegionsOf(lines, snippets)))
  {
    hide RegionOf, AllValid;
    var regions := RegionsOf(lines, snippets);
    var placed := PlacedAll(snippets, regions);
    forall i, j | 0 <= i < j < |regions| ensures regions[i].start != regions[j].start {
      StartsDiffer(lines, snippets[i], snippets[j], regions[i], regions[j]);
    }
    assert forall i :: 0 <= i < |regions| ==> placed[i].region == regions[i];
  }

  /** No fault is found exactly when every snippet has its region. */
  lemma {:induction false} FaultsIff(lines: Lines, snippets: seq<Snippet>)
    ensures Faults(lines, snippets) == [] <==> AllValid(lines, snippets)
  {
    hide FaultOf, RegionOf;
    if snippets != [] {
      FaultsIff(lines, snippets[..|snippets| - 1]);
      FaultIs(lines, snippets[|snippets| - 1]);
    }
  }

  lemma FaultIs(lines: Lines, s: Snippet)
    ensures FaultOf(lines, s).None? <==> RegionOf(lines, s).Some?
  {
  }

  /** _validate_regions, gathering: a region or a fault for every snippet. */
  method GatherRegions(
    lines: Lines, snippets: seq<Snippet>) returns (regions: seq<Region>, faults: seq<(string, Fault)>)
    ensures faults == Faults(lines, snippets)
    ensures faults == [] ==> AllValid(lines, snippets) && regions == RegionsOf(lines, snippets)
  {
    hide RegionOf, FaultOf;
    regions, faults := [], [];
    for i := 0 to |snippets|
      invariant faults == Faults(lines, snippets[..i])
      invariant faults == [] ==> |regions| == i
      invariant faults == [] ==> forall k :: 0 <= k < i ==> RegionOf(lines, snippets[k]) == Some(regions[k])
    {
      assert snippets[..i + 1][..i] == snippets[..i];
      FaultIs(lines, snippets[i]);
      var fault := FaultOf(lines, snippets[i]);
      if fault.None? {
        regions := regions + [RegionOf(lines, snippets[i]).value];
      } else {
        faults := faults + [(snippets[i].name, fault.value)];
      }
    }
    assert snippets[..|snippets|] == snippets;
  }

  /** The first name out of place. */
  method FirstMismatch(actual: seq<Placed>, expected: seq<Placed>) returns (name: string)
    requires |actual| == |expected|
    ensures name == Mismatch(actual, expected)
  {
    var i := 0;
    while i < |actual|
      invariant 0 <= i <= |actual|
      invariant Mismatch(actual, expected) == Mismatch(actual[i..], expected[i..])
    {
      if actual[i].name != expected[i].name {
        return actual[i].name;
      }
      assert actual[i..][1..] == actual[i + 1..] && expected[i..][1..] == expected[i + 1..];
      i := i + 1;
    }
    return "";
  }

  lemma OverlapIffNotApart(regions: seq<Region>)
    ensures OverlapFrom(regions, 1) <==> !Apart(regions)
  {
  }

  lemma OverlapStep(snippets: seq<Snippet>, regions: seq<Region>, i: nat)
    requires |snippets| == |regions| && 0 < i && OverlapFrom(regions, i)
    ensures i < |regions|
    ensures regions[i - 1].end < regions[i].start ==>
              OverlapFrom(regions, i + 1) &&
                FirstOverlap(snippets, regions, i) == FirstOverlap(snippets, regions, i + 1)
    ensures regions[i - 1].end >= regions[i].start ==>
              FirstOverlap(snippets, regions, i) == Overlap(snippets[i].name, snippets[i - 1].name)
  {
  }

  lemma OverlapHere(regions: seq<Region>, i: nat)
    requires 0 < i < |regions| && regions[i - 1].end >= regions[i].start
    ensures !Apart(regions)
  {
  }

  /** Looking for the first region that starts before the one before it has ended. */
  method FindOverlap(
    snippets: seq<Snippet>, regions: seq<Region>, ordered: seq<Placed>) returns (error: Option<SyncError>)
    requires |snippets| == |regions| && ordered == PlacedAll(snippets, regions)
    ensures error.None? <==> Apart(regions)
    ensures error.Some? ==> OverlapFrom(regions, 1) && error.value == FirstOverlap(snippets, regions, 1)
  {
    hide OverlapFrom, FirstOverlap, Apart;
    OverlapIffNotApart(regions);
    var i := 1;
    while i < |ordered|
      invariant 1 <= i
      invariant !Apart(regions) ==>
        OverlapFrom(regions, i) && FirstOverlap(snippets, regions, 1) == FirstOverlap(snippets, regions, i)
    {
      if !Apart(regions) {
        OverlapStep(snippets, regions, i);
      }
      if ordered[i].region.start <= ordered[i - 1].region.end {
        OverlapHere(regions, i);
        return Some(Overlap(ordered[i].name, ordered[i - 1].name));
      }
      i := i + 1;
    }
    if !Apart(regions) {
      OverlapStep(snippets, regions, i);
    }
    return None;
  }

  /** _validate_regions: gather every region and every fault, then sort and compare, then look for overlaps. */
  method ValidateRegions(lines: Lines, snippets: seq<Snippet>) returns (r: Result<seq<Region>, SyncError>)
    requires DistinctNames(snippets)
    ensures r == Validate(lines, snippets)
  {
    hide RegionOf, Rising, ByStart, Ascending, FaultOf, Faults, Mismatch, FirstOverlap, Apart, OverlapFrom;
    var regions, faults := GatherRegions(lines, snippets);
    FaultsIff(lines, snippets);
    if faults != [] {
      return Err(BadMarkers(faults));
    }
    var placed := PlacedAll(snippets, regions);
    var ordered := ByStart(placed);
    NamesKeptIff(placed);
    AscendingIffRising(lines, snippets);
    if !SameNames(ordered, placed) {
      SameLength(placed);
      var name := FirstMismatch(ordered, placed);
      return Err(Misordered(name));
    }
    RisingFixed(placed);
    var overlap := FindOverlap(snippets, regions, ordered);
    if overlap.Some? {
      return Err(overlap.value);
    }
    return Ok(regions);
  }

  lemma SameLength(placed: seq<Placed>)
    ensures |ByStart(placed)| == |placed|
  {
    ByStartSorts(placed);
    assert |ByStart(placed)| == |multiset(ByStart(placed))| == |multiset(placed)| == |placed|;
  }

  lemma RisingFixed(placed: seq<Placed>)
    ensures Rising(placed) ==> ByStart(placed) == placed
  {
    if Rising(placed) {
      ByStartFixed(placed);
    }
  }
}
