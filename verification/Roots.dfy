/** Aggregate roots of an import graph: the protos that no proto imports. */
module Roots {
  import opened Bytes

  /** A proto file by its stem, with the stems that it imports. */
  datatype Proto = Proto(stem: string, imports: seq<string>)

  predicate Imported(protos: seq<Proto>, stem: string)
  {
    exists i :: 0 <= i < |protos| && stem in protos[i].imports
  }

  predicate IsRoot(protos: seq<Proto>, p: Proto)
  {
    p in protos && !Imported(protos, p.stem)
  }

  lemma ImportedMore(protos: seq<Proto>, k: nat)
    requires k < |protos|
    ensures forall stem ::
              Imported(protos[..k + 1], stem) <==> Imported(protos[..k], stem) || stem in protos[k].imports
  {
    var more := protos[..k + 1];
    assert forall i :: 0 <= i < k ==> more[i] == protos[..k][i];
    assert more[k] == protos[k];
  }

  /** The set that the imports are gathered in. */
  method CollectImported(protos: seq<Proto>) returns (imported: set<string>)
    ensures forall stem :: stem in imported <==> Imported(protos, stem)
  {
    assert forall stem :: !Imported(protos[..0], stem);
    hide Imported;
    imported := {};
    for k := 0 to |protos|
      invariant forall stem :: stem in imported <==> Imported(protos[..k], stem)
    {
      ImportedMore(protos, k);
      imported := imported + set stem | stem in protos[k].imports;
    }
    assert protos[..|protos|] == protos;
  }

  /** aggregate_roots: the roots in the order of the protos, or an error when there are none. */
  method AggregateRoots(protos: seq<Proto>) returns (roots: Option<seq<Proto>>)
    ensures roots.Some? <==> exists p :: IsRoot(protos, p)
    ensures roots.Some? ==> (forall p :: p in roots.value <==> IsRoot(protos, p)) && InOrder(roots.value, protos)
  {
    assert InOrder([], protos[..0]);
    hide Imported, InOrder;
    var imported := CollectImported(protos);
    var found: seq<Proto> := [];
    for k := 0 to |protos|
      invariant forall p :: p in found <==> p in protos[..k] && p.stem !in imported
      invariant InOrder(found, protos[..k])
    {
      assert protos[..k + 1] == protos[..k] + [protos[k]];
      InOrderSkip(found, protos[..k], protos[k]);
      if protos[k].stem !in imported {
        InOrderTake(found, protos[..k], protos[k]);
        found := found + [protos[k]];
      }
    }
    assert protos[..|protos|] == protos;
    assert forall p :: p in found <==> IsRoot(protos, p);
    if |found| == 0 {
      return None;
    }
    assert IsRoot(protos, found[0]);
    return Some(found);
  }

  /** A subsequence. */
  predicate InOrder(part: seq<Proto>, whole: seq<Proto>)
  {
    if part == [] then true
    else if whole == [] then false
    else
      || (part[|part| - 1] == whole[|whole| - 1] && InOrder(part[..|part| - 1], whole[..|whole| - 1]))
      || InOrder(part, whole[..|whole| - 1])
  }

  lemma InOrderSkip(part: seq<Proto>, whole: seq<Proto>, p: Proto)
    requires InOrder(part, whole)
    ensures InOrder(part, whole + [p])
  {
    assert (whole + [p])[..|whole|] == whole;
  }

  lemma InOrderTake(part: seq<Proto>, whole: seq<Proto>, p: Proto)
    requires InOrder(part, whole)
    ensures InOrder(part + [p], whole + [p])
  {
    assert (whole + [p])[..|whole|] == whole;
    assert (part + [p])[..|part|] == part;
  }

  // ----------------------------------------------------------------- reachability

  /** Each proto of the chain imports the next one. */
  predicate Chain(protos: seq<Proto>, c: seq<Proto>)
  {
    && (forall i :: 0 <= i < |c| ==> c[i] in protos)
    && (forall i {:trigger c[i].imports} :: 0 <= i < |c| - 1 ==> c[i + 1].stem in c[i].imports)
  }

  ghost predicate Acyclic(protos: seq<Proto>)
  {
    forall c :: Chain(protos, c) && |c| > 1 ==> c[0] != c[|c| - 1]
  }

  predicate Reaches(protos: seq<Proto>, c: seq<Proto>, p: Proto, q: Proto)
  {
    Chain(protos, c) && c != [] && c[0] == p && c[|c| - 1] == q
  }

  ghost predicate Covered(protos: seq<Proto>, q: Proto)
  {
    exists p, c :: IsRoot(protos, p) && Reaches(protos, c, p, q)
  }

  lemma ChainFirst(protos: seq<Proto>, p: Proto, c: seq<Proto>)
    requires Chain(protos, c) && p in protos && (c != [] ==> c[0].stem in p.imports)
    ensures Chain(protos, [p] + c)
  {
  }

  lemma ChainFrom(protos: seq<Proto>, c: seq<Proto>, i: nat)
    requires Chain(protos, c) && i <= |c|
    ensures Chain(protos, c[i..]) && Chain(protos, c[..i])
  {
  }

  /** In an acyclic graph the protos of a chain are distinct. */
  lemma ChainIsDistinct(protos: seq<Proto>, c: seq<Proto>)
    requires Acyclic(protos) && Chain(protos, c)
    ensures forall i, j :: 0 <= i < j < |c| ==> c[i] != c[j]
  {
    forall i, j | 0 <= i < j < |c| ensures c[i] != c[j] {
      ChainFrom(protos, c, j + 1);
      ChainFrom(protos, c[..j + 1], i);
      var d := c[..j + 1][i..];
      assert d[0] == c[i] && d[|d| - 1] == c[j];
    }
  }

  lemma {:induction false} DistinctFits(s: seq<Proto>, bound: set<Proto>)
    requires forall i, j :: 0 <= i < j < |s| ==> s[i] != s[j]
    requires forall i :: 0 <= i < |s| ==> s[i] in bound
    ensures |s| <= |bound|
    decreases |s|
  {
    if s != [] {
      DistinctFits(s[1..], bound - {s[0]});
    }
  }

  /** Climbing importers from the head of a chain ends at a root. */
  lemma {:induction false} Climb(protos: seq<Proto>, c: seq<Proto>)
    requires Acyclic(protos) && Chain(protos, c) && c != []
    ensures Covered(protos, c[|c| - 1])
    decreases |(set p | p in protos)| + 1 - |c|
  {
    ChainIsDistinct(protos, c);
    DistinctFits(c, set p | p in protos);
    if IsRoot(protos, c[0]) {
      assert Reaches(protos, c, c[0], c[|c| - 1]);
    } else {
      var i :| 0 <= i < |protos| && c[0].stem in protos[i].imports;
      ChainFirst(protos, protos[i], c);
      Climb(protos, [protos[i]] + c);
    }
  }

  /** An acyclic, non-empty graph has roots, and every proto is reached from one by imports. */
  lemma RootsCover(protos: seq<Proto>)
    requires protos != [] && Acyclic(protos)
    ensures exists p :: IsRoot(protos, p)
    ensures forall q :: q in protos ==> Covered(protos, q)
  {
    forall q | q in protos ensures Covered(protos, q) {
      Climb(protos, [q]);
    }
    assert Covered(protos, protos[0]);
  }

  // ------------------------------------------------------------------ with cycles

  /** A set of protos, none a root, that every importer of a member belongs to. */
  ghost predicate SealedOff(protos: seq<Proto>, s: set<Proto>)
  {
    && (forall q :: q in s ==> q in protos && !IsRoot(protos, q))
    && (forall q, p :: q in s && p in protos && q.stem in p.imports ==> p in s)
  }

  lemma {:induction false} SealedStays(protos: seq<Proto>, s: set<Proto>, c: seq<Proto>)
    requires SealedOff(protos, s) && Chain(protos, c) && c != [] && c[|c| - 1] in s
    ensures c[0] in s
    decreases |c|
  {
    if |c| > 1 {
      ChainFrom(protos, c, 1);
      SealedStays(protos, s, c[1..]);
      assert c[1] == c[0 + 1] && c[0 + 1].stem in c[0].imports;
    }
  }

  lemma ChainLast(protos: seq<Proto>, c: seq<Proto>, q: Proto)
    requires Chain(protos, c) && q in protos && c != [] && q.stem in c[|c| - 1].imports
    ensures Chain(protos, c + [q])
  {
  }

  lemma RootIsCovered(protos: seq<Proto>, q: Proto)
    requires IsRoot(protos, q)
    ensures Covered(protos, q)
  {
    assert Reaches(protos, [q], q, q);
  }

  lemma ImportIsCovered(protos: seq<Proto>, p: Proto, q: Proto)
    requires Covered(protos, p) && q in protos && q.stem in p.imports
    ensures Covered(protos, q)
  {
    var r, c :| IsRoot(protos, r) && Reaches(protos, c, r, p);
    ChainLast(protos, c, q);
    assert Reaches(protos, c + [q], r, q);
  }

  lemma UncoveredIsSealed(protos: seq<Proto>, s: set<Proto>)
    requires forall q :: q in s <==> q in protos && !Covered(protos, q)
    ensures SealedOff(protos, s)
  {
    hide IsRoot, Covered;
    forall q | q in protos && IsRoot(protos, q) ensures q !in s {
      RootIsCovered(protos, q);
    }
    forall q, p | q in protos && p in protos && Covered(protos, p) && q.stem in p.imports ensures q !in s {
      ImportIsCovered(protos, p, q);
    }
  }

  lemma SealedIsUncovered(protos: seq<Proto>, s: set<Proto>, q: Proto)
    requires SealedOff(protos, s) && q in s
    ensures !Covered(protos, q)
  {
    hide IsRoot;
    if Covered(protos, q) {
      var p, c :| IsRoot(protos, p) && Reaches(protos, c, p, q);
      SealedStays(protos, s, c);
      assert false;
    }
  }

  /** In any graph: all protos are covered exactly when no non-empty set of them is sealed off from the roots. */
  lemma CoveredIff(protos: seq<Proto>)
    ensures (forall q :: q in protos ==> Covered(protos, q)) <==> !exists s :: s != {} && SealedOff(protos, s)
  {
    hide Covered, IsRoot;
    var s := set q | q in protos && !Covered(protos, q);
    UncoveredIsSealed(protos, s);
    forall t, q | SealedOff(protos, t) && q in t ensures q in protos && !Covered(protos, q) {
      SealedIsUncovered(protos, t, q);
    }
  }

  /** A cycle beside a root passes the check for roots and is left out of the aggregate. */
  lemma CycleBesideRoot()
    ensures var protos := [Proto("a", ["b"]), Proto("b", ["a"]), Proto("c", [])];
            IsRoot(protos, protos[2]) && !Covered(protos, protos[0])
  {
    var a, b, c := Proto("a", ["b"]), Proto("b", ["a"]), Proto("c", []);
    var protos := [a, b, c];
    assert a.imports == ["b"] && b.imports == ["a"];
    assert "a" in protos[1].imports && "b" in protos[0].imports;
    var s := {a, b};
    assert SealedOff(protos, s);
    SealedIsUncovered(protos, s, a);
  }
}
