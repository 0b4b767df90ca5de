/**
 What Check reports of any manifest and tree: which fault draws which problem, when
 there is none, and what an accepted manifest then says about the tree.
 */
module CodegenFaults {
  import opened Bytes
  import opened Text
  import opened Ordering
  import opened Codegen
  import opened CodegenCheck

  // ----------------------------------------------------------- list by list

  predicate DeclaredAt(outputs: seq<Output>, i: nat, path: string)
  {
    i < |outputs| && outputs[i].path == path
  }

  /** Rooted, or with a colon in second place. */
  predicate Rooted(path: string)
  {
    (|path| >= 1 && path[0] == '/') || (|path| >= 2 && path[1] == ':')
  }

  /** What the path of output i draws: the first two exclude each other, the third comes on top. */
  predicate PathFault(outputs: seq<Output>, i: nat, x: Problem)
  {
    && DeclaredAt(outputs, i, x.path) && x.detail == ""
    && (|| (x.code == AbsolutePath && Rooted(x.path))
        || (x.code == PathTraversal && !Rooted(x.path) && ".." in Split(x.path, '/'))
        || (x.code == DuplicatePath && exists j :: 0 <= j < i && outputs[j].path == x.path))
  }

  lemma {:induction false} PathFaults(outputs: seq<Output>, x: Problem)
    ensures x in PathProblems(outputs) <==> exists i: nat :: PathFault(outputs, i, x)
  {
    hide PathFault, PathProblem, Declared;
    if outputs != [] {
      var last := |outputs| - 1;
      PathFaults(outputs[..last], x);
      forall i: nat | i < last
        ensures PathFault(outputs[..last], i, x) <==> PathFault(outputs, i, x)
      {
        SamePathFault(outputs, last, i, x);
      }
      LastPathFault(outputs, x);
      PathFaultIsInside(outputs, x);
      PathFaultIsInside(outputs[..last], x);
    } else {
      PathFaultIsInside(outputs, x);
    }
  }

  lemma SamePathFault(outputs: seq<Output>, n: nat, i: nat, x: Problem)
    requires i < n <= |outputs|
    ensures PathFault(outputs[..n], i, x) <==> PathFault(outputs, i, x)
  {
    hide Split;
    assert forall j :: 0 <= j < n ==> outputs[..n][j] == outputs[j];
  }

  lemma PathFaultIsInside(outputs: seq<Output>, x: Problem)
    ensures forall i: nat :: PathFault(outputs, i, x) ==> i < |outputs|
  {
  }

  lemma LastPathFault(outputs: seq<Output>, x: Problem)
    requires outputs != []
    ensures var last := |outputs| - 1;
            x in PathProblem(outputs[last].path, Declared(outputs[..last])) <==> PathFault(outputs, last, x)
  {
    var last := |outputs| - 1;
    hide Split;
    if exists j :: 0 <= j < last && outputs[j].path == x.path {
      var j :| 0 <= j < last && outputs[j].path == x.path;
      assert outputs[..last][j].path == x.path;
    }
  }

  lemma {:induction false} SourceFaults(sources: seq<string>, tree: Tree, x: Problem)
    ensures x in SourceProblems(sources, tree) <==>
            x.code == SourceMissing && x.detail == "" && x.path in sources && !Exists(tree, x.path)
  {
    hide Exists;
    if sources != [] {
      SourceFaults(sources[..|sources| - 1], tree, x);
      assert sources == sources[..|sources| - 1] + [sources[|sources| - 1]];
    }
  }

  /** What an output draws on disk: absent, empty or other content than was pinned. */
  predicate DiskFault(lib: Library, o: Output, tree: Tree, x: Problem)
  {
    && o.path == x.path && ValidPath(o.path)
    && (|| (x.code == OutputMissing && x.detail == "read" && o.path !in tree.files)
        || (x.code == OutputEmpty && x.detail == "" && o.path in tree.files && tree.files[o.path] == "")
        || (&& x.code == OutputStale && x.detail == "" && o.path in tree.files && tree.files[o.path] != ""
            && Fold(lib.hash(CrlfToLf(tree.files[o.path]))) != Fold(o.sha256)))
  }

  lemma {:induction false} DiskFaults(lib: Library, outputs: seq<Output>, tree: Tree, x: Problem)
    ensures x in OutputProblems(lib, outputs, tree) <==>
            exists i :: 0 <= i < |outputs| && DiskFault(lib, outputs[i], tree, x)
  {
    if outputs != [] {
      hide ValidPath, Fold, CrlfToLf, DiskFault;
      var last := |outputs| - 1;
      DiskFaults(lib, outputs[..last], tree, x);
      assert x in OutputProblem(lib, outputs[last], tree) <==> DiskFault(lib, outputs[last], tree, x) by {
        OneDiskFault(lib, outputs[last], tree, x);
      }
    }
  }

  lemma OneDiskFault(lib: Library, o: Output, tree: Tree, x: Problem)
    ensures x in OutputProblem(lib, o, tree) <==> DiskFault(lib, o, tree, x)
  {
    hide ValidPath, Fold, CrlfToLf;
  }

  lemma {:induction false} StrayFaults(
    lib: Library, declared: set<string>, globs: seq<string>, walk: seq<string>, x: Problem)
    ensures x in Unmanifested(lib, declared, globs, walk) <==>
            && x.code == OutputUnmanifested && x.detail == "" && x.path in walk && x.path !in declared
            && AnyGlob(lib, globs, x.path)
  {
    hide AnyGlob;
    if walk != [] {
      StrayFaults(lib, declared, globs, walk[..|walk| - 1], x);
      assert walk == walk[..|walk| - 1] + [walk[|walk| - 1]];
    }
  }

  lemma {:induction false} RefFaults(outputs: seq<string>, declared: set<string>, id: string, x: Problem)
    ensures x in RefProblems(outputs, declared, id) <==>
            x.code == UnknownOutputRef && x.detail == id && x.path in outputs && x.path !in declared
  {
    if outputs != [] {
      RefFaults(outputs[..|outputs| - 1], declared, id, x);
      assert outputs == outputs[..|outputs| - 1] + [outputs[|outputs| - 1]];
    }
  }

  /** What a generator draws: no outputs, or a reference to an output that is not declared. */
  predicate GeneratorFault(g: Generator, declared: set<string>, x: Problem)
  {
    && x.detail == g.id
    && (|| (x.code == GeneratorNoOutputs && x.path == "" && g.outputs == [])
        || (x.code == UnknownOutputRef && x.path in g.outputs && x.path !in declared))
  }

  lemma {:induction false} GeneratorFaults(generators: seq<Generator>, declared: set<string>, x: Problem)
    ensures x in GeneratorProblems(generators, declared) <==>
            exists i :: 0 <= i < |generators| && GeneratorFault(generators[i], declared, x)
  {
    if generators != [] {
      hide RefProblems;
      var last := |generators| - 1;
      GeneratorFaults(generators[..last], declared, x);
      RefFaults(generators[last].outputs, declared, generators[last].id, x);
      assert x in GeneratorProblem(generators[last], declared) <==> GeneratorFault(generators[last], declared, x);
    }
  }

  lemma {:induction false} UnclaimedFaults(outputs: seq<Output>, claimed: set<string>, x: Problem)
    ensures x in UnclaimedProblems(outputs, claimed) <==>
            && x.code == OutputUnclaimed && x.detail == "" && x.path !in claimed
            && exists i: nat :: DeclaredAt(outputs, i, x.path)
  {
    if outputs != [] {
      var last := |outputs| - 1;
      var before := outputs[..last];
      UnclaimedFaults(before, claimed, x);
      assert forall i: nat :: i < last ==> (DeclaredAt(before, i, x.path) <==> DeclaredAt(outputs, i, x.path));
      assert DeclaredAt(outputs, last, x.path) <==> outputs[last].path == x.path;
    }
  }

  // ------------------------------------------------------------------ all of them

  ghost predicate IsDeclared(m: Manifest, path: string)
  {
    exists i: nat :: DeclaredAt(m.outputs, i, path)
  }

  ghost predicate IsClaimed(m: Manifest, path: string)
  {
    exists i :: 0 <= i < |m.generators| && path in m.generators[i].outputs
  }

  /** The fault that each problem stands for. */
  ghost predicate Fault(lib: Library, m: Manifest, tree: Tree, walk: seq<string>, x: Problem)
  {
    match x.code
    case AbsolutePath | PathTraversal | DuplicatePath => exists i: nat :: PathFault(m.outputs, i, x)
    case UnsortedPaths =>
      && x.path == "" && x.detail == ""
      && exists i :: 0 < i < |m.outputs| && Less(m.outputs[i].path, m.outputs[i - 1].path)
    case SourceMissing =>
      && x.detail == "" && x.path in m.sources
      && !(ValidPath(x.path) && (x.path in tree.files || x.path in tree.directories))
    case OutputMissing | OutputEmpty | OutputStale =>
      exists i :: 0 <= i < |m.outputs| && DiskFault(lib, m.outputs[i], tree, x)
    case OutputUnmanifested =>
      && x.detail == "" && x.path in walk && !IsDeclared(m, x.path)
      && exists i :: 0 <= i < |m.globs| && lib.matches(m.globs[i], x.path)
    case GeneratorNoOutputs =>
      x.path == "" && exists i :: 0 <= i < |m.generators| && m.generators[i] == Generator(x.detail, [])
    case UnknownOutputRef =>
      && !IsDeclared(m, x.path)
      && exists i :: 0 <= i < |m.generators| && m.generators[i].id == x.detail && x.path in m.generators[i].outputs
    case OutputUnclaimed => x.detail == "" && IsDeclared(m, x.path) && !IsClaimed(m, x.path)
  }

  lemma DeclaredIff(m: Manifest, path: string)
    ensures path in Declared(m.outputs) <==> IsDeclared(m, path)
  {
    if path in Declared(m.outputs) {
      var i :| 0 <= i < |m.outputs| && m.outputs[i].path == path;
      assert DeclaredAt(m.outputs, i, path);
    }
  }

  lemma ClaimedIff(m: Manifest, path: string)
    ensures path in Claimed(m.generators) <==> IsClaimed(m, path)
  {
  }

  lemma GeneratorFaultIff(m: Manifest, x: Problem)
    ensures (exists i :: 0 <= i < |m.generators| && GeneratorFault(m.generators[i], Declared(m.outputs), x)) <==>
            || (&& x.code == GeneratorNoOutputs && x.path == ""
                && exists i :: 0 <= i < |m.generators| && m.generators[i] == Generator(x.detail, []))
            || (&& x.code == UnknownOutputRef && !IsDeclared(m, x.path)
                && exists i ::
                     0 <= i < |m.generators| && m.generators[i].id == x.detail && x.path in m.generators[i].outputs)
  {
    hide Declared, IsDeclared;
    DeclaredIff(m, x.path);
    if exists i :: 0 <= i < |m.generators| && GeneratorFault(m.generators[i], Declared(m.outputs), x) {
      var i :| 0 <= i < |m.generators| && GeneratorFault(m.generators[i], Declared(m.outputs), x);
      assert x.code == GeneratorNoOutputs ==> m.generators[i] == Generator(x.detail, []);
    }
  }

  lemma UnsortedIff(m: Manifest)
    ensures Sorted(Paths(m.outputs)) <==>
            !exists i :: 0 < i < |m.outputs| && Less(m.outputs[i].path, m.outputs[i - 1].path)
  {
    hide Less;
    var paths := Paths(m.outputs);
    if Sorted(paths) {
      forall i | 0 < i < |m.outputs|
        ensures !Less(m.outputs[i].path, m.outputs[i - 1].path)
      {
        assert !Less(paths[i], paths[i - 1]);
      }
    }
  }

  /** Check reports a problem exactly when the manifest and tree have the fault that it stands for. */
  lemma ReportedIff(lib: Library, m: Manifest, tree: Tree, walk: seq<string>, x: Problem)
    ensures x in Problems(lib, m, tree, walk) <==> Fault(lib, m, tree, walk, x)
  {
    hide PathProblems, SourceProblems, OutputProblems, Unmanifested, GeneratorProblems, UnclaimedProblems, Sorted, Less,
      Declared, Claimed, IsDeclared, IsClaimed, ValidPath, GeneratorFault;
    PathFaults(m.outputs, x);
    SourceFaults(m.sources, tree, x);
    DiskFaults(lib, m.outputs, tree, x);
    StrayFaults(lib, Declared(m.outputs), m.globs, walk, x);
    GeneratorFaults(m.generators, Declared(m.outputs), x);
    UnclaimedFaults(m.outputs, Claimed(m.generators), x);
    DeclaredIff(m, x.path);
    ClaimedIff(m, x.path);
    GeneratorFaultIff(m, x);
    UnsortedIff(m);
    IsDeclaredAt(m, x.path);
  }

  lemma IsDeclaredAt(m: Manifest, path: string)
    ensures IsDeclared(m, path) <==> exists i: nat :: DeclaredAt(m.outputs, i, path)
  {
  }

  // -------------------------------------------------------------------- no problems

  predicate SafePath(path: string)
  {
    !Rooted(path) && ".." !in Split(path, '/')
  }

  /** The output is there, not empty, with the pinned hash after CR LF is read as LF. */
  predicate Pinned(lib: Library, o: Output, tree: Tree)
  {
    && o.path in tree.files && tree.files[o.path] != ""
    && Fold(lib.hash(CrlfToLf(tree.files[o.path]))) == Fold(o.sha256)
  }

  /** What a manifest has to be, whatever the tree. */
  ghost predicate WellFormed(m: Manifest)
  {
    && (forall i :: 0 <= i < |m.outputs| ==> SafePath(m.outputs[i].path) && IsClaimed(m, m.outputs[i].path))
    && (forall i, j :: 0 <= i < j < |m.outputs| ==> m.outputs[i].path != m.outputs[j].path)
    && (forall i :: 0 < i < |m.outputs| ==> !Less(m.outputs[i].path, m.outputs[i - 1].path))
    && (forall i :: 0 <= i < |m.generators| ==>
          m.generators[i].outputs != [] && forall out :: out in m.generators[i].outputs ==> IsDeclared(m, out))
  }

  /** What a tree has to be for a manifest. */
  ghost predicate Matches(lib: Library, m: Manifest, tree: Tree, walk: seq<string>)
  {
    && (forall source :: source in m.sources ==> Exists(tree, source))
    && (forall i :: 0 <= i < |m.outputs| && ValidPath(m.outputs[i].path) ==> Pinned(lib, m.outputs[i], tree))
    && (forall name :: name in walk && AnyGlob(lib, m.globs, name) ==> IsDeclared(m, name))
  }

  lemma WellFormedHasNoFault(lib: Library, m: Manifest, tree: Tree, walk: seq<string>, x: Problem)
    requires WellFormed(m) && Matches(lib, m, tree, walk)
    ensures !Fault(lib, m, tree, walk, x)
  {
    hide Split, ValidPath, Less, Fold, CrlfToLf;
    if x.code.OutputUnclaimed? && IsDeclared(m, x.path) {
      var i: nat :| DeclaredAt(m.outputs, i, x.path);
      assert IsClaimed(m, m.outputs[i].path);
    }
  }

  lemma FaultlessIsWellFormed(lib: Library, m: Manifest, tree: Tree, walk: seq<string>)
    requires forall x :: !Fault(lib, m, tree, walk, x)
    ensures WellFormed(m)
  {
    hide Fault, Split, Less, ValidPath, IsDeclared, IsClaimed;
    forall i | 0 <= i < |m.outputs|
      ensures SafePath(m.outputs[i].path) && IsClaimed(m, m.outputs[i].path)
    {
      OutputFaults(lib, m, tree, walk, i);
    }
    forall i, j | 0 <= i < j < |m.outputs|
      ensures m.outputs[i].path != m.outputs[j].path
    {
      RepeatFault(lib, m, tree, walk, i, j);
    }
    forall i | 0 < i < |m.outputs|
      ensures !Less(m.outputs[i].path, m.outputs[i - 1].path)
    {
      assert !Fault(lib, m, tree, walk, Problem(UnsortedPaths, "", ""));
      UnsortedFault(lib, m, tree, walk);
    }
    forall i | 0 <= i < |m.generators|
      ensures m.generators[i].outputs != [] && forall out :: out in m.generators[i].outputs ==> IsDeclared(m, out)
    {
      EmptyGeneratorFault(lib, m, tree, walk, i);
      forall out | out in m.generators[i].outputs
        ensures IsDeclared(m, out)
      {
        RefFault(lib, m, tree, walk, i, out);
      }
    }
  }

  lemma OutputFaults(lib: Library, m: Manifest, tree: Tree, walk: seq<string>, i: nat)
    requires (forall x :: !Fault(lib, m, tree, walk, x)) && i < |m.outputs|
    ensures SafePath(m.outputs[i].path) && IsClaimed(m, m.outputs[i].path)
  {
    hide Split;
    var path := m.outputs[i].path;
    assert DeclaredAt(m.outputs, i, path);
    assert !Fault(lib, m, tree, walk, Problem(OutputUnclaimed, path, ""));
    var absolute, up := Problem(AbsolutePath, path, ""), Problem(PathTraversal, path, "");
    assert !Fault(lib, m, tree, walk, absolute) && !PathFault(m.outputs, i, absolute);
    assert !Fault(lib, m, tree, walk, up) && !PathFault(m.outputs, i, up);
  }

  lemma RepeatFault(lib: Library, m: Manifest, tree: Tree, walk: seq<string>, i: nat, j: nat)
    requires (forall x :: !Fault(lib, m, tree, walk, x)) && i < j < |m.outputs|
    ensures m.outputs[i].path != m.outputs[j].path
  {
    hide Split;
    var repeated := Problem(DuplicatePath, m.outputs[j].path, "");
    assert DeclaredAt(m.outputs, j, m.outputs[j].path);
    assert !Fault(lib, m, tree, walk, repeated) && !PathFault(m.outputs, j, repeated);
  }

  lemma UnsortedFault(lib: Library, m: Manifest, tree: Tree, walk: seq<string>)
    requires !Fault(lib, m, tree, walk, Problem(UnsortedPaths, "", ""))
    ensures forall i :: 0 < i < |m.outputs| ==> !Less(m.outputs[i].path, m.outputs[i - 1].path)
  {
    hide Less;
  }

  lemma EmptyGeneratorFault(lib: Library, m: Manifest, tree: Tree, walk: seq<string>, i: nat)
    requires (forall x :: !Fault(lib, m, tree, walk, x)) && i < |m.generators|
    ensures m.generators[i].outputs != []
  {
    assert !Fault(lib, m, tree, walk, Problem(GeneratorNoOutputs, "", m.generators[i].id));
  }

  lemma RefFault(lib: Library, m: Manifest, tree: Tree, walk: seq<string>, i: nat, out: string)
    requires (forall x :: !Fault(lib, m, tree, walk, x)) && i < |m.generators| && out in m.generators[i].outputs
    ensures IsDeclared(m, out)
  {
    assert !Fault(lib, m, tree, walk, Problem(UnknownOutputRef, out, m.generators[i].id));
  }

  lemma FaultlessMatches(lib: Library, m: Manifest, tree: Tree, walk: seq<string>)
    requires forall x :: !Fault(lib, m, tree, walk, x)
    ensures Matches(lib, m, tree, walk)
  {
    hide ValidPath, Fold, CrlfToLf, Split, Less, IsDeclared;
    forall source | source in m.sources
      ensures Exists(tree, source)
    {
      assert !Fault(lib, m, tree, walk, Problem(SourceMissing, source, ""));
    }
    forall i | 0 <= i < |m.outputs| && ValidPath(m.outputs[i].path)
      ensures Pinned(lib, m.outputs[i], tree)
    {
      var path := m.outputs[i].path;
      var missing, empty, stale :=
        Problem(OutputMissing, path, "read"), Problem(OutputEmpty, path, ""), Problem(OutputStale, path, "");
      assert !Fault(lib, m, tree, walk, missing) && !DiskFault(lib, m.outputs[i], tree, missing);
      assert !Fault(lib, m, tree, walk, empty) && !DiskFault(lib, m.outputs[i], tree, empty);
      assert !Fault(lib, m, tree, walk, stale) && !DiskFault(lib, m.outputs[i], tree, stale);
    }
    forall name | name in walk && AnyGlob(lib, m.globs, name)
      ensures IsDeclared(m, name)
    {
      assert !Fault(lib, m, tree, walk, Problem(OutputUnmanifested, name, ""));
    }
  }

  /** Check accepts exactly the well-formed manifests that match the tree. */
  lemma AcceptsIff(lib: Library, m: Manifest, tree: Tree, walk: seq<string>)
    ensures Problems(lib, m, tree, walk) == [] <==> WellFormed(m) && Matches(lib, m, tree, walk)
  {
    hide Problems, Fault, WellFormed, Matches;
    var problems := Problems(lib, m, tree, walk);
    forall x
      ensures x in problems <==> Fault(lib, m, tree, walk, x)
    {
      ReportedIff(lib, m, tree, walk, x);
    }
    if problems == [] {
      FaultlessIsWellFormed(lib, m, tree, walk);
      FaultlessMatches(lib, m, tree, walk);
    } else if WellFormed(m) && Matches(lib, m, tree, walk) {
      assert problems[0] in problems;
      WellFormedHasNoFault(lib, m, tree, walk, problems[0]);
      assert false;
    }
  }

  /**
   An empty result is meant to say that the tree has every declared output with its
   pinned content.  It does exactly when every declared path is one that can be opened:
   other paths are skipped on disk, and not all of them are reported for their shape.
   */
  lemma AcceptedIsPinnedIff(lib: Library, m: Manifest, tree: Tree, walk: seq<string>)
    requires Problems(lib, m, tree, walk) == [] && forall name :: name in tree.files ==> ValidPath(name)
    ensures (forall i :: 0 <= i < |m.outputs| ==> Pinned(lib, m.outputs[i], tree)) <==>
            (forall i :: 0 <= i < |m.outputs| ==> ValidPath(m.outputs[i].path))
  {
    hide Problems, ValidPath, WellFormed, Fold, CrlfToLf;
    AcceptsIff(lib, m, tree, walk);
  }

  lemma DoubleSlash()
    ensures Split("a//b", '/') == ["a", "", "b"]
  {
    SplitOfFree("b", "", '/');
    SplitOfFree("", "b", '/');
    SplitOfFree("a", "/b", '/');
    assert "" + ['/'] + "b" == "/b" && "a" + ['/'] + "/b" == "a//b";
  }

  /** For instance a declared a//b, in any tree at all. */
  lemma SkippedOutput(lib: Library, tree: Tree, digest: string)
    ensures Problems(lib, Manifest([], [Output("a//b", digest)], [], [Generator("g", ["a//b"])]), tree, []) == []
  {
    hide Problems, Split, Fold, CrlfToLf, ValidPath;
    var m := Manifest([], [Output("a//b", digest)], [], [Generator("g", ["a//b"])]);
    DoubleSlash();
    assert !ValidPath("a//b") by { EmptySegment("a//b", 1); }
    assert DeclaredAt(m.outputs, 0, "a//b") && "a//b" in m.generators[0].outputs;
    AcceptsIff(lib, m, tree, []);
  }

  lemma EmptySegment(path: string, i: nat)
    requires i < |Split(path, '/')| && Split(path, '/')[i] == "" && path != "."
    ensures !ValidPath(path)
  {
  }

  // --------------------------------------------------------------------- first rule

  predicate FirstAt(lib: Library, name: string, rules: seq<Rule>, k: nat)
  {
    k < |rules| && AnyGlob(lib, rules[k].globs, name) && forall j :: 0 <= j < k ==> !AnyGlob(lib, rules[j].globs, name)
  }

  /** A name belongs to the first rule with a matching glob, and to none if there is no such rule. */
  lemma {:induction false} FirstRule(lib: Library, name: string, rules: seq<Rule>)
    ensures forall id ::
              MatchRule(lib, name, rules) == Some(id) <==>
                exists k: nat :: FirstAt(lib, name, rules, k) && rules[k].id == id
    ensures MatchRule(lib, name, rules).None? <==>
            forall k :: 0 <= k < |rules| ==> !AnyGlob(lib, rules[k].globs, name)
  {
    hide AnyGlob;
    if rules != [] {
      var rest := rules[1..];
      FirstRule(lib, name, rest);
      if AnyGlob(lib, rules[0].globs, name) {
        assert forall k: nat :: FirstAt(lib, name, rules, k) <==> k == 0;
      } else {
        assert forall k: nat :: FirstAt(lib, name, rest, k) ==> FirstAt(lib, name, rules, k + 1);
        assert forall k: nat :: FirstAt(lib, name, rules, k) ==> k > 0 && FirstAt(lib, name, rest, k - 1);
      }
    }
  }
}
