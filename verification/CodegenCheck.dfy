/** Checking a tree against a manifest: the problem lists of the five sub-checks, and the loops that gather them. */
module CodegenCheck {
  import opened Bytes
  import opened Text
  import opened Ordering
  import opened Codegen

  function Paths(outputs: seq<Output>): (r: seq<string>)
    ensures |r| == |outputs| && forall i :: 0 <= i < |r| ==> r[i] == outputs[i].path
  {
    seq(|outputs|, i requires 0 <= i < |outputs| => outputs[i].path)
  }

  function Declared(outputs: seq<Output>): set<string>
  {
    set i | 0 <= i < |outputs| :: outputs[i].path
  }

  // -------------------------------------------------------------- output paths

  function PathProblem(path: string, seen: set<string>): seq<Problem>
  {
    (if IsAbsolute(path) then [Problem(AbsolutePath, path, "")]
     else if HasDotDot(path) then [Problem(PathTraversal, path, "")]
     else [])
    + (if path in seen then [Problem(DuplicatePath, path, "")] else [])
  }

  function PathProblems(outputs: seq<Output>): seq<Problem>
  {
    if outputs == [] then []
    else
      var last := |outputs| - 1;
      PathProblems(outputs[..last]) + PathProblem(outputs[last].path, Declared(outputs[..last]))
  }

  function OutputPathProblems(m: Manifest): seq<Problem>
  {
    PathProblems(m.outputs) + (if Sorted(Paths(m.outputs)) then [] else [Problem(UnsortedPaths, "", "")])
  }

  /** checkOutputPaths. */
  method CheckOutputPaths(m: Manifest) returns (p: seq<Problem>)
    ensures p == OutputPathProblems(m)
  {
    hide IsAbsolute, HasDotDot, Declared, Sorted;
    assert Declared([]) == {} by { NothingDeclared(); }
    p := [];
    var seen: set<string> := {};
    var names: seq<string> := [];
    for i := 0 to |m.outputs|
      invariant p == PathProblems(m.outputs[..i])
      invariant seen == Declared(m.outputs[..i])
      invariant names == Paths(m.outputs[..i])
    {
      var path := m.outputs[i].path;
      assert m.outputs[..i + 1][..i] == m.outputs[..i];
      ghost var before := p;
      if IsAbsolute(path) {
        p := p + [Problem(AbsolutePath, path, "")];
      } else if HasDotDot(path) {
        p := p + [Problem(PathTraversal, path, "")];
      }
      if path in seen {
        p := p + [Problem(DuplicatePath, path, "")];
      }
      assert p == before + PathProblem(path, seen);
      DeclaredSnoc(m.outputs, i);
      seen := seen + {path};
      names := names + [path];
    }
    assert m.outputs[..|m.outputs|] == m.outputs;
    if !Sorted(names) {
      p := p + [Problem(UnsortedPaths, "", "")];
    }
  }

  lemma NothingDeclared()
    ensures Declared([]) == {}
  {
  }

  lemma DeclaredSnoc(outputs: seq<Output>, i: nat)
    requires i < |outputs|
    ensures Declared(outputs[..i + 1]) == Declared(outputs[..i]) + {outputs[i].path}
  {
  }

  // ------------------------------------------------------------ sources, outputs

  predicate Exists(tree: Tree, name: string)
  {
    ValidPath(name) && (name in tree.files || name in tree.directories)
  }

  function SourceProblems(sources: seq<string>, tree: Tree): seq<Problem>
  {
    if sources == [] then []
    else
      var last := |sources| - 1;
      SourceProblems(sources[..last], tree)
      + (if Exists(tree, sources[last]) then [] else [Problem(SourceMissing, sources[last], "")])
  }

  function OutputProblem(lib: Library, o: Output, tree: Tree): seq<Problem>
  {
    if !ValidPath(o.path) then []
    else if o.path !in tree.files then [Problem(OutputMissing, o.path, "read")]
    else if tree.files[o.path] == "" then [Problem(OutputEmpty, o.path, "")]
    else if !EqualFold(HashContent(lib, tree.files[o.path]), o.sha256) then [Problem(OutputStale, o.path, "")]
    else []
  }

  function OutputProblems(lib: Library, outputs: seq<Output>, tree: Tree): seq<Problem>
  {
    if outputs == [] then []
    else
      var last := |outputs| - 1;
      OutputProblems(lib, outputs[..last], tree) + OutputProblem(lib, outputs[last], tree)
  }

  function Unmanifested(lib: Library, declared: set<string>, globs: seq<string>, walk: seq<string>): seq<Problem>
  {
    if walk == [] then []
    else
      var last := |walk| - 1;
      Unmanifested(lib, declared, globs, walk[..last])
      + (if walk[last] !in declared && AnyGlob(lib, globs, walk[last])
         then [Problem(OutputUnmanifested, walk[last], "")] else [])
  }

  // ----------------------------------------------------------------- generators

  function RefProblems(outputs: seq<string>, declared: set<string>, id: string): seq<Problem>
  {
    if outputs == [] then []
    else
      var last := |outputs| - 1;
      RefProblems(outputs[..last], declared, id)
      + (if outputs[last] in declared then [] else [Problem(UnknownOutputRef, outputs[last], id)])
  }

  function GeneratorProblem(g: Generator, declared: set<string>): seq<Problem>
  {
    if g.outputs == [] then [Problem(GeneratorNoOutputs, "", g.id)] else RefProblems(g.outputs, declared, g.id)
  }

  function GeneratorProblems(generators: seq<Generator>, declared: set<string>): seq<Problem>
  {
    if generators == [] then []
    else
      var last := |generators| - 1;
      GeneratorProblems(generators[..last], declared) + GeneratorProblem(generators[last], declared)
  }

  function Claimed(generators: seq<Generator>): set<string>
  {
    set g, out | g in generators && out in g.outputs :: out
  }

  function UnclaimedProblems(outputs: seq<Output>, claimed: set<string>): seq<Problem>
  {
    if outputs == [] then []
    else
      var last := |outputs| - 1;
      UnclaimedProblems(outputs[..last], claimed)
      + (if outputs[last].path in claimed then [] else [Problem(OutputUnclaimed, outputs[last].path, "")])
  }

  /** checkGenerators. */
  method CheckGenerators(m: Manifest) returns (p: seq<Problem>)
    ensures p ==
            GeneratorProblems(m.generators, Declared(m.outputs)) + UnclaimedProblems(m.outputs, Claimed(m.generators))
  {
    hide Declared, RefProblems;
    p := [];
    var declared := Declared(m.outputs);
    var claimed: set<string> := {};
    for i := 0 to |m.generators|
      invariant p == GeneratorProblems(m.generators[..i], declared)
      invariant claimed == Claimed(m.generators[..i])
    {
      var g := m.generators[i];
      assert m.generators[..i + 1][..i] == m.generators[..i];
      assert m.generators[..i + 1] == m.generators[..i] + [g];
      if |g.outputs| == 0 {
        p := p + [Problem(GeneratorNoOutputs, "", g.id)];
      } else {
        var more := CheckRefs(g, declared);
        p := p + more;
        claimed := claimed + set out | out in g.outputs;
      }
    }
    assert m.generators[..|m.generators|] == m.generators;
    ghost var before := p;
    for i := 0 to |m.outputs|
      invariant p == before + UnclaimedProblems(m.outputs[..i], claimed)
    {
      assert m.outputs[..i + 1][..i] == m.outputs[..i];
      if m.outputs[i].path !in claimed {
        p := p + [Problem(OutputUnclaimed, m.outputs[i].path, "")];
      }
    }
    assert m.outputs[..|m.outputs|] == m.outputs;
  }

  method CheckRefs(g: Generator, declared: set<string>) returns (p: seq<Problem>)
    ensures p == RefProblems(g.outputs, declared, g.id)
  {
    p := [];
    for k := 0 to |g.outputs|
      invariant p == RefProblems(g.outputs[..k], declared, g.id)
    {
      assert g.outputs[..k + 1][..k] == g.outputs[..k];
      if g.outputs[k] !in declared {
        p := p + [Problem(UnknownOutputRef, g.outputs[k], g.id)];
      }
    }
    assert g.outputs[..|g.outputs|] == g.outputs;
  }

  // ---------------------------------------------------------------------- Check

  /** All problems, in the order of the sub-checks; `walk` is the order in which the tree is walked. */
  function Problems(lib: Library, m: Manifest, tree: Tree, walk: seq<string>): seq<Problem>
  {
    OutputPathProblems(m) + SourceProblems(m.sources, tree) + OutputProblems(lib, m.outputs, tree)
    + Unmanifested(lib, Declared(m.outputs), m.globs, walk)
    + (GeneratorProblems(m.generators, Declared(m.outputs)) + UnclaimedProblems(m.outputs, Claimed(m.generators)))
  }

  /** Check. */
  method Check(lib: Library, m: Manifest, tree: Tree, walk: seq<string>) returns (p: seq<Problem>)
    ensures p == Problems(lib, m, tree, walk)
  {
    hide *;
    AllProblems(lib, m, tree, walk);
    p := CheckOutputPaths(m);
    var sources := CheckSources(m, tree);
    p := p + sources;
    var outputs := CheckOutputsOnDisk(lib, m, tree);
    p := p + outputs;
    var stray := CheckUnmanifested(lib, m, walk);
    p := p + stray;
    var generators := CheckGenerators(m);
    p := p + generators;
  }

  lemma AllProblems(lib: Library, m: Manifest, tree: Tree, walk: seq<string>)
    ensures Problems(lib, m, tree, walk) ==
            OutputPathProblems(m) + SourceProblems(m.sources, tree) + OutputProblems(lib, m.outputs, tree)
            + Unmanifested(lib, Declared(m.outputs), m.globs, walk)
            + (GeneratorProblems(m.generators, Declared(m.outputs)) +
              UnclaimedProblems(m.outputs, Claimed(m.generators)))
  {
  }

  /** checkSources. */
  method CheckSources(m: Manifest, tree: Tree) returns (p: seq<Problem>)
    ensures p == SourceProblems(m.sources, tree)
  {
    hide Exists;
    p := [];
    for i := 0 to |m.sources|
      invariant p == SourceProblems(m.sources[..i], tree)
    {
      assert m.sources[..i + 1][..i] == m.sources[..i];
      if !Exists(tree, m.sources[i]) {
        p := p + [Problem(SourceMissing, m.sources[i], "")];
      }
    }
    assert m.sources[..|m.sources|] == m.sources;
  }

  /** checkOutputsOnDisk. */
  method CheckOutputsOnDisk(lib: Library, m: Manifest, tree: Tree) returns (p: seq<Problem>)
    ensures p == OutputProblems(lib, m.outputs, tree)
  {
    hide ValidPath, EqualFold, HashContent;
    p := [];
    for i := 0 to |m.outputs|
      invariant p == OutputProblems(lib, m.outputs[..i], tree)
    {
      var o := m.outputs[i];
      assert m.outputs[..i + 1][..i] == m.outputs[..i];
      if !ValidPath(o.path) {
        continue;
      }
      if o.path !in tree.files {
        p := p + [Problem(OutputMissing, o.path, "read")];
        continue;
      }
      if tree.files[o.path] == "" {
        p := p + [Problem(OutputEmpty, o.path, "")];
        continue;
      }
      if !EqualFold(HashContent(lib, tree.files[o.path]), o.sha256) {
        p := p + [Problem(OutputStale, o.path, "")];
      }
    }
    assert m.outputs[..|m.outputs|] == m.outputs;
  }

  /** checkUnmanifested. */
  method CheckUnmanifested(lib: Library, m: Manifest, walk: seq<string>) returns (p: seq<Problem>)
    ensures p == Unmanifested(lib, Declared(m.outputs), m.globs, walk)
  {
    hide Declared, AnyGlob;
    p := [];
    var declared := Declared(m.outputs);
    for i := 0 to |walk|
      invariant p == Unmanifested(lib, declared, m.globs, walk[..i])
    {
      assert walk[..i + 1][..i] == walk[..i];
      if walk[i] !in declared && AnyGlob(lib, m.globs, walk[i]) {
        p := p + [Problem(OutputUnmanifested, walk[i], "")];
      }
    }
    assert walk[..|walk|] == walk;
  }
}
