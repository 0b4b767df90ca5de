/** Snapshot and Check agree: exactly which trees a snapshot's manifest accepts. */
module CodegenProperties {
  import opened Bytes
  import opened Text
  import opened Ordering
  import opened Codegen
  import opened CodegenCheck
  import opened CodegenFaults

  // ------------------------------------------------------------------ snapshots

  predicate Claims(lib: Library, rules: seq<Rule>, name: string)
  {
    MatchRule(lib, name, rules).Some?
  }

  lemma {:induction false} ClaimsIffSomeGlob(lib: Library, rules: seq<Rule>, name: string)
    ensures Claims(lib, rules, name) <==> exists g :: g in AllGlobs(rules) && lib.matches(g, name)
  {
    if rules != [] {
      ClaimsIffSomeGlob(lib, rules[1..], name);
      assert AllGlobs(rules) == (set g | g in rules[0].globs) + AllGlobs(rules[1..]) by {
        assert rules == [rules[0]] + rules[1..];
      }
    }
  }

  lemma GlobsAreClaims(lib: Library, rules: seq<Rule>, globs: seq<string>, name: string)
    requires forall g :: g in globs <==> g in AllGlobs(rules)
    ensures AnyGlob(lib, globs, name) <==> Claims(lib, rules, name)
  {
    hide AllGlobs, MatchRule, Claims;
    ClaimsIffSomeGlob(lib, rules, name);
    if AnyGlob(lib, globs, name) {
      var i :| 0 <= i < |globs| && lib.matches(globs[i], name);
      assert globs[i] in globs;
    }
  }

  /** Names as a walk produces them. */
  ghost predicate WalkNames(tree: Tree)
  {
    forall name :: name in tree.files ==> ValidPath(name) && name != "."
  }

  lemma RootedSplit(name: string)
    requires name != "" && name[0] == '/'
    ensures Split(name, '/')[0] == ""
  {
  }

  lemma WalkNameIsSafe(name: string)
    requires ValidPath(name) && name != "."
    ensures SafePath(name) <==> !DriveLike(name)
  {
    if name != "" && name[0] == '/' {
      RootedSplit(name);
      assert false;
    }
  }

  /** Digests are lower-case hex, and no two contents share one. */
  ghost predicate GoodHash(lib: Library)
  {
    && (forall s :: Fold(lib.hash(s)) == lib.hash(s))
    && (forall s, t :: lib.hash(s) == lib.hash(t) ==> s == t)
  }

  /** What a snapshot records, name by name. */
  lemma SnapshotRecords(
    lib: Library, m: Manifest, tree: Tree, walk: seq<string>, sources: seq<string>, rules: seq<Rule>)
    requires IsSnapshot(lib, m, tree, walk, sources, rules) && Walks(walk, tree)
    ensures NoRepeats(Paths(m.outputs)) && Sorted(Paths(m.outputs))
    ensures forall name :: name in Declared(m.outputs) <==> name in tree.files && Claims(lib, rules, name)
    ensures forall i :: 0 <= i < |m.outputs| ==>
      m.outputs[i].path in tree.files && m.outputs[i].sha256 == HashContent(lib, tree.files[m.outputs[i].path])
  {
    hide MatchRule, Attributed, Sort, HashContent;
    var matched := Matched(lib, rules, walk);
    var names := Sort(matched);
    MatchedNames(lib, rules, walk);
    SortKeeps(matched);
    SortSorts(matched);
    StrictIsSorted(names);
    assert Paths(m.outputs) == names;
    forall name ensures name in Declared(m.outputs) <==> name in names {
      if name in names {
        var i :| 0 <= i < |names| && names[i] == name;
        assert m.outputs[i].path == name;
      }
    }
  }

  /** A snapshot's generators have outputs, refer to declared ones only, and claim them all. */
  lemma SnapshotGenerators(
    lib: Library, m: Manifest, tree: Tree, walk: seq<string>, sources: seq<string>, rules: seq<Rule>)
    requires IsSnapshot(lib, m, tree, walk, sources, rules) && Walks(walk, tree)
    ensures forall i :: 0 <= i < |m.generators| ==>
      m.generators[i].outputs != [] && forall out :: out in m.generators[i].outputs ==> IsDeclared(m, out)
    ensures forall i :: 0 <= i < |m.outputs| ==> IsClaimed(m, m.outputs[i].path)
  {
    hide MatchRule, Sort, HashContent;
    var names := Sort(Matched(lib, rules, walk));
    forall name | name in names ensures IsDeclared(m, name) {
      var i :| 0 <= i < |names| && names[i] == name;
      assert DeclaredAt(m.outputs, i, name);
    }
    forall i | 0 <= i < |m.outputs| ensures IsClaimed(m, m.outputs[i].path) {
      assert m.outputs[i].path == names[i] && names[i] in names;
    }
  }

  /** So a snapshot is well-formed exactly when its paths are safe. */
  lemma SnapshotWellFormed(
    lib: Library, m: Manifest, tree: Tree, walk: seq<string>, sources: seq<string>, rules: seq<Rule>)
    requires IsSnapshot(lib, m, tree, walk, sources, rules) && Walks(walk, tree)
    ensures WellFormed(m) <==> forall i :: 0 <= i < |m.outputs| ==> SafePath(m.outputs[i].path)
  {
    hide IsSnapshot, Less, SafePath, Walks, IsClaimed, IsDeclared;
    SnapshotRecords(lib, m, tree, walk, sources, rules);
    SnapshotGenerators(lib, m, tree, walk, sources, rules);
    UnsortedIff(m);
    assert forall i :: 0 <= i < |m.outputs| ==> Paths(m.outputs)[i] == m.outputs[i].path;
  }

  // ------------------------------------------------------------------ agreement

  /** A claimed file of the snapshot is there, not empty, and the same up to CR LF. */
  predicate Same(tree: Tree, other: Tree, name: string)
    requires name in tree.files
  {
    name in other.files && other.files[name] != "" && CrlfToLf(other.files[name]) == CrlfToLf(tree.files[name])
  }

  /** Which trees agree with the snapshot of a tree. */
  ghost predicate Agrees(lib: Library, tree: Tree, other: Tree, sources: seq<string>, rules: seq<Rule>)
  {
    && (forall i :: 0 <= i < |sources| ==> Exists(other, sources[i]))
    && (forall name :: name in tree.files && Claims(lib, rules, name) ==> !DriveLike(name) && Same(tree, other, name))
    && (forall name :: name in other.files && Claims(lib, rules, name) ==> name in tree.files)
  }

  lemma OutputFits(lib: Library, o: Output, tree: Tree, other: Tree)
    requires GoodHash(lib) && WalkNames(tree) && o.path in tree.files &&
             o.sha256 == HashContent(lib, tree.files[o.path])
    ensures Pinned(lib, o, other) <==> Same(tree, other, o.path)
  {
    hide ValidPath, Fold, CrlfToLf;
  }

  lemma PathsFit(outputs: seq<Output>, tree: Tree)
    requires WalkNames(tree) && forall i :: 0 <= i < |outputs| ==> outputs[i].path in tree.files
    ensures (forall i :: 0 <= i < |outputs| ==> SafePath(outputs[i].path)) <==>
            (forall i :: 0 <= i < |outputs| ==> !DriveLike(outputs[i].path))
  {
    hide SafePath, DriveLike, ValidPath;
    forall i | 0 <= i < |outputs| ensures SafePath(outputs[i].path) <==> !DriveLike(outputs[i].path) {
      WalkNameIsSafe(outputs[i].path);
    }
  }

  lemma DeclaredAll(outputs: seq<Output>, tree: Tree, lib: Library, rules: seq<Rule>, other: Tree)
    requires forall name :: name in Declared(outputs) <==> name in tree.files && Claims(lib, rules, name)
    requires forall i :: 0 <= i < |outputs| ==> outputs[i].path in tree.files
    ensures (forall i :: 0 <= i < |outputs| ==> !DriveLike(outputs[i].path) && Same(tree, other, outputs[i].path)) <==>
            (forall name :: name in tree.files && Claims(lib, rules, name) ==>
              !DriveLike(name) && Same(tree, other, name))
  {
  }

  /**
   Agreement.  A snapshot's manifest accepts a tree exactly when the tree has all
   sources, the same rule-claimed files, each non-empty and equal to the snapshot's
   after one CR LF to LF replacement; and when no claimed name has a colon in second
   place, which Check takes for a drive letter.
   */
  lemma SnapshotThenCheck(
    lib: Library, m: Manifest, tree: Tree, walk: seq<string>, sources: seq<string>, rules: seq<Rule>, other: Tree,
    otherWalk: seq<string>)
    requires IsSnapshot(lib, m, tree, walk, sources, rules) && Walks(walk, tree) && Walks(otherWalk, other)
    requires WalkNames(tree) && GoodHash(lib)
    ensures Problems(lib, m, other, otherWalk) == [] <==> Agrees(lib, tree, other, sources, rules)
  {
    hide IsSnapshot, WalkNames, GoodHash, Claims, DriveLike, Same, Exists, Pinned, AnyGlob, SafePath, Declared,
      ValidPath,
      WellFormed, Problems, IsDeclared;
    SnapshotRecords(lib, m, tree, walk, sources, rules);
    SnapshotWellFormed(lib, m, tree, walk, sources, rules);
    SnapshotParts(lib, m, tree, walk, sources, rules);
    PathsFit(m.outputs, tree);
    forall i | 0 <= i < |m.outputs|
      ensures ValidPath(m.outputs[i].path) &&
              (Pinned(lib, m.outputs[i], other) <==> Same(tree, other, m.outputs[i].path))
    {
      WalkNameIsValid(tree, m.outputs[i].path);
      OutputFits(lib, m.outputs[i], tree, other);
    }
    DeclaredAll(m.outputs, tree, lib, rules, other);
    StrayFits(lib, m, tree, rules, other, otherWalk);
    AcceptsIff(lib, m, other, otherWalk);
  }

  lemma WalkNameIsValid(tree: Tree, name: string)
    requires WalkNames(tree) && name in tree.files
    ensures ValidPath(name)
  {
  }

  lemma SnapshotParts(lib: Library, m: Manifest, tree: Tree, walk: seq<string>, sources: seq<string>, rules: seq<Rule>)
    requires IsSnapshot(lib, m, tree, walk, sources, rules)
    ensures m.sources == sources && forall g :: g in m.globs <==> g in AllGlobs(rules)
  {
  }

  lemma StrayFits(lib: Library, m: Manifest, tree: Tree, rules: seq<Rule>, other: Tree, otherWalk: seq<string>)
    requires Walks(otherWalk, other) && forall g :: g in m.globs <==> g in AllGlobs(rules)
    requires forall name :: name in Declared(m.outputs) <==> name in tree.files && Claims(lib, rules, name)
    ensures (forall name :: name in otherWalk && AnyGlob(lib, m.globs, name) ==> IsDeclared(m, name)) <==>
            (forall name :: name in other.files && Claims(lib, rules, name) ==> name in tree.files)
  {
    hide Claims, AnyGlob, Declared, AllGlobs, IsDeclared;
    forall name
      ensures AnyGlob(lib, m.globs, name) <==> Claims(lib, rules, name)
      ensures name in Declared(m.outputs) <==> IsDeclared(m, name)
    {
      GlobsAreClaims(lib, rules, m.globs, name);
      DeclaredIff(m, name);
    }
  }

  /** So a fresh snapshot need not pass its own check: a claimed file may be empty, or named like a drive. */
  lemma OwnSnapshot(lib: Library, m: Manifest, tree: Tree, walk: seq<string>, sources: seq<string>, rules: seq<Rule>)
    requires IsSnapshot(lib, m, tree, walk, sources, rules) && Walks(walk, tree) && WalkNames(tree) && GoodHash(lib)
    ensures Problems(lib, m, tree, walk) == [] <==>
            && (forall i :: 0 <= i < |sources| ==> Exists(tree, sources[i]))
            && (forall name :: name in tree.files && Claims(lib, rules, name) ==>
               tree.files[name] != "" && !DriveLike(name))
  {
    hide IsSnapshot, WalkNames, GoodHash, Claims, DriveLike, Exists, Problems;
    SnapshotThenCheck(lib, m, tree, walk, sources, rules, tree, walk);
  }

  /** One such name: a generated file `a:b` is recorded, and its own manifest then rejects it as absolute. */
  lemma DriveLikeNameFails(lib: Library, m: Manifest, rules: seq<Rule>)
    requires GoodHash(lib) && Claims(lib, rules, "a:b")
    requires IsSnapshot(lib, m, Tree(map["a:b" := "x"], {}), ["a:b"], [], rules)
    ensures Problems(lib, m, Tree(map["a:b" := "x"], {}), ["a:b"]) != []
  {
    hide IsSnapshot, GoodHash, Claims, Problems;
    var tree := Tree(map["a:b" := "x"], {});
    assert Split("a:b", '/') == ["a:b"] by { SplitOfFree("a:b", "", '/'); }
    assert "a:b" in tree.files && DriveLike("a:b");
    OwnSnapshot(lib, m, tree, ["a:b"], [], rules);
  }
}
