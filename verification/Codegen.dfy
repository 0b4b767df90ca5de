/**
 The generated-code manifest: taking a snapshot of a tree and checking a tree
 against a manifest.  File contents are strings of bytes; glob matching and the
 content hash come in as functions, and a walk is any order of a tree's file names.
 */
module Codegen {
  import opened Bytes
  import opened Text
  import opened Ordering

  /** Regular files with their content, and the other names that exist, which are directories. */
  datatype Tree = Tree(files: map<string, string>, directories: set<string>)

  datatype Rule = Rule(id: string, globs: seq<string>)

  datatype Output = Output(path: string, sha256: string)

  datatype Generator = Generator(id: string, outputs: seq<string>)

  datatype Manifest = Manifest(
    sources: seq<string>, outputs: seq<Output>, globs: seq<string>, generators: seq<Generator>)

  datatype Code =
    | UnsortedPaths | DuplicatePath | PathTraversal | AbsolutePath | SourceMissing | OutputMissing
    | OutputStale | OutputEmpty | OutputUnmanifested | GeneratorNoOutputs | UnknownOutputRef | OutputUnclaimed

  datatype Problem = Problem(code: Code, path: string, detail: string)

  /** path.Match with its error ignored, and the SHA-256 of some bytes in hex. */
  datatype Library = Library(matches: (string, string) -> bool, hash: string -> string)

  /** hashContent: CR LF read as LF. */
  function HashContent(lib: Library, content: string): string
  {
    lib.hash(CrlfToLf(content))
  }

  // -------------------------------------------------------------------- paths

  /** fs.ValidPath. */
  predicate ValidPath(name: string)
  {
    name == "." ||
    forall i :: 0 <= i < |Split(name, '/')| ==>
      Split(name, '/')[i] != "" && Split(name, '/')[i] != "." && Split(name, '/')[i] != ".."
  }

  /** Rooted, or with a drive letter's colon in second place. */
  predicate IsAbsolute(path: string)
  {
    (path != "" && path[0] == '/') || DriveLike(path)
  }

  predicate DriveLike(path: string)
  {
    |path| >= 2 && path[1] == ':'
  }

  predicate HasDotDot(path: string)
  {
    ".." in Split(path, '/')
  }

  /** strings.EqualFold on the hex digests compared here. */
  predicate EqualFold(a: string, b: string)
  {
    Fold(a) == Fold(b)
  }

  function Fold(s: string): string
  {
    seq(|s|, i requires 0 <= i < |s| =>
      if 'A' <= s[i] <= 'Z' then ((s[i] as int - 'A' as int) + 'a' as int) as char else s[i])
  }

  // ----------------------------------------------------------------- snapshot

  predicate AnyGlob(lib: Library, globs: seq<string>, name: string)
  {
    exists i :: 0 <= i < |globs| && lib.matches(globs[i], name)
  }

  /** matchRule: the first rule with a matching glob. */
  function MatchRule(lib: Library, name: string, rules: seq<Rule>): Option<string>
  {
    if rules == [] then None
    else if AnyGlob(lib, rules[0].globs, name) then Some(rules[0].id)
    else MatchRule(lib, name, rules[1..])
  }

  function Matched(lib: Library, rules: seq<Rule>, walk: seq<string>): seq<string>
  {
    if walk == [] then []
    else
      var last := |walk| - 1;
      var before := Matched(lib, rules, walk[..last]);
      if MatchRule(lib, walk[last], rules).Some? then before + [walk[last]] else before
  }

  function AllGlobs(rules: seq<Rule>): set<string>
  {
    set r, g | r in rules && g in r.globs :: g
  }

  /** Some sequence of the elements of a set; sorting makes it determinate. */
  method Elements(s: set<string>) returns (r: seq<string>)
    ensures NoRepeats(r) && forall x :: x in r <==> x in s
  {
    r := [];
    var rest := s;
    while rest != {}
      invariant NoRepeats(r) && rest <= s
      invariant forall x :: x in r <==> x in s && x !in rest
      decreases |rest|
    {
      var x :| x in rest;
      r := r + [x];
      rest := rest - {x};
    }
  }

  /** What a snapshot of a tree is, without its order of work. */
  ghost predicate IsSnapshot(
    lib: Library, m: Manifest, tree: Tree, walk: seq<string>, sources: seq<string>, rules: seq<Rule>)
  {
    var names := Sort(Matched(lib, rules, walk));
    && m.sources == sources
    && |m.outputs| == |names|
    && (forall i :: 0 <= i < |names| ==>
          names[i] in tree.files && m.outputs[i] == Output(names[i], HashContent(lib, tree.files[names[i]])))
    && StrictlySorted(m.globs) && (forall g :: g in m.globs <==> g in AllGlobs(rules))
    && Attributed(lib, m.generators, names, rules)
  }

  /** Each generator owns exactly the recorded names whose first matching rule has its ID, and owns at least one. */
  ghost predicate Attributed(lib: Library, generators: seq<Generator>, names: seq<string>, rules: seq<Rule>)
  {
    && (forall i :: 0 <= i < |generators| ==>
          && generators[i].outputs != []
          && forall name :: name in generators[i].outputs <==>
             name in names && MatchRule(lib, name, rules) == Some(generators[i].id))
    && (forall name :: name in names ==> exists i :: 0 <= i < |generators| && name in generators[i].outputs)
    && (forall i, j :: 0 <= i < j < |generators| ==> Less(generators[i].id, generators[j].id))
  }

  /** A walk visits every file once, in some order. */
  ghost predicate Walks(walk: seq<string>, tree: Tree)
  {
    NoRepeats(walk) && forall name :: name in walk <==> name in tree.files
  }

  lemma {:induction false} MatchedNames(lib: Library, rules: seq<Rule>, walk: seq<string>)
    ensures forall name :: name in Matched(lib, rules, walk) <==> name in walk && MatchRule(lib, name, rules).Some?
    ensures NoRepeats(walk) ==> NoRepeats(Matched(lib, rules, walk))
  {
    if walk != [] {
      hide MatchRule;
      var last := |walk| - 1;
      MatchedNames(lib, rules, walk[..last]);
      assert walk == walk[..last] + [walk[last]];
    }
  }

  ghost predicate Grouped(lib: Library, groups: map<string, seq<string>>, names: seq<string>, rules: seq<Rule>)
  {
    && (forall id :: id in groups ==>
          && groups[id] != []
          && forall name :: name in groups[id] <==> name in names && MatchRule(lib, name, rules) == Some(id))
    && (forall name :: name in names ==>
       MatchRule(lib, name, rules).Some? && MatchRule(lib, name, rules).value in groups)
  }

  /** Adding one matched name to its generator's group. */
  lemma GroupOneMore(lib: Library, groups: map<string, seq<string>>, names: seq<string>, rules: seq<Rule>, name: string)
    requires Grouped(lib, groups, names, rules) && MatchRule(lib, name, rules).Some?
    ensures var id := MatchRule(lib, name, rules).value;
            Grouped(lib, groups[id := (if id in groups then groups[id] else []) + [name]], names + [name], rules)
  {
    hide MatchRule;
  }

  lemma GeneratorsAttribute(
    lib: Library, groups: map<string, seq<string>>, names: seq<string>, rules: seq<Rule>, ids: seq<string>,
    generators: seq<Generator>)
    requires Grouped(lib, groups, names, rules) && StrictlySorted(ids) && forall id :: id in ids <==> id in groups
    requires |generators| == |ids|
    requires forall i :: 0 <= i < |ids| ==> ids[i] in groups && generators[i] == Generator(ids[i], Sort(groups[ids[i]]))
    ensures Attributed(lib, generators, Sort(names), rules)
  {
    hide MatchRule, Sort;
    SortKeeps(names);
    forall i | 0 <= i < |generators|
      ensures generators[i].outputs != []
      ensures forall name :: name in generators[i].outputs <==>
              name in Sort(names) && MatchRule(lib, name, rules) == Some(generators[i].id)
    {
      SortKeeps(groups[ids[i]]);
      assert groups[ids[i]][0] in groups[ids[i]];
    }
    forall name | name in Sort(names) ensures exists i :: 0 <= i < |generators| && name in generators[i].outputs {
      var id := MatchRule(lib, name, rules).value;
      assert id in ids;
      var i :| 0 <= i < |ids| && ids[i] == id;
      assert name in generators[i].outputs;
    }
    forall i, j | 0 <= i < j < |generators| ensures Less(generators[i].id, generators[j].id) {
      StrictOrder(ids, i, j);
    }
  }

  /** Snapshot: walk, record the files that a rule claims, then sort everything. */
  method Snapshot(
    lib: Library, tree: Tree, walk: seq<string>, sources: seq<string>, rules: seq<Rule>) returns (m: Manifest)
    requires Walks(walk, tree)
    ensures IsSnapshot(lib, m, tree, walk, sources, rules)
  {
    hide MatchRule, Attributed, Sort;
    var names: seq<string> := [];
    var groups: map<string, seq<string>> := map[];
    for i := 0 to |walk|
      invariant names == Matched(lib, rules, walk[..i])
      invariant Grouped(lib, groups, names, rules)
    {
      assert walk[..i + 1][..i] == walk[..i];
      var rule := MatchRule(lib, walk[i], rules);
      if rule.Some? {
        GroupOneMore(lib, groups, names, rules, walk[i]);
        names := names + [walk[i]];
        groups := groups[rule.value := (if rule.value in groups then groups[rule.value] else []) + [walk[i]]];
      }
    }
    assert walk[..|walk|] == walk;
    MatchedNames(lib, rules, walk);
    var outputs := RecordOutputs(lib, tree, names);
    var globs := SortedElements(AllGlobs(rules));
    var ids := SortedElements(groups.Keys);
    var generators: seq<Generator> := [];
    for i := 0 to |ids|
      invariant |generators| == i
      invariant forall k :: 0 <= k < i ==> ids[k] in groups && generators[k] == Generator(ids[k], Sort(groups[ids[k]]))
    {
      assert ids[i] in groups;
      generators := generators + [Generator(ids[i], Sort(groups[ids[i]]))];
    }
    GeneratorsAttribute(lib, groups, names, rules, ids, generators);
    return Manifest(sources, outputs, globs, generators);
  }

  /** The outputs, pinned by content, in path order. */
  method RecordOutputs(lib: Library, tree: Tree, names: seq<string>) returns (outputs: seq<Output>)
    requires forall name :: name in names ==> name in tree.files
    ensures |outputs| == |Sort(names)|
    ensures forall i :: 0 <= i < |outputs| ==>
      Sort(names)[i] in tree.files && outputs[i] == Output(Sort(names)[i], HashContent(lib, tree.files[Sort(names)[i]]))
  {
    hide Sort, HashContent;
    SortKeeps(names);
    var sorted := Sort(names);
    outputs := [];
    for i := 0 to |sorted|
      invariant |outputs| == i
      invariant forall k :: 0 <= k < i ==>
        sorted[k] in tree.files && outputs[k] == Output(sorted[k], HashContent(lib, tree.files[sorted[k]]))
    {
      assert sorted[i] in sorted;
      outputs := outputs + [Output(sorted[i], HashContent(lib, tree.files[sorted[i]]))];
    }
  }

  /** sortedSet. */
  method SortedElements(s: set<string>) returns (r: seq<string>)
    ensures StrictlySorted(r) && forall x :: x in r <==> x in s
  {
    var elements := Elements(s);
    SortSorts(elements);
    SortKeeps(elements);
    r := Sort(elements);
  }
}
