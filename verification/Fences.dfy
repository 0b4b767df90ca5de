/**
 What the fence scanner computes, said without it: a reading of lines as lines outside
 any fence, closed fences, and perhaps one that is still open, in the shape of section
 4.5 of the CommonMark spec.
 */
module Fences {
  import opened Bytes
  import opened Text
  import opened Snippets
  import opened SnippetsProperties

  function Repeat(c: char, n: nat): (r: string)
    ensures |r| == n && forall i :: 0 <= i < n ==> r[i] == c
  {
    seq(n, _ => c)
  }

  /** At most three spaces, a run of one fence character, and something that does not go on with it. */
  predicate Shaped(line: string, indent: nat, c: char, run: nat, rest: string)
  {
    && indent <= 3 && run > 0 && (c == '`' || c == '~')
    && line == Repeat(' ', indent) + Repeat(c, run) + rest
    && (rest != "" ==> rest[0] != c)
  }

  /** A line that opens a fence: three or more of its character, and any info string. */
  ghost predicate Opens(line: string, f: Fence)
  {
    f.length >= 3 && exists indent, rest :: Shaped(line, indent, f.character, f.length, rest)
  }

  /** A line that closes a fence: at least as many of its character, and nothing else but white space. */
  ghost predicate Closes(line: string, f: Fence)
  {
    exists indent: nat, run: nat, rest :: Shaped(line, indent, f.character, run, rest) && run >= f.length && Blank(rest)
  }

  /** A line outside fences that opens none, or a fence with its closing line. */
  datatype Item = Outside(line: string) | Fenced(fence: Fence, open: string, body: seq<string>, close: string)

  function LinesOf(item: Item): seq<string>
  {
    match item
    case Outside(line) => [line]
    case Fenced(_, open, body, close) => [open] + body + [close]
  }

  function Written(items: seq<Item>): seq<string>
  {
    if items == [] then [] else Written(items[..|items| - 1]) + LinesOf(items[|items| - 1])
  }

  ghost predicate NoneCloses(lines: seq<string>, f: Fence)
  {
    forall i :: 0 <= i < |lines| ==> !Closes(lines[i], f)
  }

  ghost predicate Proper(item: Item)
  {
    match item
    case Outside(line) => forall f :: !Opens(line, f)
    case Fenced(f, open, body, close) => Opens(open, f) && NoneCloses(body, f) && Closes(close, f)
  }

  ghost predicate AllProper(items: seq<Item>)
  {
    forall i :: 0 <= i < |items| ==> Proper(items[i])
  }

  ghost predicate ReadsClosed(lines: seq<string>, items: seq<Item>)
  {
    AllProper(items) && lines == Written(items)
  }

  ghost predicate ReadsOpen(lines: seq<string>, items: seq<Item>, open: string, body: seq<string>, f: Fence)
  {
    AllProper(items) && Opens(open, f) && NoneCloses(body, f) && lines == Written(items) + [open] + body
  }

  // -------------------------------------------------------------------- one line

  lemma {:induction false} SkipIs(s: string)
    ensures s == Repeat(' ', |s| - |SkipSpaces(s)|) + SkipSpaces(s)
    ensures SkipSpaces(s) != "" ==> SkipSpaces(s)[0] != ' '
  {
    if s != "" && s[0] == ' ' {
      SkipIs(s[1..]);
      assert s == [' '] + s[1..];
    }
  }

  lemma {:induction false} SkipOf(n: nat, s: string)
    requires s != "" ==> s[0] != ' '
    ensures SkipSpaces(Repeat(' ', n) + s) == s
  {
    if n > 0 {
      assert (Repeat(' ', n) + s)[1..] == Repeat(' ', n - 1) + s;
      SkipOf(n - 1, s);
    } else {
      assert Repeat(' ', 0) + s == s;
    }
  }

  lemma RepeatMore(c: char, n: nat)
    ensures Repeat(c, n + 1) == [c] + Repeat(c, n) && Repeat(c, 0) == ""
  {
  }

  lemma {:induction false} RunIs(s: string, c: char)
    ensures var n := RunLength(s, c); s == Repeat(c, n) + s[n..] && (n < |s| ==> s[n] != c)
  {
    hide Repeat;
    if s != "" && s[0] == c {
      var t, n := s[1..], RunLength(s[1..], c);
      RunIs(t, c);
      RepeatMore(c, n);
      assert s == [c] + t && s[n + 1..] == t[n..];
      assert [c] + (Repeat(c, n) + t[n..]) == [c] + Repeat(c, n) + t[n..];
    } else {
      RepeatMore(c, 0);
    }
  }

  lemma {:induction false} RunOf(c: char, n: nat, rest: string)
    requires rest != "" ==> rest[0] != c
    ensures RunLength(Repeat(c, n) + rest, c) == n
  {
    if n > 0 {
      assert (Repeat(c, n) + rest)[1..] == Repeat(c, n - 1) + rest;
      RunOf(c, n - 1, rest);
    } else {
      assert Repeat(c, 0) + rest == rest;
    }
  }

  /** The scanner's cuts of a shaped line are the shape. */
  lemma CutsOfShape(line: string, indent: nat, c: char, run: nat, rest: string)
    requires Shaped(line, indent, c, run, rest)
    ensures var stripped := SkipSpaces(line);
            && |line| - |stripped| == indent && stripped != "" && stripped[0] == c
            && RunLength(stripped, c) == run && stripped[run..] == rest
  {
    hide SkipSpaces, RunLength;
    var stripped := Repeat(c, run) + rest;
    assert line == Repeat(' ', indent) + stripped;
    SkipOf(indent, stripped);
    RunOf(c, run, rest);
  }

  /** And where the scanner finds a fence character, the line has its shape. */
  lemma ShapeOfCuts(line: string)
    requires var stripped := SkipSpaces(line);
             |line| - |stripped| <= 3 && stripped != "" && (stripped[0] == '`' || stripped[0] == '~')
    ensures var stripped := SkipSpaces(line);
            var run := RunLength(stripped, stripped[0]);
            Shaped(line, |line| - |stripped|, stripped[0], run, stripped[run..])
  {
    hide SkipSpaces;
    var stripped := SkipSpaces(line);
    SkipIs(line);
    RunIs(stripped, stripped[0]);
  }

  lemma OpensIff(line: string, f: Fence)
    ensures Advance(None, line) == Some(f) <==> Opens(line, f)
  {
    hide SkipSpaces, RunLength, Shaped;
    if Advance(None, line) == Some(f) {
      ShapeOfCuts(line);
    }
    if Opens(line, f) {
      var indent, rest :| Shaped(line, indent, f.character, f.length, rest);
      CutsOfShape(line, indent, f.character, f.length, rest);
      ShapeBounds(line, indent, f.character, f.length, rest);
    }
  }

  lemma ShapeBounds(line: string, indent: nat, c: char, run: nat, rest: string)
    requires Shaped(line, indent, c, run, rest)
    ensures indent <= 3 && run > 0 && (c == '`' || c == '~')
  {
  }

  lemma ClosesIff(line: string, f: Fence)
    ensures Advance(Some(f), line) == if Closes(line, f) then None else Some(f)
  {
    hide SkipSpaces, RunLength, Shaped, Blank;
    var stripped := SkipSpaces(line);
    if Advance(Some(f), line).None? {
      ShapeOfCuts(line);
    }
    if Closes(line, f) {
      var indent: nat, run: nat, rest :| Shaped(line, indent, f.character, run, rest) && run >= f.length && Blank(rest);
      CutsOfShape(line, indent, f.character, run, rest);
      ShapeBounds(line, indent, f.character, run, rest);
    }
  }

  // ------------------------------------------------------------------- all lines

  lemma {:induction false} AdvanceConcat(active: Option<Fence>, xs: seq<string>, ys: seq<string>)
    ensures AdvanceAll(active, xs + ys) == AdvanceAll(AdvanceAll(active, xs), ys)
    decreases |xs|
  {
    hide Advance;
    if xs == [] {
      assert xs + ys == ys;
    } else {
      assert (xs + ys)[1..] == xs[1..] + ys;
      AdvanceConcat(Advance(active, xs[0]), xs[1..], ys);
    }
  }

  lemma AdvanceOne(active: Option<Fence>, line: string)
    ensures AdvanceAll(active, [line]) == Advance(active, line)
  {
    hide Advance;
    assert AdvanceAll(active, [line]) == AdvanceAll(Advance(active, line), []);
  }

  lemma {:induction false} BodyStaysOpen(f: Fence, body: seq<string>)
    requires NoneCloses(body, f)
    ensures AdvanceAll(Some(f), body) == Some(f)
  {
    hide Advance, Closes;
    if body != [] {
      ClosesIff(body[0], f);
      BodyStaysOpen(f, body[1..]);
    }
  }

  lemma ItemEndsOutside(item: Item)
    requires Proper(item)
    ensures AdvanceAll(None, LinesOf(item)).None?
  {
    hide Advance, AdvanceAll, Opens, Closes, NoneCloses;
    match item
    case Outside(line) =>
      AdvanceOne(None, line);
      if Advance(None, line).Some? {
        OpensIff(line, Advance(None, line).value);
      }
    case Fenced(f, open, body, close) =>
      AdvanceConcat(None, [open] + body, [close]);
      AdvanceConcat(None, [open], body);
      AdvanceOne(None, open);
      OpensIff(open, f);
      BodyStaysOpen(f, body);
      AdvanceOne(Some(f), close);
      ClosesIff(close, f);
  }

  lemma {:induction false} ItemsEndOutside(items: seq<Item>)
    requires AllProper(items)
    ensures AdvanceAll(None, Written(items)).None?
  {
    hide Proper, LinesOf, Advance;
    if items != [] {
      var last := |items| - 1;
      ItemsEndOutside(items[..last]);
      ItemEndsOutside(items[last]);
      AdvanceConcat(None, Written(items[..last]), LinesOf(items[last]));
    }
  }

  lemma OpenEndsInside(items: seq<Item>, open: string, body: seq<string>, f: Fence)
    requires AllProper(items) && Opens(open, f) && NoneCloses(body, f)
    ensures AdvanceAll(None, Written(items) + [open] + body) == Some(f)
  {
    hide *;
    ItemsEndOutside(items);
    AdvanceConcat(None, Written(items) + [open], body);
    AdvanceConcat(None, Written(items), [open]);
    AdvanceOne(None, open);
    OpensIff(open, f);
    BodyStaysOpen(f, body);
  }

  /** The lines read so far: closed, or with an open fence. */
  datatype Reading = Closed(items: seq<Item>) | Open(items: seq<Item>, open: string, body: seq<string>, fence: Fence)

  ghost predicate Reads(lines: seq<string>, r: Reading)
  {
    match r
    case Closed(items) => ReadsClosed(lines, items)
    case Open(items, open, body, f) => ReadsOpen(lines, items, open, body, f)
  }

  lemma WrittenSnoc(items: seq<Item>, item: Item)
    ensures Written(items + [item]) == Written(items) + LinesOf(item)
    ensures AllProper(items) && Proper(item) ==> AllProper(items + [item])
  {
    hide Proper, LinesOf;
    assert (items + [item])[..|items|] == items;
  }

  /** One more line after a closed reading. */
  lemma ReadOutside(lines: seq<string>, items: seq<Item>, line: string) returns (r: Reading)
    requires ReadsClosed(lines, items)
    ensures Reads(lines + [line], r)
  {
    hide Opens, Closes, Advance, Written;
    var next := Advance(None, line);
    if next.Some? {
      OpensIff(line, next.value);
      r := Open(items, line, [], next.value);
      assert lines + [line] == Written(items) + [line] + [];
    } else {
      forall f ensures !Opens(line, f) {
        OpensIff(line, f);
      }
      WrittenSnoc(items, Outside(line));
      r := Closed(items + [Outside(line)]);
    }
  }

  /** One more line inside an open fence. */
  lemma ReadInside(
    lines: seq<string>, items: seq<Item>, open: string, body: seq<string>, f: Fence, line: string) returns (r: Reading)
    requires ReadsOpen(lines, items, open, body, f)
    ensures Reads(lines + [line], r)
  {
    hide Opens, Closes, Written;
    if Closes(line, f) {
      var item := Fenced(f, open, body, line);
      WrittenSnoc(items, item);
      r := Closed(items + [item]);
      assert lines + [line] == Written(items) + ([open] + body + [line]);
    } else {
      r := Open(items, open, body + [line], f);
      assert lines + [line] == Written(items) + [open] + (body + [line]);
    }
  }

  /** Every list of lines has a reading. */
  lemma {:induction false} Readable(lines: seq<string>) returns (r: Reading)
    ensures Reads(lines, r)
  {
    hide ReadsClosed, ReadsOpen;
    if lines == [] {
      r := Closed([]);
      NothingRead();
    } else {
      var last := |lines| - 1;
      var before := Readable(lines[..last]);
      match before {
        case Closed(items) => r := ReadOutside(lines[..last], items, lines[last]);
        case Open(items, open, body, f) => r := ReadInside(lines[..last], items, open, body, f, lines[last]);
      }
      assert lines == lines[..last] + [lines[last]];
    }
  }

  lemma NothingRead()
    ensures ReadsClosed([], [])
  {
  }

  /**
   The scanner.  It ends outside exactly when the lines are lines that open nothing and
   closed fences; it ends in a fence exactly when after such lines one line opens it and
   no later line closes it.
   */
  lemma ScannerIff(lines: seq<string>, f: Fence)
    ensures AdvanceAll(None, lines).None? <==> exists items :: ReadsClosed(lines, items)
    ensures AdvanceAll(None, lines) == Some(f) <==> exists items, open, body :: ReadsOpen(lines, items, open, body, f)
  {
    hide AdvanceAll, AllProper, Opens, NoneCloses, Written;
    var r := Readable(lines);
    forall items | ReadsClosed(lines, items) ensures AdvanceAll(None, lines).None? {
      ItemsEndOutside(items);
    }
    forall items, open, body, g | ReadsOpen(lines, items, open, body, g) ensures AdvanceAll(None, lines) == Some(g) {
      OpenEndsInside(items, open, body, g);
    }
    match r
    case Closed(items) => assert ReadsClosed(lines, items);
    case Open(items, open, body, g) => assert ReadsOpen(lines, items, open, body, g);
  }

  /** What the scanner sees of the guide's lines: their pieces between CRs. */
  function Contents(lines: Lines): seq<string>
  {
    if lines == [] then [] else Split(lines[0], '\r') + Contents(lines[1..])
  }

  lemma {:induction false} ScanOfLines(active: Option<Fence>, lines: Lines)
    ensures FenceAfter(active, lines) == AdvanceAll(active, Contents(lines))
    decreases |lines|
  {
    hide AdvanceAll, Split;
    if lines == [] {
      NothingScanned(active);
    } else {
      AdvanceConcat(active, Split(lines[0], '\r'), Contents(lines[1..]));
      ScanOfLines(AdvanceLine(active, lines[0]), lines[1..]);
    }
  }

  lemma NothingScanned(active: Option<Fence>)
    ensures AdvanceAll(active, []) == active
  {
  }

  /** A block keeps the guide's fences as they are exactly when it closes every fence that it opens. */
  lemma NeutralIff(block: Lines)
    ensures Neutral(block) <==> exists items :: ReadsClosed(Contents(block), items)
  {
    hide ReadsClosed, Contents, AdvanceAll;
    ScanOfLines(None, block);
    ScannerIff(Contents(block), Fence('`', 3));
  }

  // --------------------------------------------------- where the script is laxer

  /** An opening line of the spec: no backtick in the info string of a backtick fence. */
  ghost predicate SpecOpens(line: string, f: Fence)
  {
    f.length >= 3 &&
    exists indent, rest :: Shaped(line, indent, f.character, f.length, rest) && (f.character == '`' ==> '`' !in rest)
  }

  /** A closing line of the spec: only spaces and tabs after the run. */
  ghost predicate SpecCloses(line: string, f: Fence)
  {
    exists indent: nat, run: nat, rest :: Shaped(line, indent, f.character, run, rest) && run >= f.length &&
      SpacesOrTabs(rest)
  }

  predicate SpacesOrTabs(s: string)
  {
    forall i :: 0 <= i < |s| ==> s[i] == ' ' || s[i] == '\t'
  }

  /** What follows the fence run of a line. */
  function AfterRun(line: string): string
  {
    var stripped := SkipSpaces(line);
    if stripped == "" then "" else stripped[RunLength(stripped, stripped[0])..]
  }

  /** The script opens fences beyond the spec exactly on backtick runs with a later backtick. */
  lemma LaxOpening(line: string, f: Fence)
    ensures SpecOpens(line, f) <==> Opens(line, f) && !(f.character == '`' && '`' in AfterRun(line))
  {
    hide SkipSpaces, RunLength, Shaped;
    forall indent, rest | Shaped(line, indent, f.character, f.length, rest) ensures rest == AfterRun(line) {
      CutsOfShape(line, indent, f.character, f.length, rest);
    }
  }

  /** And closes them beyond the spec exactly on runs followed by white space other than space and tab. */
  lemma LaxClosing(line: string, f: Fence)
    ensures SpecCloses(line, f) <==> Closes(line, f) && SpacesOrTabs(AfterRun(line))
  {
    hide SkipSpaces, RunLength, Shaped;
    forall indent: nat, run: nat, rest | Shaped(line, indent, f.character, run, rest) ensures rest == AfterRun(line) {
      CutsOfShape(line, indent, f.character, run, rest);
    }
  }
}
