/** Strings as the Go and Python standard libraries cut them up. */
module Text {

  /** unicode.IsSpace. */
  predicate IsSpace(c: char)
  {
    || '\U{0009}' <= c <= '\U{000D}' || c == ' ' || c == '\U{0085}' || c == '\U{00A0}'
    || c == '\U{1680}' || '\U{2000}' <= c <= '\U{200A}' || c == '\U{2028}' || c == '\U{2029}'
    || c == '\U{202F}' || c == '\U{205F}' || c == '\U{3000}'
  }

  function TrimLeft(s: string): string
  {
    if s != [] && IsSpace(s[0]) then TrimLeft(s[1..]) else s
  }

  function TrimRight(s: string): string
  {
    if s != [] && IsSpace(s[|s| - 1]) then TrimRight(s[..|s| - 1]) else s
  }

  /** strings.TrimSpace. */
  function TrimSpace(s: string): string
  {
    TrimRight(TrimLeft(s))
  }

  lemma TrimOfTight(s: string)
    requires s != "" && !IsSpace(s[0]) && !IsSpace(s[|s| - 1])
    ensures TrimSpace(s) == s
  {
  }

  predicate Contains(s: string, part: string)
  {
    part <= s || (s != "" && Contains(s[1..], part))
  }

  // ------------------------------------------------------------ split and join

  /** strings.Split on a single character. */
  function Split(s: string, separator: char): (r: seq<string>)
    ensures r != []
  {
    if s == "" then [""]
    else
      var rest := Split(s[1..], separator);
      if s[0] == separator then [""] + rest else [[s[0]] + rest[0]] + rest[1..]
  }

  /** strings.Join with a single character. */
  function Join(parts: seq<string>, separator: char): string
  {
    if parts == [] then "" else if |parts| == 1 then parts[0]
    else parts[0] + [separator] + Join(parts[1..], separator)
  }

  predicate Free(parts: seq<string>, c: char)
  {
    forall i :: 0 <= i < |parts| ==> c !in parts[i]
  }

  lemma {:induction false} SplitIsFree(s: string, separator: char)
    ensures Free(Split(s, separator), separator)
  {
    if s != "" {
      SplitIsFree(s[1..], separator);
    }
  }

  lemma {:induction false} JoinOfSplit(s: string, separator: char)
    ensures Join(Split(s, separator), separator) == s
  {
    if s != "" {
      var rest := Split(s[1..], separator);
      JoinOfSplit(s[1..], separator);
      if s[0] == separator {
        assert ([""] + rest)[1..] == rest;
      } else {
        var parts := [[s[0]] + rest[0]] + rest[1..];
        assert parts[1..] == rest[1..];
        assert Join(parts, separator) == [s[0]] + Join(rest, separator);
      }
    }
  }

  lemma {:induction false} SplitOfFree(s: string, rest: string, separator: char)
    requires separator !in s
    ensures Split(s, separator) == [s]
    ensures Split(s + [separator] + rest, separator) == [s] + Split(rest, separator)
  {
    var whole := s + [separator] + rest;
    if s == "" {
      assert whole[1..] == rest;
    } else {
      assert whole[1..] == s[1..] + [separator] + rest;
      SplitOfFree(s[1..], rest, separator);
      assert s == [s[0]] + s[1..];
    }
  }

  /** Joining and splitting again is the identity on parts without the separator. */
  lemma {:induction false} SplitOfJoin(parts: seq<string>, separator: char)
    requires parts != [] && Free(parts, separator)
    ensures Split(Join(parts, separator), separator) == parts
  {
    if |parts| == 1 {
      SplitOfFree(parts[0], "", separator);
    } else {
      SplitOfJoin(parts[1..], separator);
      SplitOfFree(parts[0], Join(parts[1..], separator), separator);
    }
  }

  lemma {:induction false} SplitConcat(s: string, rest: string, separator: char)
    ensures Split(s + [separator] + rest, separator) == Split(s, separator) + Split(rest, separator)
  {
    var whole := s + [separator] + rest;
    if s == "" {
      assert whole[1..] == rest;
    } else {
      assert whole[1..] == s[1..] + [separator] + rest;
      SplitConcat(s[1..], rest, separator);
    }
  }

  lemma {:induction false} JoinHas(parts: seq<string>, separator: char, c: char)
    requires c != separator
    ensures c in Join(parts, separator) <==> exists i :: 0 <= i < |parts| && c in parts[i]
  {
    if |parts| == 1 {
      assert c in parts[0] <==> exists i :: 0 <= i < |parts| && c in parts[i];
    } else if parts != [] {
      JoinHas(parts[1..], separator, c);
      if exists i :: 0 <= i < |parts| && c in parts[i] {
        var i :| 0 <= i < |parts| && c in parts[i];
        if i > 0 { assert c in parts[1..][i - 1]; }
      }
    }
  }

  // ------------------------------------------------------------------ newlines

  predicate EndsWithCr(line: string)
  {
    line != "" && line[|line| - 1] == '\r'
  }

  /** One CR at the end removed. */
  function StripCr(line: string): string
  {
    if EndsWithCr(line) then line[..|line| - 1] else line
  }

  /** Replace every CR LF by LF. */
  function CrlfToLf(s: string): string
  {
    if s == "" then ""
    else if |s| >= 2 && s[0] == '\r' && s[1] == '\n' then "\n" + CrlfToLf(s[2..])
    else [s[0]] + CrlfToLf(s[1..])
  }

  /** Replace every CR by LF. */
  function CrToLf(s: string): string
  {
    if s == "" then "" else [if s[0] == '\r' then '\n' else s[0]] + CrToLf(s[1..])
  }

  /** Replace every LF by CR LF. */
  function LfToCrlf(s: string): string
  {
    if s == "" then "" else (if s[0] == '\n' then "\r\n" else [s[0]]) + LfToCrlf(s[1..])
  }

  /** normalizeNewlines: CR LF, then any CR left, to LF. */
  function Normalize(s: string): string
  {
    CrToLf(CrlfToLf(s))
  }

  lemma {:induction false} CrToLfHasNoCr(s: string)
    ensures '\r' !in CrToLf(s)
  {
    if s != "" {
      CrToLfHasNoCr(s[1..]);
    }
  }

  lemma {:induction false} NormalizeWithoutCr(s: string)
    requires '\r' !in s
    ensures CrlfToLf(s) == s && CrToLf(s) == s
  {
    if s != "" {
      NormalizeWithoutCr(s[1..]);
      assert s == [s[0]] + s[1..];
    }
  }

  lemma {:induction false} CrlfUndone(s: string)
    ensures CrlfToLf(LfToCrlf(s)) == s
  {
    if s != "" {
      var t := LfToCrlf(s);
      CrlfUndone(s[1..]);
      if s[0] == '\n' {
        assert t[2..] == LfToCrlf(s[1..]);
      } else {
        assert t[1..] == LfToCrlf(s[1..]);
      }
      assert s == [s[0]] + s[1..];
    }
  }

  predicate CrlfAt(s: string, i: nat)
  {
    i + 1 < |s| && s[i] == '\r' && s[i + 1] == '\n'
  }

  lemma {:induction false} ContainsCrlf(s: string)
    ensures Contains(s, "\r\n") <==> exists i: nat :: CrlfAt(s, i)
  {
    if s != "" {
      var t := s[1..];
      ContainsCrlf(t);
      assert forall i: nat :: CrlfAt(t, i) ==> CrlfAt(s, i + 1);
      assert forall i: nat :: CrlfAt(s, i) && i > 0 ==> CrlfAt(t, i - 1);
      assert CrlfAt(s, 0) <==> "\r\n" <= s;
    }
  }

  /** Every LF has a CR before it. */
  predicate AllCrlf(s: string)
  {
    forall i :: 0 <= i < |s| && s[i] == '\n' ==> i > 0 && s[i - 1] == '\r'
  }

  /** Every CR has an LF after it. */
  predicate NoBareCr(s: string)
  {
    forall i :: 0 <= i < |s| && s[i] == '\r' ==> i + 1 < |s| && s[i + 1] == '\n'
  }

  lemma {:induction false} LfToCrlfStyle(s: string)
    ensures AllCrlf(LfToCrlf(s)) && ('\r' !in s ==> NoBareCr(LfToCrlf(s)))
  {
    if s != "" {
      var rest := LfToCrlf(s[1..]);
      LfToCrlfStyle(s[1..]);
      var head := if s[0] == '\n' then "\r\n" else [s[0]];
      var t := LfToCrlf(s);
      assert t == head + rest;
      assert forall i :: |head| <= i < |t| ==> t[i] == rest[i - |head|];
    }
  }

  /** Text without CR survives being written in CR LF style and normalised. */
  lemma NormalizeOfCrlf(s: string)
    requires '\r' !in s
    ensures Normalize(LfToCrlf(s)) == s && Normalize(s) == s
  {
    CrlfUndone(s);
    NormalizeWithoutCr(s);
  }

  /** Normalising does not look across a line end. */
  lemma {:induction false} NormalizeLine(line: string, rest: string, crlf: bool) returns (p: string)
    requires '\n' !in line
    ensures Normalize(line + (if crlf then "\r\n" else "\n") + rest) == p + "\n" + Normalize(rest)
    ensures '\r' !in line ==> p == line
  {
    var end := if crlf then "\r\n" else "\n";
    var whole := line + end + rest;
    if line == "" {
      p := "";
      assert whole[|end|..] == rest;
      assert CrlfToLf(whole) == "\n" + CrlfToLf(rest);
    } else if !crlf && line == "\r" {
      p := "";
      assert whole[2..] == rest;
    } else {
      var more := NormalizeLine(line[1..], rest, crlf);
      p := [if line[0] == '\r' then '\n' else line[0]] + more;
      assert whole[1..] == line[1..] + end + rest;
      assert whole[1] != '\n' || line[0] != '\r';
      assert CrlfToLf(whole) == [line[0]] + CrlfToLf(whole[1..]);
    }
  }

  lemma {:induction false} LfToCrlfLine(line: string, rest: string)
    requires '\n' !in line
    ensures LfToCrlf(line) == line && LfToCrlf(line + "\n" + rest) == line + "\r\n" + LfToCrlf(rest)
  {
    var whole := line + "\n" + rest;
    if line == "" {
      assert whole[1..] == rest;
    } else {
      assert whole[1..] == line[1..] + "\n" + rest;
      LfToCrlfLine(line[1..], rest);
    }
  }

  function Styled(s: string, crlf: bool): string
  {
    if crlf then LfToCrlf(s) else s
  }

  /** A line without CR is still a line after writing in either style and normalising. */
  lemma {:induction false} LineSurvives(lines: seq<string>, k: nat, crlf: bool)
    requires Free(lines, '\n') && k < |lines| && '\r' !in lines[k]
    ensures lines[k] in Split(Normalize(Styled(Join(lines, '\n'), crlf)), '\n')
  {
    hide CrlfToLf, CrToLf;
    if |lines| == 1 {
      LfToCrlfLine(lines[0], "");
      NormalizeWithoutCr(lines[0]);
      SplitOfFree(lines[0], "", '\n');
    } else {
      var rest := Join(lines[1..], '\n');
      LfToCrlfLine(lines[0], rest);
      var p := NormalizeLine(lines[0], Styled(rest, crlf), crlf);
      SplitConcat(p, Normalize(Styled(rest, crlf)), '\n');
      if k > 0 {
        LineSurvives(lines[1..], k - 1, crlf);
      } else {
        SplitOfFree(lines[0], "", '\n');
      }
    }
  }
}
