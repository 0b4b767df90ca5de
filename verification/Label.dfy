/**
 Agent display labels.  A name is the sequence of runes that ranging over it yields,
 so an invalid byte is already the replacement character.
 */
module Label {
  import opened Text

  const MAX_AGENT_NAME_LEN := 128

  /** unicode.IsControl: the C0 and C1 ranges. */
  predicate IsControl(c: char)
  {
    c <= '\U{001F}' || '\U{007F}' <= c <= '\U{009F}'
  }

  /** The runes that do not reach a label: the replacement character and controls that are not space. */
  predicate Dropped(c: char)
  {
    c == '\U{FFFD}' || (IsControl(c) && !IsSpace(c))
  }

  // --------------------------------------------------------------- declarative

  function Clean(s: string): string
  {
    if s == "" then "" else if Dropped(s[0]) then Clean(s[1..]) else [s[0]] + Clean(s[1..])
  }

  /** The length of the part before the first space. */
  function WordLength(s: string): (n: nat)
    ensures n <= |s| && (n < |s| ==> IsSpace(s[n]))
    ensures forall i :: 0 <= i < n ==> !IsSpace(s[i])
  {
    if s == "" || IsSpace(s[0]) then 0 else 1 + WordLength(s[1..])
  }

  /** The words between whitespace. */
  function Fields(s: string): seq<string>
    decreases |s|
  {
    if s == "" then []
    else if IsSpace(s[0]) then Fields(s[1..])
    else [s[..WordLength(s)]] + Fields(s[WordLength(s)..])
  }

  /** The words of a name with one space between them. */
  function Phrase(name: string): string
  {
    Join(Fields(Clean(name)), ' ')
  }

  function LabelOf(name: string): string
  {
    var phrase := Phrase(name);
    if |phrase| > MAX_AGENT_NAME_LEN then TrimSpace(phrase[..MAX_AGENT_NAME_LEN]) else phrase
  }

  // ---------------------------------------------------------------- the one pass

  /** What the loop has still to write, given its flag. */
  function Rest(lastSpace: bool, s: string): string
    decreases |s|
  {
    if s == "" then ""
    else if Dropped(s[0]) then Rest(lastSpace, s[1..])
    else if IsSpace(s[0]) then (if lastSpace then "" else " ") + Rest(true, s[1..])
    else [s[0]] + Rest(false, s[1..])
  }

  /** SanitizeAgentName. */
  method SanitizeAgentName(name: string) returns (out: string)
    ensures out == LabelOf(name)
  {
    hide TrimSpace, Rest, LabelOf, Phrase, IsSpace, IsControl;
    var trimmed := TrimSpace(name);
    OnePass(name);
    if trimmed == "" {
      return "";
    }
    var b := "";
    var lastSpace := false;
    for i := 0 to |trimmed|
      invariant b + Rest(lastSpace, trimmed[i..]) == Rest(false, trimmed)
    {
      var r := trimmed[i];
      RestStep(lastSpace, trimmed, i);
      if r == '\U{FFFD}' {
        continue;
      } else if IsSpace(r) {
        if !lastSpace {
          b := b + " ";
          lastSpace := true;
        }
      } else if IsControl(r) {
        continue;
      } else {
        b := b + [r];
        lastSpace := false;
      }
    }
    RestOfNothing(lastSpace, trimmed);
    assert b == Rest(false, trimmed);
    out := TrimSpace(b);
    if |out| > MAX_AGENT_NAME_LEN {
      out := TrimSpace(out[..MAX_AGENT_NAME_LEN]);
    }
  }

  lemma RestOfNothing(lastSpace: bool, s: string)
    ensures s[|s|..] == "" && Rest(lastSpace, "") == ""
  {
  }

  lemma RestStep(lastSpace: bool, s: string, i: nat)
    requires i < |s|
    ensures s[0..] == s
    ensures var r, rest := s[i], s[i + 1..];
            Rest(lastSpace, s[i..]) ==
            if r == '\U{FFFD}' then Rest(lastSpace, rest)
            else if IsSpace(r) then (if lastSpace then "" else " ") + Rest(true, rest)
            else if IsControl(r) then Rest(lastSpace, rest)
            else [r] + Rest(false, rest)
  {
    hide IsSpace, IsControl;
    assert s[i..][1..] == s[i + 1..];
    SpaceIsNotReplacement();
  }

  lemma SpaceIsNotReplacement()
    ensures !IsSpace('\U{FFFD}') && IsSpace(' ') && !Dropped(' ')
  {
  }

  // ------------------------------------------------------- the pass finds the words

  ghost predicate NoneDropped(s: string)
  {
    forall i :: 0 <= i < |s| ==> !Dropped(s[i])
  }

  lemma {:induction false} RestOfClean(lastSpace: bool, s: string)
    ensures NoneDropped(Clean(s)) && Rest(lastSpace, s) == Rest(lastSpace, Clean(s))
    decreases |s|
  {
    hide IsSpace, Dropped;
    if s != "" {
      RestOfClean(lastSpace, s[1..]);
      RestOfClean(true, s[1..]);
      RestOfClean(false, s[1..]);
      assert !Dropped(s[0]) ==> Clean(s)[1..] == Clean(s[1..]);
    }
  }

  lemma RuneFirst(lastSpace: bool, t: string)
    requires NoneDropped(t) && t != "" && !IsSpace(t[0])
    ensures Rest(lastSpace, t) == [t[0]] + Rest(false, t[1..]) && WordLength(t) == 1 + WordLength(t[1..])
    ensures NoneDropped(t[1..])
  {
    hide IsSpace, Dropped;
  }

  lemma {:induction false} WordFirst(lastSpace: bool, t: string)
    requires NoneDropped(t) && t != "" && !IsSpace(t[0])
    ensures Rest(lastSpace, t) == t[..WordLength(t)] + Rest(false, t[WordLength(t)..])
    decreases |t|
  {
    hide IsSpace, Dropped, Rest, NoneDropped, WordLength;
    RuneFirst(lastSpace, t);
    var n := WordLength(t);
    if n > 1 {
      WordFirst(false, t[1..]);
      assert t[1..][..n - 1] == t[1..n] && t[1..][n - 1..] == t[n..];
      assert t[..n] == [t[0]] + t[1..n];
    } else {
      assert t[..n] == [t[0]];
    }
  }

  lemma {:induction false} NoFields(t: string)
    ensures Fields(t) == [] <==> forall i :: 0 <= i < |t| ==> IsSpace(t[i])
    decreases |t|
  {
    hide IsSpace;
    if t != "" && IsSpace(t[0]) {
      NoFields(t[1..]);
      assert t == [t[0]] + t[1..];
    }
  }

  function Tail(t: string): string
  {
    if Fields(t) != [] && IsSpace(t[|t| - 1]) then " " else ""
  }

  lemma SpaceFirst(t: string)
    requires NoneDropped(t) && t != "" && IsSpace(t[0])
    ensures Rest(true, t) == Rest(true, t[1..]) && Rest(false, t) == " " + Rest(true, t[1..])
    ensures Fields(t) == Fields(t[1..]) && Tail(t) == Tail(t[1..])
  {
    hide IsSpace, Dropped;
  }

  lemma FieldsFirst(t: string)
    requires t != "" && !IsSpace(t[0])
    ensures WordLength(t) > 0 && Fields(t) == [t[..WordLength(t)]] + Fields(t[WordLength(t)..])
  {
    hide IsSpace;
  }

  lemma TailIff(t: string)
    ensures Tail(t) == if Fields(t) != [] && IsSpace(t[|t| - 1]) then " " else ""
    ensures Fields("") == []
  {
  }

  lemma WordThenRest(t: string)
    requires t != "" && !IsSpace(t[0])
    ensures var n := WordLength(t);
            && (n == |t| ==> Fields(t) == [t] && Tail(t) == "")
            && (n < |t| ==> IsSpace(t[n]) && Fields(t) == [t[..n]] + Fields(t[n..]))
            && (n < |t| && Fields(t[n..]) != [] ==> Tail(t) == Tail(t[n..]))
            && (n < |t| && Fields(t[n..]) == [] ==> Tail(t) == " ")
  {
    hide IsSpace, Fields, Tail, WordLength;
    var n := WordLength(t);
    FieldsFirst(t);
    TailIff(t);
    if n == |t| {
      assert t[..n] == t && t[n..] == "";
    } else {
      var rest := t[n..];
      TailIff(rest);
      assert rest[|rest| - 1] == t[|t| - 1];
      if Fields(rest) == [] {
        NoFields(rest);
      }
    }
  }

  /** After a space, the loop writes the words joined by single spaces, and one more space if the text ends in one. */
  lemma {:induction false} AfterSpace(t: string)
    requires NoneDropped(t)
    ensures Rest(true, t) == Join(Fields(t), ' ') + Tail(t)
    decreases |t|
  {
    hide IsSpace, Dropped, Rest, Fields, Tail, Join, WordLength;
    if t == "" {
      NothingLeft();
    } else if IsSpace(t[0]) {
      SpaceFirst(t);
      AfterSpace(t[1..]);
    } else {
      var n := WordLength(t);
      WordFirst(true, t);
      WordThenRest(t);
      if n == |t| {
        NothingLeft();
        JoinOne(t);
        assert t[..n] == t && t[n..] == "";
      } else {
        var u := t[n..];
        SpaceFirst(u);
        AfterSpace(u[1..]);
        JoinMore(t[..n], Fields(u));
        NothingJoined(u);
      }
    }
  }

  lemma NothingLeft()
    ensures Rest(true, "") == "" && Rest(false, "") == "" && Fields("") == [] && Tail("") == "" && Join([], ' ') == ""
  {
  }

  lemma NothingJoined(u: string)
    ensures Fields(u) == [] ==> Join(Fields(u), ' ') == "" && Tail(u) == ""
  {
  }

  lemma JoinOne(word: string)
    ensures Join([word], ' ') == word
  {
  }

  lemma JoinMore(word: string, words: seq<string>)
    ensures Join([word] + words, ' ') == if words == [] then word else word + " " + Join(words, ' ')
  {
    assert ([word] + words)[1..] == words;
  }

  // ------------------------------------------------------------------ neat phrases

  /** No space at the ends or doubled, no whitespace but the plain space, and nothing that is dropped. */
  ghost predicate Neat(s: string)
  {
    && (forall i :: 0 <= i < |s| ==> !Dropped(s[i]) && (IsSpace(s[i]) ==> s[i] == ' '))
    && (s != "" ==> !IsSpace(s[0]) && !IsSpace(s[|s| - 1]))
    && (forall i :: 0 <= i < |s| - 1 ==> IsSpace(s[i]) ==> !IsSpace(s[i + 1]))
  }

  ghost predicate Word(w: string)
  {
    w != "" && forall i :: 0 <= i < |w| ==> !IsSpace(w[i]) && !Dropped(w[i])
  }

  lemma {:induction false} FieldsAreWords(t: string)
    requires NoneDropped(t)
    ensures forall k :: 0 <= k < |Fields(t)| ==> Word(Fields(t)[k])
    decreases |t|
  {
    hide IsSpace, Dropped;
    if t != "" {
      FieldsAreWords(if IsSpace(t[0]) then t[1..] else t[WordLength(t)..]);
    }
  }

  lemma {:induction false} JoinIsNeat(words: seq<string>)
    requires forall k :: 0 <= k < |words| ==> Word(words[k])
    ensures Neat(Join(words, ' ')) && (words != [] ==> Join(words, ' ') != "")
  {
    hide IsSpace, Dropped;
    SpaceIsNotReplacement();
    if |words| > 1 {
      JoinIsNeat(words[1..]);
      NeatAppend(words[0], Join(words[1..], ' '));
    }
  }

  lemma NeatAppend(w: string, s: string)
    requires Word(w) && Neat(s) && s != ""
    ensures Neat(w + " " + s)
  {
    hide IsSpace, Dropped;
    SpaceIsNotReplacement();
    var r := w + " " + s;
    forall i | 0 <= i < |r| ensures r[i] == if i < |w| then w[i] else if i == |w| then ' ' else s[i - |w| - 1] {
    }
  }

  lemma PhraseIsNeat(name: string)
    ensures Neat(Phrase(name))
  {
    hide Neat, Clean, Fields, Join;
    RestOfClean(false, name);
    FieldsAreWords(Clean(name));
    JoinIsNeat(Fields(Clean(name)));
  }

  /** Trimming a neat text with a space before or after it. */
  lemma TrimPadded(before: bool, s: string, after: bool)
    requires Neat(s) && (s == "" ==> !after)
    ensures TrimSpace((if before then " " else "") + s + (if after then " " else "")) == s
  {
    hide IsSpace, Dropped;
    SpaceIsNotReplacement();
    var r := (if before then " " else "") + s + (if after then " " else "");
    var t := s + if after then " " else "";
    assert before ==> r[1..] == t;
    assert TrimLeft(r) == t;
    assert after ==> t[..|t| - 1] == s;
    assert TrimRight(s) == s;
    assert TrimRight(t) == s;
  }

  /** The pass over a text, trimmed, is the text's words joined by single spaces. */
  lemma TrimmedPass(t: string)
    ensures TrimSpace(Rest(false, t)) == Phrase(t)
  {
    hide IsSpace, Dropped, Rest, Fields, Tail, Join, WordLength, TrimSpace, Neat, Clean;
    RestOfClean(false, t);
    var c := Clean(t);
    PhraseIsNeat(t);
    TailIs(c);
    AfterSpace(c);
    if c == "" {
      NothingLeft();
      TrimPadded(false, Phrase(t), false);
    } else if IsSpace(c[0]) {
      SpaceFirst(c);
      assert Rest(false, c) == " " + Phrase(t) + Tail(c);
      TrimPadded(true, Phrase(t), Tail(c) == " ");
    } else {
      WordFirst(false, c);
      WordFirst(true, c);
      assert Rest(false, c) == "" + Phrase(t) + Tail(c);
      TrimPadded(false, Phrase(t), Tail(c) == " ");
    }
  }

  lemma TailIs(t: string)
    requires NoneDropped(t)
    ensures Tail(t) == "" || Tail(t) == " "
    ensures Join(Fields(t), ' ') == "" ==> Tail(t) == ""
  {
    hide IsSpace, Dropped, Fields, Join;
    FieldsAreWords(t);
    JoinIsNeat(Fields(t));
  }

  // --------------------------------------------------------- trimming the name first

  lemma {:induction false} CleanSnoc(s: string, c: char)
    ensures Clean(s + [c]) == Clean(s) + if Dropped(c) then "" else [c]
    decreases |s|
  {
    hide Dropped;
    if s != "" {
      assert (s + [c])[1..] == s[1..] + [c];
      CleanSnoc(s[1..], c);
    }
  }

  lemma {:induction false} FieldsSnoc(t: string, c: char)
    requires IsSpace(c)
    ensures Fields(t + [c]) == Fields(t)
    decreases |t|
  {
    hide IsSpace;
    if t != "" {
      if IsSpace(t[0]) {
        assert (t + [c])[1..] == t[1..] + [c];
        FieldsSnoc(t[1..], c);
      } else {
        var n := WordLength(t);
        SameWord(t, c);
        assert (t + [c])[..n] == t[..n] && (t + [c])[n..] == t[n..] + [c];
        FieldsSnoc(t[n..], c);
      }
    }
  }

  lemma {:induction false} SameWord(t: string, c: char)
    requires IsSpace(c)
    ensures WordLength(t + [c]) == WordLength(t)
    decreases |t|
  {
    hide IsSpace;
    if t != "" && !IsSpace(t[0]) {
      assert (t + [c])[1..] == t[1..] + [c];
      SameWord(t[1..], c);
    }
  }

  lemma SpaceIsKept(c: char)
    requires IsSpace(c)
    ensures !Dropped(c)
  {
  }

  lemma {:induction false} TrimLeftKeeps(s: string)
    ensures Phrase(TrimLeft(s)) == Phrase(s)
    decreases |s|
  {
    hide IsSpace, Dropped, Join;
    if s != "" && IsSpace(s[0]) {
      SpaceIsKept(s[0]);
      TrimLeftKeeps(s[1..]);
      assert Clean(s)[1..] == Clean(s[1..]);
    }
  }

  lemma {:induction false} TrimRightKeeps(s: string)
    ensures Phrase(TrimRight(s)) == Phrase(s)
    decreases |s|
  {
    hide IsSpace, Dropped, Join, Fields, Clean;
    if s != "" && IsSpace(s[|s| - 1]) {
      var prefix, c := s[..|s| - 1], s[|s| - 1];
      assert s == prefix + [c];
      SpaceIsKept(c);
      CleanSnoc(prefix, c);
      FieldsSnoc(Clean(prefix), c);
      TrimRightKeeps(prefix);
    }
  }

  lemma OnePass(name: string)
    ensures TrimSpace(Rest(false, TrimSpace(name))) == Phrase(name)
    ensures TrimSpace(name) == "" ==> Phrase(name) == ""
    ensures LabelOf(name) ==
            if |Phrase(name)| > MAX_AGENT_NAME_LEN then TrimSpace(Phrase(name)[..MAX_AGENT_NAME_LEN]) else Phrase(name)
  {
    hide TrimLeft, TrimRight, Rest, Phrase;
    TrimLeftKeeps(name);
    TrimRightKeeps(TrimLeft(name));
    TrimmedPass(TrimSpace(name));
    EmptyPhrase();
  }

  lemma EmptyPhrase()
    ensures Phrase("") == ""
  {
  }

  // ------------------------------------------------------------------- normal form

  /** A prefix of a neat text, trimmed, is neat and no longer. */
  lemma NeatPrefix(s: string, n: nat)
    requires Neat(s) && 0 < n <= |s|
    ensures Neat(TrimSpace(s[..n])) && |TrimSpace(s[..n])| <= n
  {
    hide IsSpace, Dropped;
    var p := s[..n];
    assert TrimLeft(p) == p;
    if IsSpace(p[n - 1]) {
      assert n > 1 && !IsSpace(s[n - 2]);
      assert TrimRight(p) == p[..n - 1];
      assert p[..n - 1] == s[..n - 1];
    }
  }

  /** Every label is neat and within the bound. */
  lemma LabelIsNeat(name: string)
    ensures Neat(LabelOf(name)) && |LabelOf(name)| <= MAX_AGENT_NAME_LEN
  {
    hide Neat, Phrase, TrimSpace;
    PhraseIsNeat(name);
    if |Phrase(name)| > MAX_AGENT_NAME_LEN {
      NeatPrefix(Phrase(name), MAX_AGENT_NAME_LEN);
    }
  }

  lemma {:induction false} NeatRest(lastSpace: bool, s: string)
    requires forall i :: 0 <= i < |s| ==> !Dropped(s[i]) && (IsSpace(s[i]) ==> s[i] == ' ')
    requires forall i :: 0 <= i < |s| - 1 ==> IsSpace(s[i]) ==> !IsSpace(s[i + 1])
    requires s != "" && lastSpace ==> !IsSpace(s[0])
    ensures Rest(lastSpace, s) == s
    decreases |s|
  {
    hide IsSpace, Dropped;
    if s != "" {
      assert s == [s[0]] + s[1..];
      assert forall i :: 0 <= i < |s[1..]| ==> s[1..][i] == s[i + 1];
      assert |s| > 1 && IsSpace(s[0]) ==> !IsSpace(s[0 + 1]);
      NeatRest(IsSpace(s[0]), s[1..]);
    }
  }

  /** A neat text within the bound is its own label; so labelling is idempotent. */
  lemma NeatIsLabel(s: string)
    requires Neat(s) && |s| <= MAX_AGENT_NAME_LEN
    ensures LabelOf(s) == s
  {
    hide IsSpace, Dropped, Phrase, Rest, TrimSpace;
    NeatRest(false, s);
    TrimmedPass(s);
    TrimPadded(false, s, false);
    assert "" + s + "" == s;
  }

  lemma LabelIsIdempotent(name: string)
    ensures LabelOf(LabelOf(name)) == LabelOf(name)
  {
    hide LabelOf, Neat;
    LabelIsNeat(name);
    NeatIsLabel(LabelOf(name));
  }
}
