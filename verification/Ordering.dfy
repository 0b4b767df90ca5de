/** The bytewise order on strings, and sorting by a string key. */
module Ordering {

  predicate Less(a: string, b: string)
  {
    if b == "" then false
    else if a == "" then true
    else if a[0] != b[0] then a[0] < b[0]
    else Less(a[1..], b[1..])
  }

  lemma {:induction false} LessIsTotal(a: string, b: string)
    ensures Less(a, b) || Less(b, a) || a == b
    ensures !(Less(a, b) && Less(b, a)) && !Less(a, a)
  {
    if a != "" && b != "" && a[0] == b[0] {
      LessIsTotal(a[1..], b[1..]);
      assert a == [a[0]] + a[1..] && b == [b[0]] + b[1..];
    }
    if a != "" {
      LessIsTotal(a[1..], a[1..]);
    }
  }

  lemma {:induction false} LessIsTransitive(a: string, b: string, c: string)
    requires Less(a, b) && Less(b, c)
    ensures Less(a, c)
  {
    if a != "" && a[0] == b[0] == c[0] {
      LessIsTransitive(a[1..], b[1..], c[1..]);
    }
  }

  /** No element is below the one before it. */
  predicate Sorted(keys: seq<string>)
  {
    forall i :: 0 < i < |keys| ==> !Less(keys[i], keys[i - 1])
  }

  predicate StrictlySorted(keys: seq<string>)
  {
    forall i :: 0 < i < |keys| ==> Less(keys[i - 1], keys[i])
  }

  function Insert(x: string, s: seq<string>): seq<string>
  {
    if s == [] || !Less(s[0], x) then [x] + s else [s[0]] + Insert(x, s[1..])
  }

  /** sort.Strings. */
  function Sort(s: seq<string>): seq<string>
  {
    if s == [] then [] else Insert(s[0], Sort(s[1..]))
  }

  lemma {:induction false} InsertKeeps(x: string, s: seq<string>)
    ensures multiset(Insert(x, s)) == multiset(s) + multiset{x}
    ensures Insert(x, s) != [] && (Insert(x, s)[0] == x || (s != [] && Insert(x, s)[0] == s[0]))
  {
    if s != [] && Less(s[0], x) {
      InsertKeeps(x, s[1..]);
      assert s == [s[0]] + s[1..];
    }
  }

  lemma {:induction false} InsertSorts(x: string, s: seq<string>)
    requires StrictlySorted(s) && x !in s
    ensures StrictlySorted(Insert(x, s))
  {
    if s == [] {
    } else if !Less(s[0], x) {
      LessIsTotal(s[0], x);
      var r := [x] + s;
      assert forall i :: 1 <= i < |r| ==> r[i] == s[i - 1];
    } else {
      assert forall i :: 0 <= i < |s[1..]| ==> s[1..][i] == s[i + 1];
      InsertSorts(x, s[1..]);
      InsertKeeps(x, s[1..]);
      var rest := Insert(x, s[1..]);
      var r := [s[0]] + rest;
      assert Less(s[0], rest[0]);
      assert forall i :: 1 <= i < |r| ==> r[i] == rest[i - 1];
    }
  }

  predicate NoRepeats(s: seq<string>)
  {
    forall i, j :: 0 <= i < j < |s| ==> s[i] != s[j]
  }

  lemma {:induction false} SortKeeps(s: seq<string>)
    ensures multiset(Sort(s)) == multiset(s)
    ensures forall x :: x in Sort(s) <==> x in s
  {
    if s != [] {
      SortKeeps(s[1..]);
      InsertKeeps(s[0], Sort(s[1..]));
      assert s == [s[0]] + s[1..];
    }
    assert forall x :: x in Sort(s) <==> x in multiset(Sort(s));
  }

  /** Sorting distinct strings orders them strictly. */
  lemma {:induction false} SortSorts(s: seq<string>)
    requires NoRepeats(s)
    ensures StrictlySorted(Sort(s))
  {
    if s != [] {
      SortSorts(s[1..]);
      SortKeeps(s[1..]);
      InsertSorts(s[0], Sort(s[1..]));
    }
  }

  lemma {:induction false} StrictOrder(s: seq<string>, i: nat, j: nat)
    requires StrictlySorted(s) && i < j < |s|
    ensures Less(s[i], s[j])
    decreases j
  {
    if i < j - 1 {
      StrictOrder(s, i, j - 1);
      LessIsTransitive(s[i], s[j - 1], s[j]);
    }
  }

  /** Strictly sorted strings are sorted and do not repeat. */
  lemma StrictIsSorted(s: seq<string>)
    requires StrictlySorted(s)
    ensures Sorted(s) && NoRepeats(s)
  {
    forall i | 0 < i < |s| ensures !Less(s[i], s[i - 1]) {
      LessIsTotal(s[i - 1], s[i]);
    }
    forall i, j | 0 <= i < j < |s| ensures s[i] != s[j] {
      StrictOrder(s, i, j);
      LessIsTotal(s[i], s[j]);
    }
  }
}
