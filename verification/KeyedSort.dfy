/** sort.Slice by a string key. */
module KeyedSort {
  import opened Ordering

  function InsertBy<T>(key: T -> string, x: T, s: seq<T>): seq<T>
    decreases |s|
  {
    if s == [] || !Less(key(s[0]), key(x)) then [x] + s else [s[0]] + InsertBy(key, x, s[1..])
  }

  function SortBy<T>(key: T -> string, s: seq<T>): seq<T>
    decreases |s|
  {
    if s == [] then [] else InsertBy(key, s[0], SortBy(key, s[1..]))
  }

  ghost predicate StrictBy<T>(key: T -> string, s: seq<T>)
  {
    forall i, j :: 0 <= i < j < |s| ==> Less(key(s[i]), key(s[j]))
  }

  ghost predicate DistinctBy<T>(key: T -> string, s: seq<T>)
  {
    forall i, j :: 0 <= i < j < |s| ==> key(s[i]) != key(s[j])
  }

  lemma {:induction false} InsertByKeeps<T>(key: T -> string, x: T, s: seq<T>)
    ensures multiset(InsertBy(key, x, s)) == multiset(s) + multiset{x}
    decreases |s|
  {
    hide Less;
    if s != [] && Less(key(s[0]), key(x)) {
      InsertByKeeps(key, x, s[1..]);
      assert s == [s[0]] + s[1..];
    }
  }

  lemma {:induction false} SortByKeeps<T>(key: T -> string, s: seq<T>)
    ensures multiset(SortBy(key, s)) == multiset(s)
    decreases |s|
  {
    hide InsertBy;
    if s != [] {
      SortByKeeps(key, s[1..]);
      InsertByKeeps(key, s[0], SortBy(key, s[1..]));
      assert s == [s[0]] + s[1..];
    }
  }

  lemma SameMember<T>(a: seq<T>, b: seq<T>, x: T)
    requires multiset(a) == multiset(b) && x in a
    ensures x in b
  {
    assert x in multiset(a);
  }

  lemma {:induction false} InsertByOrders<T>(key: T -> string, x: T, s: seq<T>)
    requires StrictBy(key, s) && forall y :: y in s ==> key(y) != key(x)
    ensures StrictBy(key, InsertBy(key, x, s))
    decreases |s|
  {
    hide Less;
    if s != [] {
      LessIsTotal(key(s[0]), key(x));
      if Less(key(s[0]), key(x)) {
        var rest := InsertBy(key, x, s[1..]);
        InsertByOrders(key, x, s[1..]);
        InsertByKeeps(key, x, s[1..]);
        forall i | 0 <= i < |rest| ensures Less(key(s[0]), key(rest[i])) {
          assert rest[i] in multiset(rest);
          assert rest[i] == x || rest[i] in s[1..];
        }
      } else {
        forall i | 1 <= i < |s| ensures Less(key(x), key(s[i])) {
          LessIsTransitive(key(x), key(s[0]), key(s[i]));
        }
      }
    }
  }

  /** Distinct keys come out in strict order. */
  lemma {:induction false} SortByOrders<T>(key: T -> string, s: seq<T>)
    requires DistinctBy(key, s)
    ensures StrictBy(key, SortBy(key, s))
    decreases |s|
  {
    hide InsertBy;
    if s != [] {
      SortByOrders(key, s[1..]);
      SortByKeeps(key, s[1..]);
      forall y | y in SortBy(key, s[1..]) ensures key(y) != key(s[0]) {
        SameMember(SortBy(key, s[1..]), s[1..], y);
        var i :| 1 <= i < |s| && s[i] == y;
      }
      InsertByOrders(key, s[0], SortBy(key, s[1..]));
    }
  }

  lemma SameHead<T>(key: T -> string, a: seq<T>, b: seq<T>)
    requires StrictBy(key, a) && StrictBy(key, b) && a != [] && b != [] && a[0] in b && b[0] in a
    ensures a[0] == b[0]
  {
    hide Less;
    var i :| 0 <= i < |a| && a[i] == b[0];
    var j :| 0 <= j < |b| && b[j] == a[0];
    LessIsTotal(key(a[0]), key(b[0]));
  }

  lemma TailMembers<T>(s: seq<T>)
    requires s != []
    ensures multiset(s[1..]) == multiset(s) - multiset{s[0]}
  {
    assert s == [s[0]] + s[1..];
  }

  /** There is one strict order of given elements. */
  lemma {:induction false} StrictIsUnique<T>(key: T -> string, a: seq<T>, b: seq<T>)
    requires StrictBy(key, a) && StrictBy(key, b) && multiset(a) == multiset(b)
    ensures a == b
    decreases |a|
  {
    hide StrictBy;
    assert |a| == |multiset(a)| == |multiset(b)| == |b|;
    if a != [] {
      SameMember(a, b, a[0]);
      SameMember(b, a, b[0]);
      SameHead(key, a, b);
      TailMembers(a);
      TailMembers(b);
      TailStrict(key, a);
      TailStrict(key, b);
      StrictIsUnique(key, a[1..], b[1..]);
      assert a == [a[0]] + a[1..] && b == [b[0]] + b[1..];
    }
  }

  lemma TailStrict<T>(key: T -> string, s: seq<T>)
    requires s != [] && StrictBy(key, s)
    ensures StrictBy(key, s[1..])
  {
    hide Less;
  }

  /** So sorting by distinct keys does not depend on the order of its input. */
  lemma SortByIsCanonical<T>(key: T -> string, a: seq<T>, b: seq<T>)
    requires DistinctBy(key, a) && DistinctBy(key, b) && multiset(a) == multiset(b)
    ensures SortBy(key, a) == SortBy(key, b)
  {
    SortByOrders(key, a);
    SortByOrders(key, b);
    SortByKeeps(key, a);
    SortByKeeps(key, b);
    StrictIsUnique(key, SortBy(key, a), SortBy(key, b));
  }
}
