/**
 The order on release versions: a comparison of three parts by length and then by
 bytes, which never reads a number, against the order on triples of natural numbers.
 */
module Semver {
  import opened Text
  import opened Ordering

  // -------------------------------------------------------------------- numerals

  predicate Digits(s: string)
  {
    forall i :: 0 <= i < |s| ==> '0' <= s[i] <= '9'
  }

  /** A numeral without leading zeros: 0 or [1-9]\d*. */
  predicate Canonical(s: string)
  {
    s != "" && Digits(s) && (s[0] == '0' ==> |s| == 1)
  }

  function Ten(n: nat): (r: nat)
    ensures r > 0
  {
    if n == 0 then 1 else 10 * Ten(n - 1)
  }

  function Value(s: string): nat
    requires Digits(s)
  {
    if s == "" then 0 else (s[0] as int - '0' as int) * Ten(|s| - 1) + Value(s[1..])
  }

  lemma {:induction false} ValueBelow(s: string)
    requires Digits(s)
    ensures Value(s) < Ten(|s|)
  {
    if s != "" {
      ValueBelow(s[1..]);
      DigitTimes(s[0] as int - '0' as int, Ten(|s| - 1));
    }
  }

  lemma DigitTimes(d: int, t: nat)
    requires 0 <= d <= 9
    ensures 0 <= d * t <= 9 * t && (d > 0 ==> d * t >= t)
  {
  }

  lemma {:induction false} TenGrows(a: nat, b: nat)
    requires a <= b
    ensures Ten(a) <= Ten(b)
  {
    if a < b {
      TenGrows(a, b - 1);
    }
  }

  /** A longer canonical numeral is the greater one. */
  lemma LongerIsGreater(a: string, b: string)
    requires Canonical(a) && Canonical(b) && |a| > |b|
    ensures Value(a) > Value(b)
  {
    ValueBelow(b);
    TenGrows(|b|, |a| - 1);
    DigitTimes(a[0] as int - '0' as int, Ten(|a| - 1));
  }

  lemma DigitGap(d: int, e: int, t: nat)
    requires d < e
    ensures d * t + t <= e * t
  {
    assert (e - d) * t >= t by { assert e - d >= 1; }
  }

  /** Digits of one length compare bytewise as their values do. */
  lemma {:induction false} BytewiseIsNumeric(a: string, b: string)
    requires Digits(a) && Digits(b) && |a| == |b|
    ensures Less(a, b) <==> Value(a) < Value(b)
    ensures Value(a) == Value(b) ==> a == b
  {
    if a != "" {
      var d, e, t := a[0] as int - '0' as int, b[0] as int - '0' as int, Ten(|a| - 1);
      BytewiseIsNumeric(a[1..], b[1..]);
      ValueBelow(a[1..]);
      ValueBelow(b[1..]);
      if d < e {
        DigitGap(d, e, t);
      } else if e < d {
        DigitGap(e, d, t);
      } else {
        assert a == [a[0]] + a[1..] && b == [b[0]] + b[1..];
      }
    }
  }

  /** The comparison of one part: by length, then by bytes. */
  predicate PartGreater(a: string, b: string)
  {
    if |a| != |b| then |a| > |b| else Less(b, a)
  }

  lemma PartIsNumeric(a: string, b: string)
    requires Canonical(a) && Canonical(b)
    ensures PartGreater(a, b) <==> Value(a) > Value(b)
    ensures Value(a) == Value(b) <==> a == b
  {
    if |a| > |b| {
      LongerIsGreater(a, b);
    } else if |a| < |b| {
      LongerIsGreater(b, a);
    } else {
      BytewiseIsNumeric(b, a);
    }
  }

  // -------------------------------------------------------------------- versions

  /** The canonical MAJOR.MINOR.PATCH pattern. */
  predicate IsSemver(s: string)
  {
    var parts := Split(s, '.');
    |parts| == 3 && Canonical(parts[0]) && Canonical(parts[1]) && Canonical(parts[2])
  }

  datatype Version = Version(major: nat, minor: nat, patch: nat)

  function Parse(s: string): Version
    requires IsSemver(s)
  {
    var parts := Split(s, '.');
    Version(Value(parts[0]), Value(parts[1]), Value(parts[2]))
  }

  /** Precedence of versions without pre-release: major, then minor, then patch, numerically. */
  predicate Newer(a: Version, b: Version)
  {
    || a.major > b.major
    || (a.major == b.major && a.minor > b.minor)
    || (a.major == b.major && a.minor == b.minor && a.patch > b.patch)
  }

  lemma DigitsAreFree(s: string)
    requires Canonical(s)
    ensures '.' !in s
  {
  }

  predicate Dotted(s: string, a: string, b: string, c: string)
  {
    Canonical(a) && Canonical(b) && Canonical(c) && s == a + "." + b + "." + c
  }

  /** The pattern accepts exactly three canonical numerals with two dots between them. */
  lemma SemverIff(s: string)
    ensures IsSemver(s) <==> exists a, b, c :: Dotted(s, a, b, c)
  {
    if IsSemver(s) {
      var parts := Split(s, '.');
      JoinOfSplit(s, '.');
      assert parts == [parts[0], parts[1], parts[2]];
      assert Join([parts[1], parts[2]], '.') == parts[1] + "." + parts[2];
      assert Dotted(s, parts[0], parts[1], parts[2]);
    }
    if a, b, c :| Dotted(s, a, b, c) {
      SemverShape(a, b, c);
    }
  }

  lemma SemverShape(a: string, b: string, c: string)
    requires Canonical(a) && Canonical(b) && Canonical(c)
    ensures IsSemver(a + "." + b + "." + c)
    ensures Parse(a + "." + b + "." + c) == Version(Value(a), Value(b), Value(c))
  {
    hide Split;
    DigitsAreFree(a);
    DigitsAreFree(b);
    DigitsAreFree(c);
    SplitOfFree(c, "", '.');
    SplitOfFree(b, c, '.');
    SplitOfFree(a, b + "." + c, '.');
    assert a + "." + b + "." + c == a + ['.'] + (b + "." + c);
    assert b + "." + c == b + ['.'] + c;
  }

  /** Two canonical versions with the same numbers are the same string. */
  lemma ParseIsInjective(a: string, b: string)
    requires IsSemver(a) && IsSemver(b) && Parse(a) == Parse(b)
    ensures a == b
  {
    hide Split;
    var p, q := Split(a, '.'), Split(b, '.');
    PartIsNumeric(p[0], q[0]);
    PartIsNumeric(p[1], q[1]);
    PartIsNumeric(p[2], q[2]);
    assert p == q;
    JoinOfSplit(a, '.');
    JoinOfSplit(b, '.');
  }

  /** semverGreater. */
  method SemverGreater(candidate: string, published: string) returns (r: bool)
    requires IsSemver(candidate) && IsSemver(published)
    ensures r <==> Newer(Parse(candidate), Parse(published))
  {
    hide Split, Canonical, Value, Less;
    var candidateParts := Split(candidate, '.');
    var publishedParts := Split(published, '.');
    for i := 0 to 3
      invariant forall k :: 0 <= k < i ==> candidateParts[k] == publishedParts[k]
    {
      PartIsNumeric(candidateParts[i], publishedParts[i]);
      PartGreaterIs(candidateParts[i], publishedParts[i]);
      if |candidateParts[i]| != |publishedParts[i]| {
        return |candidateParts[i]| > |publishedParts[i]|;
      }
      if candidateParts[i] != publishedParts[i] {
        return Less(publishedParts[i], candidateParts[i]);
      }
    }
    return false;
  }

  lemma PartGreaterIs(a: string, b: string)
    ensures PartGreater(a, b) <==> if |a| != |b| then |a| > |b| else Less(b, a)
  {
  }

  /** So on canonical strings the comparison is a strict total order. */
  lemma NewerIsTotalOrder(a: string, b: string, c: string)
    requires IsSemver(a) && IsSemver(b) && IsSemver(c)
    ensures !Newer(Parse(a), Parse(a))
    ensures Newer(Parse(a), Parse(b)) && Newer(Parse(b), Parse(c)) ==> Newer(Parse(a), Parse(c))
    ensures Newer(Parse(a), Parse(b)) || Newer(Parse(b), Parse(a)) || a == b
    ensures !(Newer(Parse(a), Parse(b)) && Newer(Parse(b), Parse(a)))
  {
    hide IsSemver, Parse;
    if Parse(a) == Parse(b) {
      ParseIsInjective(a, b);
    }
  }

  // ---------------------------------------------------------- future coordinates

  datatype Coordinate = Coordinate(version: string, tag: string, channel: string)

  datatype Problem = NotCanonical | NotNewer | WrongTag | WrongChannel

  /** checkFutureCoordinate. */
  method CheckFutureCoordinate(c: Coordinate, published: string) returns (problems: seq<Problem>)
    ensures problems == [] <==>
            && IsSemver(c.version)
            && (IsSemver(published) ==> Newer(Parse(c.version), Parse(published)))
            && c.tag == "v" + c.version
            && c.channel == "stable"
    ensures NotCanonical in problems <==> !IsSemver(c.version)
    ensures NotNewer in problems <==>
            IsSemver(c.version) && IsSemver(published) && !Newer(Parse(c.version), Parse(published))
    ensures WrongTag in problems <==> c.tag != "v" + c.version
    ensures WrongChannel in problems <==> c.channel != "stable"
  {
    hide *;
    problems := [];
    if !IsSemver(c.version) {
      problems := problems + [NotCanonical];
    } else if IsSemver(published) {
      var greater := SemverGreater(c.version, published);
      if !greater {
        problems := problems + [NotNewer];
      }
    }
    if c.tag != "v" + c.version {
      problems := problems + [WrongTag];
    }
    if c.channel != "stable" {
      problems := problems + [WrongChannel];
    }
  }
}
