/** String helpers shared by every stage: ASCII case mapping, the code-point order the
    sorts use, insertion sort, joining with a separator, and decimal rendering. */
module Text {

  predicate IsAsciiUpper(c: char) { 'A' <= c <= 'Z' }

  predicate IsAsciiLower(c: char) { 'a' <= c <= 'z' }

  function UpperChar(c: char): char {
    if IsAsciiLower(c) then (c as int - 32) as char else c
  }

  function LowerChar(c: char): char {
    if IsAsciiUpper(c) then (c as int + 32) as char else c
  }

  /** Upper-cases the ASCII letters of `s`; everything else is kept. */
  function UpperCase(s: string): (r: string)
    ensures |r| == |s|
    ensures forall i :: 0 <= i < |s| ==> !IsAsciiLower(r[i])
    ensures forall i :: 0 <= i < |s| ==>
      if IsAsciiLower(s[i]) then r[i] as int == s[i] as int - 32 else r[i] == s[i]
  {
    seq(|s|, i requires 0 <= i < |s| => UpperChar(s[i]))
  }

  /** Lower-cases the ASCII letters of `s`; everything else is kept. */
  function LowerCase(s: string): (r: string)
    ensures |r| == |s|
    ensures forall i :: 0 <= i < |s| ==> !IsAsciiUpper(r[i])
    ensures forall i :: 0 <= i < |s| ==>
      if IsAsciiUpper(s[i]) then r[i] as int == s[i] as int + 32 else r[i] == s[i]
  {
    seq(|s|, i requires 0 <= i < |s| => LowerChar(s[i]))
  }

  lemma LowerCaseIdempotent(s: string)
    ensures LowerCase(LowerCase(s)) == LowerCase(s)
  {
  }

  /** Lower-casing brings in no character other than a lower-case letter. */
  /** Text without upper-case ASCII letters is its own lower case. */
  lemma LowerCaseOfLower(s: string)
    requires forall i :: 0 <= i < |s| ==> !IsAsciiUpper(s[i])
    ensures LowerCase(s) == s
  {
  }

  lemma LowerCaseAddsNoOther(s: string, c: char)
    requires !IsAsciiLower(c)
    ensures c in LowerCase(s) ==> c in s
  {
    if c in LowerCase(s) {
      var i :| 0 <= i < |s| && LowerCase(s)[i] == c;
      assert s[i] == c;
    }
  }

  /** Two texts, each followed by a rest that is empty or starts with a character of
      `stops`, split the same way when neither text holds such a character. */
  lemma SplitBefore(a1: string, r1: string, a2: string, r2: string, stops: set<char>)
    requires forall i :: 0 <= i < |a1| ==> a1[i] !in stops
    requires forall i :: 0 <= i < |a2| ==> a2[i] !in stops
    requires r1 == "" || r1[0] in stops
    requires r2 == "" || r2[0] in stops
    requires a1 + r1 == a2 + r2
    ensures a1 == a2 && r1 == r2
  {
    FirstInIs(a1 + r1, stops, |a1|);
    FirstInIs(a2 + r2, stops, |a2|);
    assert a1 == (a1 + r1)[..|a1|] && r1 == (a1 + r1)[|a1|..];
    assert a2 == (a2 + r2)[..|a2|] && r2 == (a2 + r2)[|a2|..];
  }

  /** The position of the first character of `x` in `stops`, or `|x|` when there is
      none. */
  function FirstIn(x: string, stops: set<char>): (i: nat)
    ensures i <= |x| && (i < |x| ==> x[i] in stops)
    ensures forall j :: 0 <= j < i ==> x[j] !in stops
  {
    if |x| == 0 || x[0] in stops then 0 else 1 + FirstIn(x[1..], stops)
  }

  lemma FirstInIs(x: string, stops: set<char>, i: nat)
    requires i <= |x| && (i < |x| ==> x[i] in stops)
    requires forall j :: 0 <= j < i ==> x[j] !in stops
    ensures FirstIn(x, stops) == i
  {
  }

  // ---------------------------------------------------------------------------
  // Lexicographic order by code point. For UTF-8 text this is the ascending
  // byte-value order RFC 5849 asks for; on ASCII it is JavaScript's sort order.

  predicate Le(a: string, b: string)
    decreases |a|
  {
    |a| == 0 || (|b| > 0 && (a[0] < b[0] || (a[0] == b[0] && Le(a[1..], b[1..]))))
  }

  lemma {:induction false} LeReflexive(a: string)
    ensures Le(a, a)
    decreases |a|
  {
    if |a| > 0 {
      LeReflexive(a[1..]);
    }
  }

  lemma {:induction false} LeTotal(a: string, b: string)
    ensures Le(a, b) || Le(b, a)
    decreases |a|
  {
    if |a| > 0 && |b| > 0 && a[0] == b[0] {
      LeTotal(a[1..], b[1..]);
    }
  }

  lemma {:induction false} LeAntisymmetric(a: string, b: string)
    requires Le(a, b) && Le(b, a)
    ensures a == b
    decreases |a|
  {
    if |a| > 0 && |b| > 0 {
      LeAntisymmetric(a[1..], b[1..]);
    }
  }

  lemma {:induction false} LeTransitive(a: string, b: string, c: string)
    requires Le(a, b) && Le(b, c)
    ensures Le(a, c)
    decreases |a|
  {
    if |a| > 0 && |b| > 0 && |c| > 0 && a[0] == b[0] && b[0] == c[0] {
      LeTransitive(a[1..], b[1..], c[1..]);
    }
  }

  predicate Sorted(xs: seq<string>) {
    forall i, j :: 0 <= i < j < |xs| ==> Le(xs[i], xs[j])
  }

  /** Inserts `x` into the sorted `xs` after every element not above it. */
  function Insert(x: string, xs: seq<string>): (r: seq<string>)
    requires Sorted(xs)
    ensures Sorted(r)
    ensures multiset(r) == multiset(xs) + multiset{x}
  {
    if |xs| == 0 then [x]
    else if Le(x, xs[0]) then
      LeInsertHead(x, xs);
      [x] + xs
    else
      LeTotal(x, xs[0]);
      var tail := Insert(x, xs[1..]);
      InsertConsSorted(xs[0], tail, x, xs[1..]);
      assert xs == [xs[0]] + xs[1..];
      [xs[0]] + tail
  }

  lemma LeInsertHead(x: string, xs: seq<string>)
    requires Sorted(xs) && |xs| > 0 && Le(x, xs[0])
    ensures Sorted([x] + xs)
  {
    var r := [x] + xs;
    forall i, j | 0 <= i < j < |r|
      ensures Le(r[i], r[j])
    {
      if i == 0 && j > 1 {
        LeTransitive(x, xs[0], xs[j - 1]);
      }
    }
  }

  lemma InsertConsSorted(h: string, tail: seq<string>, x: string, rest: seq<string>)
    requires Sorted([h] + rest) && Sorted(tail) && Le(h, x)
    requires multiset(tail) == multiset(rest) + multiset{x}
    ensures Sorted([h] + tail)
  {
    var r := [h] + tail;
    forall i, j | 0 <= i < j < |r|
      ensures Le(r[i], r[j])
    {
      if i == 0 {
        var t := tail[j - 1];
        assert t in multiset(tail);
        if t != x {
          assert t in multiset(rest);
          var k :| 0 <= k < |rest| && rest[k] == t;
          assert ([h] + rest)[0] == h && ([h] + rest)[k + 1] == t;
        }
      }
    }
  }

  /** Insertion sort: the elements of `xs`, in ascending order. */
  function SortStrings(xs: seq<string>): (r: seq<string>)
    ensures Sorted(r)
    ensures multiset(r) == multiset(xs)
    ensures |r| == |xs|
  {
    if |xs| == 0 then []
    else
      assert xs == [xs[0]] + xs[1..];
      Insert(xs[0], SortStrings(xs[1..]))
  }

  // ---------------------------------------------------------------------------
  // Joining.

  /** Array.prototype.join: the parts with `sep` between neighbours. */
  function Join(parts: seq<string>, sep: string): string {
    if |parts| == 0 then ""
    else if |parts| == 1 then parts[0]
    else parts[0] + sep + Join(parts[1..], sep)
  }

  /** A join of some parts starts with the first part. */
  lemma JoinStartsWithFirst(parts: seq<string>, sep: string)
    requires |parts| > 0
    ensures parts[0] <= Join(parts, sep) && |parts[0]| <= |Join(parts, sep)|
  {
    if |parts| > 1 {
      assert (parts[0] + sep + Join(parts[1..], sep))[..|parts[0]|] == parts[0];
    }
  }

  lemma JoinPair(a: string, b: string, sep: string)
    ensures Join([a, b], sep) == a + sep + b
  {
    assert [a, b][1..] == [b];
  }

  /** Joining parts free of the one-character separator leaves exactly one separator
      between neighbours. */
  lemma {:induction false} JoinSeparatorCount(parts: seq<string>, x: char)
    requires forall i :: 0 <= i < |parts| ==> x !in parts[i]
    ensures multiset(Join(parts, [x]))[x] == if |parts| == 0 then 0 else |parts| - 1
  {
    if |parts| > 1 {
      JoinSeparatorCount(parts[1..], x);
      assert multiset(parts[0])[x] == 0;
    } else if |parts| == 1 {
      assert multiset(parts[0])[x] == 0;
    }
  }

  /** A character found in no part occurs in the joined text once per separator. */
  lemma {:induction false} JoinCount(parts: seq<string>, sep: string, x: char)
    requires forall i :: 0 <= i < |parts| ==> x !in parts[i]
    ensures multiset(Join(parts, sep))[x] == if |parts| == 0 then 0 else (|parts| - 1) * multiset(sep)[x]
  {
    if |parts| > 1 {
      JoinCount(parts[1..], sep, x);
      assert multiset(parts[0])[x] == 0;
      assert (|parts| - 2) * multiset(sep)[x] + multiset(sep)[x] == (|parts| - 1) * multiset(sep)[x];
    } else if |parts| == 1 {
      assert multiset(parts[0])[x] == 0;
    }
  }

  /** Concatenation is associative; stated once so that proofs over texts built from
      literals need not rediscover it. */
  lemma AppendAssoc(a: string, b: string, c: string)
    ensures (a + b) + c == a + (b + c)
  {
  }

  /** Occurrences add up over concatenation. */
  lemma CountAppend(a: string, b: string, x: char)
    ensures multiset(a + b)[x] == multiset(a)[x] + multiset(b)[x]
  {
  }

  /** The same, for a separator holding that character once. */
  lemma JoinCountOnce(parts: seq<string>, sep: string, x: char)
    requires forall i :: 0 <= i < |parts| ==> x !in parts[i]
    requires multiset(sep)[x] == 1
    ensures multiset(Join(parts, sep))[x] == if |parts| == 0 then 0 else |parts| - 1
  {
    JoinCount(parts, sep, x);
  }

  /** Parts free of a one-character separator are recovered from their join, given
      how many there are. */
  lemma {:induction false} JoinInjective(p: seq<string>, q: seq<string>, x: char)
    requires |p| == |q|
    requires forall i :: 0 <= i < |p| ==> x !in p[i] && x !in q[i]
    requires Join(p, [x]) == Join(q, [x])
    ensures p == q
  {
    if |p| > 1 {
      SplitAtFirst(p[0], Join(p[1..], [x]), q[0], Join(q[1..], [x]), x);
      JoinInjective(p[1..], q[1..], x);
      assert p == [p[0]] + p[1..] && q == [q[0]] + q[1..];
    }
  }

  /** The join is at least as long as its first part. */
  lemma JoinFirst(parts: seq<string>, sep: string)
    requires |parts| > 0
    ensures |Join(parts, sep)| >= |parts[0]|
  {
  }

  /** Index of the first `x` in `s` (|s| when there is none). */
  function IndexOf(s: string, x: char): nat {
    if |s| == 0 || s[0] == x then 0 else 1 + IndexOf(s[1..], x)
  }

  lemma {:induction false} IndexOfFirst(a: string, b: string, x: char)
    requires x !in a
    ensures IndexOf(a + [x] + b, x) == |a|
  {
    if |a| > 0 {
      assert (a + [x] + b)[1..] == a[1..] + [x] + b;
      IndexOfFirst(a[1..], b, x);
    }
  }

  /** A string with one separator splits back into its two sides when the first side
      is free of the separator. */
  lemma SplitAtFirst(a: string, b: string, c: string, d: string, x: char)
    requires x !in a && x !in c
    requires a + [x] + b == c + [x] + d
    ensures a == c && b == d
  {
    var s := a + [x] + b;
    IndexOfFirst(a, b, x);
    IndexOfFirst(c, d, x);
    assert a == s[..|a|] == c;
    assert b == s[|a| + 1..] == d;
  }

  /** The same for three sides and two separators. */
  lemma SplitAtBoth(a: string, b: string, c: string, d: string, e: string, f: string, x: char)
    requires x !in a && x !in b && x !in d && x !in e
    requires a + [x] + b + [x] + c == d + [x] + e + [x] + f
    ensures a == d && b == e && c == f
  {
    assert a + [x] + b + [x] + c == a + [x] + (b + [x] + c);
    assert d + [x] + e + [x] + f == d + [x] + (e + [x] + f);
    SplitAtFirst(a, b + [x] + c, d, e + [x] + f, x);
    SplitAtFirst(b, c, e, f, x);
  }

  // ---------------------------------------------------------------------------
  // Decimal rendering, as JavaScript turns a non-negative integer into a string.

  predicate IsDigit(c: char) { '0' <= c <= '9' }

  function Decimal(n: nat): (r: string)
    ensures |r| >= 1
    ensures forall i :: 0 <= i < |r| ==> IsDigit(r[i])
    ensures n > 0 ==> r[0] != '0'
  {
    var d := ['0' + ((n % 10) as char)];
    if n < 10 then d else Decimal(n / 10) + d
  }

  /** Different numbers have different decimal renderings. */
  lemma {:induction false} DecimalInjective(n: nat, m: nat)
    requires Decimal(n) == Decimal(m)
    ensures n == m
    decreases n
  {
    var dn, dm := Decimal(n), Decimal(m);
    assert dn[|dn| - 1] == '0' + ((n % 10) as char);
    assert dm[|dm| - 1] == '0' + ((m % 10) as char);
    if n >= 10 && m >= 10 {
      assert Decimal(n / 10) == dn[..|dn| - 1];
      assert Decimal(m / 10) == dm[..|dm| - 1];
      DecimalInjective(n / 10, m / 10);
    }
  }

  /** A non-empty run of decimal digits. */
  predicate IsDigits(s: string) {
    s != "" && forall i :: 0 <= i < |s| ==> IsDigit(s[i])
  }

  /** The number a string of decimal digits denotes. */
  function DigitsValue(s: string): nat
    requires forall i :: 0 <= i < |s| ==> IsDigit(s[i])
  {
    if s == "" then 0
    else
      var last := s[|s| - 1];
      assert IsDigit(last);
      DigitsValue(s[..|s| - 1]) * 10 + (last as int - '0' as int)
  }

  /** Reading a decimal rendering back gives the number. */
  lemma {:induction false} DecimalValue(n: nat)
    ensures DigitsValue(Decimal(n)) == n
    decreases n
  {
    var dn := Decimal(n);
    assert dn[|dn| - 1] == '0' + ((n % 10) as char);
    if n >= 10 {
      assert dn[..|dn| - 1] == Decimal(n / 10);
      DecimalValue(n / 10);
    }
  }
}
