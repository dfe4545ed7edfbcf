/** Python's `str(k)` on a natural number, Python's ordering of strings
    (code point by code point, a proper prefix first), and `list.sort()` on a
    list of paths, which the combiners use to fix the order they read in. */
module Strings {

  function Digit(d: nat): (c: char)
    requires d < 10
    ensures '0' <= c <= '9'
  {
    ('0' as int + d) as char
  }

  /** `str(n)`: decimal digits, most significant first, no padding. */
  function NatToString(n: nat): (s: string)
    ensures 1 <= |s|
    ensures forall i :: 0 <= i < |s| ==> '0' <= s[i] <= '9'
  {
    if n < 10 then [Digit(n)] else NatToString(n / 10) + [Digit(n % 10)]
  }

  /** Distinct numbers have distinct decimal spellings. */
  lemma {:induction false} NatToStringInjective(a: nat, b: nat)
    requires NatToString(a) == NatToString(b)
    ensures a == b
  {
    var s := NatToString(a);
    if a < 10 && b < 10 {
      assert s[0] == Digit(a) && s[0] == Digit(b);
    } else if a >= 10 && b >= 10 {
      var t := NatToString(b);
      assert s == NatToString(a / 10) + [Digit(a % 10)];
      assert t == NatToString(b / 10) + [Digit(b % 10)];
      assert s[|s| - 1] == Digit(a % 10) && t[|t| - 1] == Digit(b % 10);
      assert NatToString(a / 10) == s[..|s| - 1] == t[..|t| - 1] == NatToString(b / 10);
      NatToStringInjective(a / 10, b / 10);
    }
  }

  /** Python's `a <= b` on strings. */
  predicate StrLe(a: string, b: string)
    decreases |a|
  {
    if a == [] then true
    else if b == [] then false
    else if a[0] != b[0] then a[0] < b[0]
    else StrLe(a[1..], b[1..])
  }

  /** Python's `a < b` on strings. */
  predicate StrLt(a: string, b: string)
  {
    StrLe(a, b) && a != b
  }

  lemma {:induction false} StrLeTotal(a: string, b: string)
    ensures StrLe(a, b) || StrLe(b, a)
    decreases |a|
  {
    if a != [] && b != [] && a[0] == b[0] {
      StrLeTotal(a[1..], b[1..]);
    }
  }

  lemma {:induction false} StrLeAntisymmetric(a: string, b: string)
    requires StrLe(a, b) && StrLe(b, a)
    ensures a == b
    decreases |a|
  {
    if a != [] && b != [] {
      StrLeAntisymmetric(a[1..], b[1..]);
      assert a == [a[0]] + a[1..] && b == [b[0]] + b[1..];
    }
  }

  lemma {:induction false} StrLeTransitive(a: string, b: string, c: string)
    requires StrLe(a, b) && StrLe(b, c)
    ensures StrLe(a, c)
    decreases |a|
  {
    if a != [] && b != [] && c != [] && a[0] == b[0] && b[0] == c[0] {
      StrLeTransitive(a[1..], b[1..], c[1..]);
    }
  }

  /** Paired entries, ascending by their path. */
  ghost predicate SortedByName<T>(s: seq<(string, T)>)
  {
    forall i, j :: 0 <= i < j < |s| ==> StrLe(s[i].0, s[j].0)
  }

  function Insert<T(==)>(x: (string, T), s: seq<(string, T)>): (r: seq<(string, T)>)
    requires SortedByName(s)
    ensures SortedByName(r)
    ensures multiset(r) == multiset(s) + multiset{x}
  {
    if s == [] then [x]
    else if StrLe(x.0, s[0].0) then
      assert forall j :: 1 <= j < |s| ==> StrLe(s[0].0, s[j].0);
      forall j | 0 <= j < |s| ensures StrLe(x.0, s[j].0) {
        if j > 0 { StrLeTransitive(x.0, s[0].0, s[j].0); }
      }
      [x] + s
    else
      StrLeTotal(x.0, s[0].0);
      var rest := Insert(x, s[1..]);
      assert s == [s[0]] + s[1..];
      assert forall j :: 0 <= j < |rest| ==> StrLe(s[0].0, rest[j].0) by {
        forall j | 0 <= j < |rest| ensures StrLe(s[0].0, rest[j].0) {
          assert rest[j] in multiset(rest);
          assert rest[j] in multiset(s[1..]) || rest[j] == x;
          if rest[j] != x {
            var k :| 0 <= k < |s[1..]| && s[1..][k] == rest[j];
            assert s[k + 1] == rest[j];
          }
        }
      }
      [s[0]] + rest
  }

  /** `list.sort()` on (path, contents) pairs: ascending by path, same entries. */
  function SortByName<T(==)>(s: seq<(string, T)>): (r: seq<(string, T)>)
    ensures SortedByName(r)
    ensures multiset(r) == multiset(s)
  {
    if s == [] then []
    else
      assert s == [s[0]] + s[1..];
      Insert(s[0], SortByName(s[1..]))
  }

  /** In a sorted list of distinct paths, a strictly smaller path comes first. */
  lemma SortedPositions<T>(s: seq<(string, T)>, i: nat, j: nat)
    requires SortedByName(s)
    requires i < |s| && j < |s|
    requires StrLt(s[i].0, s[j].0)
    ensures i < j
  {
    if j <= i {
      if j < i {
        StrLeAntisymmetric(s[i].0, s[j].0);
      }
    }
  }
}
