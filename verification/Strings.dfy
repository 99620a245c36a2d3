/** The two string facilities of the JavaScript runtime the view state leans on:
    the default `Array.prototype.sort` (lexicographic order of characters) and
    `String(n)` for an integer id (its decimal numeral). */
module Strings {

  import opened Seqs

  /** a comes strictly before b in lexicographic character order. */
  predicate Below(a: string, b: string)
  {
    if a == [] then b != []
    else if b == [] then false
    else if a[0] != b[0] then a[0] < b[0]
    else Below(a[1..], b[1..])
  }

  predicate AtMost(a: string, b: string)
  {
    a == b || Below(a, b)
  }

  lemma {:induction false} BelowTotal(a: string, b: string)
    ensures a == b || Below(a, b) || Below(b, a)
  {
    if a != [] && b != [] && a[0] == b[0] {
      BelowTotal(a[1..], b[1..]);
      if a[1..] == b[1..] {
        assert a == [a[0]] + a[1..] && b == [b[0]] + b[1..];
      }
    }
  }

  lemma {:induction false} BelowIrreflexive(a: string)
    ensures !Below(a, a)
  {
    if a != [] {
      BelowIrreflexive(a[1..]);
    }
  }

  lemma {:induction false} BelowTransitive(a: string, b: string, c: string)
    requires Below(a, b) && Below(b, c)
    ensures Below(a, c)
  {
    if a != [] && a[0] == b[0] && b[0] == c[0] {
      BelowTransitive(a[1..], b[1..], c[1..]);
    }
  }

  lemma AtMostTransitive(a: string, b: string, c: string)
    requires AtMost(a, b) && AtMost(b, c)
    ensures AtMost(a, c)
  {
    if a != b && b != c {
      BelowTransitive(a, b, c);
    }
  }

  predicate Sorted(s: seq<string>)
  {
    forall i, j :: 0 <= i < j < |s| ==> AtMost(s[i], s[j])
  }

  /** Puts x in front of the first element of s it does not exceed. */
  function Insert(x: string, s: seq<string>): seq<string>
  {
    if s == [] then [x]
    else if AtMost(x, s[0]) then [x] + s
    else [s[0]] + Insert(x, s[1..])
  }

  /** Inserting into a sorted sequence keeps it sorted and adds exactly x. */
  lemma {:induction false} InsertSorted(x: string, s: seq<string>)
    requires Sorted(s)
    ensures Sorted(Insert(x, s))
    ensures multiset(Insert(x, s)) == multiset(s) + multiset{x}
  {
    if s == [] {
    } else if AtMost(x, s[0]) {
      forall j | 0 < j < |s| ensures AtMost(x, s[j]) {
        AtMostTransitive(x, s[0], s[j]);
      }
    } else {
      var t := Insert(x, s[1..]);
      InsertSorted(x, s[1..]);
      assert s == [s[0]] + s[1..];
      BelowTotal(x, s[0]);
      LeadBelowAll(s[0], x, s[1..], t);
    }
  }

  /** A lower bound of x and of a sorted tail bounds the sequence the tail becomes with x. */
  lemma LeadBelowAll(h: string, x: string, tail: seq<string>, t: seq<string>)
    requires AtMost(h, x)
    requires forall j :: 0 <= j < |tail| ==> AtMost(h, tail[j])
    requires multiset(t) == multiset(tail) + multiset{x}
    requires Sorted(t)
    ensures Sorted([h] + t)
  {
    forall j | 0 <= j < |t| ensures AtMost(h, t[j]) {
      assert t[j] in multiset(t);
      if t[j] != x {
        assert t[j] in multiset(tail);
        var k :| 0 <= k < |tail| && tail[k] == t[j];
      }
    }
    var r := [h] + t;
    forall i, j | 0 <= i < j < |r| ensures AtMost(r[i], r[j]) {
      if i > 0 {
        assert r[i] == t[i - 1] && r[j] == t[j - 1];
      } else {
        assert r[j] == t[j - 1];
      }
    }
  }

  /** `xs.sort()` with the default comparator: the same strings, in ascending order. */
  function Sort(s: seq<string>): (r: seq<string>)
    ensures Sorted(r)
    ensures multiset(r) == multiset(s)
  {
    if s == [] then []
    else
      assert s == [s[0]] + s[1..];
      var rest := Sort(s[1..]);
      InsertSorted(s[0], rest);
      Insert(s[0], rest)
  }

  /** A sorted sequence without duplicates is strictly ascending. */
  lemma SortedDistinctAscends(s: seq<string>)
    requires Sorted(s)
    requires NoDup(s)
    ensures forall i, j :: 0 <= i < j < |s| ==> Below(s[i], s[j])
  {
  }

  function DigitChar(d: nat): (c: char)
    requires d < 10
    ensures '0' <= c <= '9'
    ensures c as int - '0' as int == d
  {
    ('0' as int + d) as char
  }

  /** The decimal numeral of n, most significant digit first, without leading zeros. */
  function NatDigits(n: nat): (s: string)
    ensures (|s| == 1) == (n < 10) && |s| >= 1
    ensures forall i :: 0 <= i < |s| ==> '0' <= s[i] <= '9'
    decreases n
  {
    if n < 10 then [DigitChar(n)] else NatDigits(n / 10) + [DigitChar(n % 10)]
  }

  /** `String(n)` for an integer n: a minus sign for negative n, then the digits of |n|. */
  function DecimalString(n: int): (s: string)
    ensures |s| >= 1
    ensures (s[0] == '-') == (n < 0)
  {
    if n < 0 then "-" + NatDigits(-n) else NatDigits(n)
  }

  lemma {:induction false} NatDigitsInjective(a: nat, b: nat)
    requires NatDigits(a) == NatDigits(b)
    ensures a == b
    decreases a
  {
    if a >= 10 {
      var s := NatDigits(a);
      assert NatDigits(a / 10) == s[..|s| - 1] == NatDigits(b / 10);
      NatDigitsInjective(a / 10, b / 10);
      assert DigitChar(a % 10) == s[|s| - 1] == DigitChar(b % 10);
    }
  }

  /** Distinct integers have distinct numerals, so comparing `String(x) === String(y)`
      on integer ids is comparing the ids. */
  lemma DecimalStringInjective(a: int, b: int)
    ensures DecimalString(a) == DecimalString(b) <==> a == b
  {
    if DecimalString(a) == DecimalString(b) {
      if a < 0 {
        assert NatDigits(-a) == DecimalString(a)[1..] == DecimalString(b)[1..] == NatDigits(-b);
        NatDigitsInjective(-a, -b);
      } else {
        NatDigitsInjective(a, b);
      }
    }
  }
}
