/** The JavaScript string operations the catalog page relies on: the default
    `Array.prototype.sort` comparison and `String(n)` for integers. */
module JsStrings {

  /** The default sort order of `Array.prototype.sort` on strings:
      lexicographic by character code, a proper prefix first. */
  predicate Before(a: string, b: string)
    decreases |a|
  {
    if |b| == 0 then false
    else if |a| == 0 then true
    else if a[0] != b[0] then a[0] < b[0]
    else Before(a[1..], b[1..])
  }

  lemma {:induction false} BeforeIrreflexive(a: string)
    ensures !Before(a, a)
    decreases |a|
  {
    if |a| > 0 {
      BeforeIrreflexive(a[1..]);
    }
  }

  lemma {:induction false} BeforeTransitive(a: string, b: string, c: string)
    requires Before(a, b) && Before(b, c)
    ensures Before(a, c)
    decreases |a|
  {
    if |a| > 0 && a[0] == b[0] && b[0] == c[0] {
      BeforeTransitive(a[1..], b[1..], c[1..]);
    }
  }

  lemma {:induction false} BeforeTotal(a: string, b: string)
    requires a != b
    ensures Before(a, b) || Before(b, a)
    decreases |a|
  {
    if |a| > 0 && |b| > 0 && a[0] == b[0] {
      assert a == [a[0]] + a[1..] && b == [b[0]] + b[1..];
      BeforeTotal(a[1..], b[1..]);
    }
  }

  /** Strictly ascending in the default sort order, hence free of duplicates. */
  predicate Ascending(r: seq<string>)
  {
    forall i, j | 0 <= i < j < |r| :: Before(r[i], r[j])
  }

  /** Adds `x` to an ascending list unless it is already there. */
  function InsertAscending(x: string, r: seq<string>): (t: seq<string>)
    requires Ascending(r)
    ensures Ascending(t)
    ensures forall y :: y in t <==> y == x || y in r
  {
    if |r| == 0 then [x]
    else if x == r[0] then r
    else if Before(x, r[0]) then
      assert forall j | 0 <= j < |r| :: Before(x, r[j]) by {
        forall j | 0 < j < |r| ensures Before(x, r[j]) {
          BeforeTransitive(x, r[0], r[j]);
        }
      }
      [x] + r
    else
      BeforeTotal(x, r[0]);
      var tail := InsertAscending(x, r[1..]);
      assert forall y | y in tail :: Before(r[0], y) by {
        forall y | y in tail ensures Before(r[0], y) {
          if y != x {
            var j :| 0 <= j < |r[1..]| && r[1..][j] == y;
            assert r[j + 1] == y;
          }
        }
      }
      assert Ascending([r[0]] + tail) by {
        forall i, j | 0 <= i < j < |[r[0]] + tail|
          ensures Before(([r[0]] + tail)[i], ([r[0]] + tail)[j])
        {
          assert ([r[0]] + tail)[j] == tail[j - 1];
          assert tail[j - 1] in tail;
          if i > 0 {
            assert ([r[0]] + tail)[i] == tail[i - 1];
          }
        }
      }
      assert r == [r[0]] + r[1..];
      [r[0]] + tail
  }

  /** `Array.from(new Set(xs)).sort()`: the distinct values of `xs`, ascending. */
  function SortedDistinct(xs: seq<string>): (r: seq<string>)
    ensures Ascending(r)
    ensures forall y :: y in r <==> y in xs
  {
    if |xs| == 0 then []
    else
      assert xs == xs[..|xs| - 1] + [xs[|xs| - 1]];
      InsertAscending(xs[|xs| - 1], SortedDistinct(xs[..|xs| - 1]))
  }

  /** An ascending list has no repeated entry. */
  lemma AscendingDistinct(r: seq<string>, i: int, j: int)
    requires Ascending(r)
    requires 0 <= i < j < |r|
    ensures r[i] != r[j]
  {
    BeforeIrreflexive(r[i]);
  }

  function DigitChar(d: nat): (c: char)
    requires d < 10
    ensures '0' <= c <= '9'
    ensures DigitValue(c) == d
  {
    "0123456789"[d]
  }

  /** The value of a decimal digit character. */
  function DigitValue(c: char): nat
    requires '0' <= c <= '9'
  {
    c as int - '0' as int
  }

  /** Every character of `s` is a decimal digit. */
  predicate AllDigits(s: string)
  {
    forall i | 0 <= i < |s| :: '0' <= s[i] <= '9'
  }

  /** The number a string of decimal digits denotes, most significant first. */
  function DecimalValue(s: string): nat
    requires AllDigits(s)
  {
    if |s| == 0 then 0
    else DecimalValue(s[..|s| - 1]) * 10 + DigitValue(s[|s| - 1])
  }

  /** The decimal digits of `n`, most significant first, without leading
      zeros; they denote `n`. */
  function NatToDecimal(n: nat): (r: string)
    ensures |r| > 0 && AllDigits(r)
    ensures |r| > 1 ==> r[0] != '0'
    ensures DecimalValue(r) == n
    decreases n
  {
    if n < 10 then [DigitChar(n)]
    else
      var r := NatToDecimal(n / 10) + [DigitChar(n % 10)];
      assert r[..|r| - 1] == NatToDecimal(n / 10);
      r
  }

  /** `String(n)` for an integer `n`: a `-` for a negative number, then the
      digits of its magnitude. */
  function IntToString(n: int): (r: string)
    ensures |r| > 0
    ensures n < 0 <==> r[0] == '-'
    ensures n >= 0 ==> AllDigits(r) && DecimalValue(r) == n
    ensures n < 0 ==> |r| > 1 && AllDigits(r[1..]) && DecimalValue(r[1..]) == -n
    ensures n >= 0 && |r| > 1 ==> r[0] != '0'
    ensures n < 0 && |r| > 2 ==> r[1] != '0'
  {
    if n < 0 then
      var r := "-" + NatToDecimal(-n);
      assert r[1..] == NatToDecimal(-n);
      r
    else NatToDecimal(n)
  }

  /** Distinct integers print differently. */
  lemma IntToStringInjective(a: int, b: int)
    ensures IntToString(a) == IntToString(b) ==> a == b
  {
    if IntToString(a) == IntToString(b) {
      if a < 0 {
        assert IntToString(a)[1..] == IntToString(b)[1..];
      }
    }
  }
}
