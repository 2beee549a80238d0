/** String rules the converter relies on: Python's `startswith`/`endswith`,
    `s.split(c)[-1]`, and the zero-padded decimal format `f"{n:03d}"`. */
module Text {

  /** `s.startswith(p)` */
  predicate StartsWith(s: string, p: string) {
    |p| <= |s| && s[..|p|] == p
  }

  /** `s.endswith(suffix)` */
  predicate EndsWith(s: string, suffix: string) {
    |suffix| <= |s| && s[|s| - |suffix|..] == suffix
  }

  /** `s.split(c)[-1]`: the text after the last occurrence of `c`, or all of
      `s` when `c` does not occur. It is a suffix of `s` free of `c`; the
      lemmas below show it is the longest one. */
  function AfterLast(s: string, c: char): (r: string)
    ensures EndsWith(s, r)
    ensures c !in r
    decreases |s|
  {
    if s == [] then []
    else if s[|s| - 1] == c then []
    else
      var init, last := s[..|s| - 1], s[|s| - 1];
      var prefix := AfterLast(init, c);
      assert s == init + [last];
      assert init[|init| - |prefix|..] == prefix;
      assert s[|s| - |prefix| - 1..] == prefix + [last];
      prefix + [last]
  }

  /** The suffix `AfterLast` returns is all of `s` or starts right after a
      `c`. */
  lemma {:induction false} AfterLastBoundary(s: string, c: char)
    ensures var r := AfterLast(s, c);
      r == s || s[|s| - |r| - 1] == c
    decreases |s|
  {
    if s != [] && s[|s| - 1] != c {
      var init := s[..|s| - 1];
      AfterLastBoundary(init, c);
      var prefix := AfterLast(init, c);
      if prefix == init {
        assert s == init + [s[|s| - 1]];
      } else {
        assert s[|s| - |prefix| - 2] == init[|init| - |prefix| - 1];
      }
    }
  }

  /** Without any `c`, `split(c)[-1]` is the whole string. */
  lemma AfterLastAbsent(s: string, c: char)
    requires c !in s
    ensures AfterLast(s, c) == s
  {
    AfterLastBoundary(s, c);
  }

  /** The text after a `c` that is followed by no other `c` is what
      `split(c)[-1]` returns. */
  lemma {:induction false} AfterLastAppend(x: string, c: char, t: string)
    requires c !in t
    ensures AfterLast(x + [c] + t, c) == t
  {
    var s := x + [c] + t;
    if t != [] {
      assert s[..|s| - 1] == x + [c] + t[..|t| - 1];
      assert s[|s| - 1] == t[|t| - 1];
      AfterLastAppend(x, c, t[..|t| - 1]);
      assert t[..|t| - 1] + [t[|t| - 1]] == t;
    }
  }

  /** Once a `c` occurs in `x`, nothing before `x` matters to
      `split(c)[-1]`. */
  lemma {:induction false} AfterLastInTail(a: string, x: string, c: char)
    requires c in x
    ensures AfterLast(a + x, c) == AfterLast(x, c)
  {
    var s := a + x;
    var init := x[..|x| - 1];
    if x[|x| - 1] != c {
      assert s[|s| - 1] == x[|x| - 1];
      assert s[..|s| - 1] == a + init;
      assert x == init + [x[|x| - 1]];
      AfterLastInTail(a, init, c);
    }
  }

  /** A string whose characters are all decimal digits. */
  predicate IsDigits(s: string) {
    forall i :: 0 <= i < |s| ==> '0' <= s[i] <= '9'
  }

  /** The number a digit string denotes (leading zeros allowed). */
  function DecimalValue(s: string): nat
    requires IsDigits(s)
  {
    if s == [] then 0
    else DecimalValue(s[..|s| - 1]) * 10 + (s[|s| - 1] as int - '0' as int)
  }

  /** The shortest decimal spelling of `n`, as `str(n)` gives it. */
  function Decimal(n: nat): (r: string)
    ensures 1 <= |r| && IsDigits(r)
    ensures DecimalValue(r) == n
    ensures |r| == 1 <==> n < 10
    ensures |r| == 1 || r[0] != '0'
  {
    if n < 10 then [('0' as int + n) as char]
    else
      var r := Decimal(n / 10) + [('0' as int + n % 10) as char];
      assert r[..|r| - 1] == Decimal(n / 10);
      r
  }

  function Zeros(k: nat): (r: string)
    ensures |r| == k && IsDigits(r)
  {
    if k == 0 then "" else "0" + Zeros(k - 1)
  }

  /** Leading zeros do not change the value of a digit string. */
  lemma {:induction false} LeadingZeros(k: nat, s: string)
    requires IsDigits(s)
    ensures IsDigits(Zeros(k) + s) && DecimalValue(Zeros(k) + s) == DecimalValue(s)
  {
    if s == [] {
      assert Zeros(k) + s == Zeros(k);
      ZerosValue(k);
    } else {
      var t := Zeros(k) + s;
      assert t[..|t| - 1] == Zeros(k) + s[..|s| - 1];
      LeadingZeros(k, s[..|s| - 1]);
    }
  }

  lemma {:induction false} ZerosValue(k: nat)
    ensures DecimalValue(Zeros(k)) == 0
  {
    if k > 0 {
      var z := Zeros(k);
      assert z[..k - 1] == Zeros(k - 1) by {
        assert z == Zeros(k - 1) + "0" by { ZerosSnoc(k); }
      }
      ZerosValue(k - 1);
    }
  }

  lemma {:induction false} ZerosSnoc(k: nat)
    requires k > 0
    ensures Zeros(k) == Zeros(k - 1) + "0"
  {
    if k > 1 {
      ZerosSnoc(k - 1);
    }
  }

  /** `f"{n:0{width}d}"` for a non-negative `n`: the decimal spelling of `n`
      left-padded with zeros to at least `width` characters. */
  function ZeroPadded(n: nat, width: nat): (r: string)
    ensures IsDigits(r)
    ensures |r| == if |Decimal(n)| < width then width else |Decimal(n)|
    ensures |r| >= width && (|r| > width ==> |r| == 1 || r[0] != '0')
    ensures DecimalValue(r) == n
  {
    var d := Decimal(n);
    if |d| < width then
      LeadingZeros(width - |d|, d);
      Zeros(width - |d|) + d
    else d
  }

  function Pow10(k: nat): nat {
    if k == 0 then 1 else 10 * Pow10(k - 1)
  }

  lemma {:induction false} Pow10AtLeast(k: nat)
    requires 3 <= k
    ensures 1000 <= Pow10(k)
  {
    if k > 3 {
      Pow10AtLeast(k - 1);
    }
  }

  /** `str(n)` has `k` digits exactly when `10^(k-1) <= n < 10^k` (for
      `k > 1`; one digit for every `n < 10`). */
  lemma {:induction false} DecimalMagnitude(n: nat)
    ensures n < Pow10(|Decimal(n)|)
    ensures |Decimal(n)| > 1 ==> Pow10(|Decimal(n)| - 1) <= n
  {
    if n >= 10 {
      var r := Decimal(n);
      assert r[..|r| - 1] == Decimal(n / 10);
      DecimalMagnitude(n / 10);
    }
  }

  /** `str(n)` has at most three digits below 1000, and at least four from
      1000 on. */
  lemma DecimalLength(n: nat)
    ensures n < 1000 <==> |Decimal(n)| <= 3
  {
    DecimalMagnitude(n);
    var k := |Decimal(n)|;
    if k > 3 {
      Pow10AtLeast(k - 1);
    } else {
      assert Pow10(1) == 10 && Pow10(2) == 100 && Pow10(3) == 1000;
    }
  }

  /** `f"{n:03d}"` is exactly three digits for every number below 1000, and
      `str(n)` for every larger one. */
  lemma ZeroPaddedThree(n: nat)
    ensures n < 1000 ==> |ZeroPadded(n, 3)| == 3
    ensures 1000 <= n ==> ZeroPadded(n, 3) == Decimal(n)
  {
    DecimalLength(n);
  }

  /** A digit string followed by a separator that is not a digit is
      recovered from the text: the separator marks where it ends. */
  lemma {:induction false} DigitsBeforeSeparator(p: string, q: string, sep: char, a: string, b: string)
    requires IsDigits(p) && IsDigits(q) && !('0' <= sep <= '9')
    requires p + ([sep] + a) == q + ([sep] + b)
    ensures p == q && a == b
  {
    var l, r := p + ([sep] + a), q + ([sep] + b);
    if p == [] {
      assert r[0] == sep;
      assert q == [];
      assert l[1..] == a && r[1..] == b;
    } else {
      assert l[0] == p[0];
      assert q != [] && q[0] == p[0];
      assert l[1..] == p[1..] + ([sep] + a);
      assert r[1..] == q[1..] + ([sep] + b);
      DigitsBeforeSeparator(p[1..], q[1..], sep, a, b);
      assert p == [p[0]] + p[1..] && q == [q[0]] + q[1..];
    }
  }
}
