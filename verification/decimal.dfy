/** Decimal numerals as the program prints and reads them: `str(n)` and
    `f"{n}"` for integers, `f"{n:0Wd}"` zero padding, and `int(s)` on a run
    of digits. Also the first-occurrence split a reader of the printed text
    uses to take it apart again. */
module Decimal {
  import opened Wrappers

  predicate IsDigit(c: char) { '0' <= c <= '9' }

  /** Every character is a decimal digit (the empty string included). */
  predicate AllDigits(s: string) {
    forall i :: 0 <= i < |s| ==> IsDigit(s[i])
  }

  lemma DigitsSlice(s: string, i: nat, j: nat)
    requires AllDigits(s) && i <= j <= |s|
    ensures AllDigits(s[i..j])
  {
    forall k | 0 <= k < j - i
      ensures IsDigit(s[i..j][k])
    {
      assert s[i..j][k] == s[i + k];
    }
  }

  /** What `int()` accepts on the digit strings this program builds: one or
      more decimal digits. */
  predicate IsNumeral(s: string) {
    |s| > 0 && AllDigits(s)
  }

  /** A numeral as `str()` prints it: digits with no leading zero, except
      the single digit "0". */
  predicate Canonical(s: string) {
    IsNumeral(s) && (|s| > 1 ==> s[0] != '0')
  }

  function DigitValue(c: char): (d: nat)
    requires IsDigit(c)
    ensures d < 10
  {
    c as int - '0' as int
  }

  function DigitChar(d: nat): (c: char)
    requires d < 10
    ensures IsDigit(c) && DigitValue(c) == d
  {
    ('0' as int + d) as char
  }

  function Pow10(k: nat): (p: nat)
    ensures p > 0
  {
    if k == 0 then 1 else 10 * Pow10(k - 1)
  }

  lemma {:induction false} Pow10Add(a: nat, b: nat)
    ensures Pow10(a + b) == Pow10(a) * Pow10(b)
  {
    if b > 0 {
      Pow10Add(a, b - 1);
      assert Pow10(a + b) == 10 * Pow10(a + b - 1);
    }
  }

  lemma {:induction false} Pow10Monotone(a: nat, b: nat)
    requires a <= b
    ensures Pow10(a) <= Pow10(b)
  {
    if a < b {
      Pow10Monotone(a, b - 1);
    }
  }

  lemma {:induction false} MulMonotone(a: nat, b: nat, c: nat)
    requires a <= b
    ensures a * c <= b * c
  {
    if c > 0 {
      MulMonotone(a, b, c - 1);
      assert a * c == a * (c - 1) + a;
      assert b * c == b * (c - 1) + b;
    }
  }

  /** Dividing a natural number by a positive one gives a natural number. */
  lemma QuotientIsNat(x: nat, d: nat)
    requires d > 0
    ensures x / d >= 0
  {
  }

  /** A smaller quotient with an in-range remainder gives a smaller number. */
  lemma DecompositionLess(d: nat, q1: nat, r1: nat, q2: nat, r2: nat)
    requires r1 < d && q1 < q2
    ensures q1 * d + r1 < q2 * d + r2
  {
    assert (q1 + 1) * d == q1 * d + d;
    MulMonotone(q1 + 1, q2, d);
  }

  /** Quotient and remainder are the only pair that decomposes x this way. */
  lemma DivModUnique(x: nat, d: nat, q: nat, r: nat)
    requires 0 <= r < d
    requires x == q * d + r
    ensures q == x / d && r == x % d
  {
    var q', r' := x / d, x % d;
    assert x == q' * d + r';
    if q < q' {
      DecompositionLess(d, q, r, q', r');
    } else if q' < q {
      DecompositionLess(d, q', r', q, r);
    }
  }

  /** Number of digits of n written without leading zeros; 0 has one. */
  function Width(n: nat): (w: nat)
    ensures w >= 1
  {
    if n < 10 then 1 else 1 + Width(n / 10)
  }

  lemma {:induction false} WidthBounds(n: nat)
    ensures n < Pow10(Width(n))
    ensures Width(n) > 1 ==> Pow10(Width(n) - 1) <= n
  {
    if n >= 10 {
      WidthBounds(n / 10);
    }
  }

  /** The width of n is the one k with 10^(k-1) <= n < 10^k (k = 1 for n < 10). */
  lemma WidthIs(n: nat, k: nat)
    requires k >= 1 && n < Pow10(k)
    requires k > 1 ==> Pow10(k - 1) <= n
    ensures Width(n) == k
  {
    WidthBounds(n);
    if Width(n) < k {
      Pow10Monotone(Width(n), k - 1);
    } else if Width(n) > k {
      Pow10Monotone(k, Width(n) - 1);
    }
  }

  /** Fewer than 10^k means at most k digits. */
  lemma WidthAtMost(n: nat, k: nat)
    ensures k >= 1 && n < Pow10(k) ==> Width(n) <= k
  {
    WidthBounds(n);
    if k >= 1 && n < Pow10(k) && Width(n) > k {
      Pow10Monotone(k, Width(n) - 1);
    }
  }

  /** Python's `str(n)` for a non-negative integer: its digits, most
      significant first, with no leading zero. */
  function NatToString(n: nat): (s: string)
    ensures Canonical(s) && |s| == Width(n)
  {
    if n < 10 then [DigitChar(n)] else NatToString(n / 10) + [DigitChar(n % 10)]
  }

  /** Python's `int(s)` on a run of digits (leading zeros allowed). */
  function ParseDigits(s: string): (n: nat)
    requires AllDigits(s)
    ensures n < Pow10(|s|)
  {
    if |s| == 0 then 0 else 10 * ParseDigits(s[..|s| - 1]) + DigitValue(s[|s| - 1])
  }

  lemma {:induction false} ParseNatToString(n: nat)
    ensures ParseDigits(NatToString(n)) == n
  {
    if n >= 10 {
      ParseNatToString(n / 10);
      var s := NatToString(n);
      assert s[..|s| - 1] == NatToString(n / 10);
    }
  }

  /** Two digit strings of the same length with the same value are the same
      string. */
  lemma {:induction false} DigitsUnique(a: string, b: string)
    requires AllDigits(a) && AllDigits(b) && |a| == |b|
    requires ParseDigits(a) == ParseDigits(b)
    ensures a == b
  {
    if |a| > 0 {
      var n := |a|;
      var pa, pb := a[..n - 1], b[..n - 1];
      DivModUnique(ParseDigits(a), 10, ParseDigits(pa), DigitValue(a[n - 1]));
      DivModUnique(ParseDigits(b), 10, ParseDigits(pb), DigitValue(b[n - 1]));
      DigitsUnique(pa, pb);
      assert a[n - 1] == b[n - 1];
      assert a == pa + [a[n - 1]] && b == pb + [b[n - 1]];
    }
  }

  /** A canonical numeral of two or more digits is at least 10 to the power
      of its length less one. */
  lemma CanonicalLowerBound(s: string)
    requires Canonical(s) && |s| > 1
    ensures Pow10(|s| - 1) <= ParseDigits(s)
  {
    var head, tail := s[..1], s[1..];
    assert s == head + tail;
    ParseConcat(head, tail);
    assert head[..0] == [];
    assert ParseDigits(head) == DigitValue(s[0]) >= 1;
    MulMonotone(1, ParseDigits(head), Pow10(|tail|));
  }

  /** A canonical numeral has exactly as many digits as its value's width. */
  lemma CanonicalWidth(s: string)
    requires Canonical(s)
    ensures Width(ParseDigits(s)) == |s|
  {
    if |s| > 1 {
      CanonicalLowerBound(s);
    }
    WidthIs(ParseDigits(s), |s|);
  }

  /** `str(int(s)) == s` for a canonical numeral: the only text `str()`
      prints for a value. */
  lemma CanonicalRoundTrip(s: string)
    requires Canonical(s)
    ensures NatToString(ParseDigits(s)) == s
  {
    var n := ParseDigits(s);
    CanonicalWidth(s);
    ParseNatToString(n);
    DigitsUnique(NatToString(n), s);
  }

  /** Reading a + b is reading a, shifted left by |b| digits, plus reading b. */
  lemma {:induction false} ParseConcat(a: string, b: string)
    requires AllDigits(a) && AllDigits(b)
    ensures AllDigits(a + b)
    ensures ParseDigits(a + b) == ParseDigits(a) * Pow10(|b|) + ParseDigits(b)
  {
    if |b| == 0 {
      assert a + b == a;
    } else {
      var b' := b[..|b| - 1];
      ParseConcat(a, b');
      var ab := a + b;
      assert AllDigits(ab);
      assert ab[..|ab| - 1] == a + b';
      assert ab[|ab| - 1] == b[|b| - 1];
      var pa, pb := ParseDigits(a), ParseDigits(b');
      var d := DigitValue(b[|b| - 1]);
      assert b[..|b| - 1] == b';
      assert ParseDigits(b) == 10 * pb + d;
      assert ParseDigits(ab) == 10 * ParseDigits(a + b') + d;
      assert ParseDigits(a + b') == pa * Pow10(|b'|) + pb;
      assert Pow10(|b|) == 10 * Pow10(|b'|);
      MulDistrib(pa, Pow10(|b'|), pb, d);
    }
  }

  lemma MulDistrib(x: nat, y: nat, z: nat, d: nat)
    ensures 10 * (x * y + z) + d == x * (10 * y) + (10 * z + d)
  {
  }

  function Zeros(k: nat): (z: string)
    ensures |z| == k && AllDigits(z)
  {
    seq(k, _ => '0')
  }

  lemma {:induction false} ParseZeros(k: nat)
    ensures ParseDigits(Zeros(k)) == 0
  {
    if k > 0 {
      ParseZeros(k - 1);
      assert Zeros(k)[..k - 1] == Zeros(k - 1);
    }
  }

  /** Python's `f"{n:0Wd}"` for a non-negative integer: its digits, left-filled
      with zeros up to width w (never truncated). */
  function PadTo(n: nat, w: nat): (s: string)
    ensures |s| == if Width(n) < w then w else Width(n)
    ensures AllDigits(s) && ParseDigits(s) == n
    ensures n < Pow10(w) && w >= 1 ==> |s| == w
  {
    var digits := NatToString(n);
    var z := Zeros(if |digits| < w then w - |digits| else 0);
    ParseNatToString(n);
    ParseZeros(|z|);
    ParseConcat(z, digits);
    WidthAtMost(n, w);
    z + digits
  }

  /** `f"{int(s):0Wd}" == s` for a digit string of width W: the only W-digit
      text for its value. */
  lemma PaddedRoundTrip(s: string, w: nat)
    requires AllDigits(s) && |s| == w && w >= 1
    ensures PadTo(ParseDigits(s), w) == s
  {
    DigitsUnique(PadTo(ParseDigits(s), w), s);
  }

  /** Python's `str(i)` for any integer: a minus sign before negative values. */
  function IntToString(i: int): (s: string)
    ensures |s| > 0
  {
    if i < 0 then "-" + NatToString(-i) else NatToString(i)
  }

  /** Reads back the numerals IntToString prints: a canonical numeral,
      optionally after a minus sign and then not "0"; None for any other text.
      (Python's `int()` accepts more, such as "+5", " 5", "007" and "1_000";
      only the printed forms are read here.) */
  function ParseInt(s: string): Option<int> {
    if |s| > 0 && s[0] == '-' then
      if Canonical(s[1..]) && s[1] != '0' then Some(0 - ParseDigits(s[1..]) as int) else None
    else if Canonical(s) then Some(ParseDigits(s))
    else None
  }

  /** A positive number's numeral does not start with 0. */
  lemma NatToStringLead(n: nat)
    requires n > 0
    ensures NatToString(n)[0] != '0'
  {
    if n < 10 {
      assert NatToString(n) == [DigitChar(n)];
    }
  }

  lemma ParseIntToString(i: int)
    ensures ParseInt(IntToString(i)) == Some(i)
  {
    if i < 0 {
      var d := NatToString(-i);
      ParseNatToString(-i);
      NatToStringLead(-i);
      var t := IntToString(i);
      assert t == "-" + d;
      assert t[1..] == d && t[1] == d[0];
    } else {
      ParseNatToString(i);
    }
  }

  /** ParseInt accepts only the text IntToString prints for its value. */
  lemma ParseIntExact(s: string, i: int)
    requires ParseInt(s) == Some(i)
    ensures s == IntToString(i)
  {
    if |s| > 0 && s[0] == '-' {
      var d := s[1..];
      CanonicalRoundTrip(d);
      assert s == "-" + d;
    } else {
      CanonicalRoundTrip(s);
    }
  }

  /** Index of the first x in s, if any: Python's `list.index` and
      `str.find`, with None where `index` would raise. */
  function IndexOf<T(==)>(s: seq<T>, x: T): (k: Option<nat>)
    ensures k.Some? ==> k.value < |s| && s[k.value] == x && x !in s[..k.value]
    ensures k.None? ==> x !in s
  {
    if |s| == 0 then None
    else if s[0] == x then Some(0)
    else match IndexOf(s[1..], x)
      case None => None
      case Some(j) =>
        assert s[..j + 1] == [s[0]] + s[1..][..j];
        Some(j + 1)
  }

  /** Splits s at its first c: the text before it and the text after it. */
  function SplitOnce(s: string, c: char): Option<(string, string)> {
    match IndexOf(s, c)
    case None => None
    case Some(k) => Some((s[..k], s[k + 1..]))
  }

  /** Splitting at a separator that does not occur in the left part gives the
      two parts back. */
  lemma SplitOnceJoin(a: string, c: char, b: string)
    requires c !in a
    ensures SplitOnce(a + [c] + b, c) == Some((a, b))
  {
    var s := a + [c] + b;
    assert s[|a|] == c;
    assert s[..|a|] == a;
    assert s[|a| + 1..] == b;
  }

  /** What SplitOnce hands back: the text before the first c and the text
      after it, around that c. */
  lemma SplitOnceParts(s: string, c: char)
    requires SplitOnce(s, c).Some?
    ensures var (a, b) := SplitOnce(s, c).value;
      s == a + [c] + b && c !in a
  {
    var k := IndexOf(s, c).value;
    assert s == s[..k] + [c] + s[k + 1..];
  }

  /** No digit string contains a separator character. */
  lemma NoSeparatorIn(s: string, c: char)
    requires AllDigits(s) && !IsDigit(c)
    ensures c !in s
  {
  }
}
