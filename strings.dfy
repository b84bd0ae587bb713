/**
 * String helpers the scheduler relies on: decimal rendering of numbers
 * (`toString`), zero padding (`padStart`), the digit prefix JavaScript's
 * `parseInt` reads, and JavaScript's `<` on strings, which compares code unit
 * by code unit.
 */
module Strings {
  import opened Wrappers

  predicate IsDigit(c: char) {
    '0' <= c <= '9'
  }

  predicate AllDigits(s: string) {
    forall i :: 0 <= i < |s| ==> IsDigit(s[i])
  }

  function DigitChar(d: nat): (c: char)
    requires d < 10
    ensures IsDigit(c)
  {
    ('0' as int + d) as char
  }

  function DigitValue(c: char): (d: nat)
    requires IsDigit(c)
    ensures d < 10 && DigitChar(d) == c
  {
    c as int - '0' as int
  }

  /** Decimal rendering of a natural number without leading zeros (`n.toString()`). */
  function NatToString(n: nat): (s: string)
    ensures 1 <= |s| && AllDigits(s)
    ensures n >= 10 ==> s[0] != '0'
    decreases n
  {
    if n < 10 then [DigitChar(n)] else NatToString(n / 10) + [DigitChar(n % 10)]
  }

  /** Decimal rendering of an integer, with a leading '-' when negative (`${i}`). */
  function IntToString(i: int): string {
    if i < 0 then "-" + NatToString(-i) else NatToString(i)
  }

  /** The value of a string of decimal digits. */
  function DigitsValue(s: string): nat
    requires AllDigits(s)
    decreases |s|
  {
    if s == [] then 0 else DigitsValue(s[..|s| - 1]) * 10 + DigitValue(s[|s| - 1])
  }

  /** `s.padStart(width, fill)` for a one-character fill string. */
  function PadStart(s: string, width: nat, fill: char): string {
    if |s| >= width then s else seq(width - |s|, _ => fill) + s
  }

  /** `n.toString().padStart(2, '0')`. */
  function Pad2(n: nat): string {
    PadStart(NatToString(n), 2, '0')
  }

  function Pow10(k: nat): (p: nat)
    ensures p >= 1
  {
    if k == 0 then 1 else 10 * Pow10(k - 1)
  }

  /** The number of leading decimal digits of s. */
  function DigitPrefixLength(s: string): (n: nat)
    ensures n <= |s| && AllDigits(s[..n])
    ensures n < |s| ==> !IsDigit(s[n])
    decreases |s|
  {
    if s == [] || !IsDigit(s[0]) then 0
    else
      var n := 1 + DigitPrefixLength(s[1..]);
      assert s[..n] == [s[0]] + s[1..][..n - 1];
      n
  }

  /**
   * `parseInt(s)` for a string that may start with decimal digits: the value
   * of the leading digits, or None (JavaScript's NaN) when there are none.
   */
  function ParseIntPrefix(s: string): Option<nat> {
    var n := DigitPrefixLength(s);
    if n == 0 then None else Some(DigitsValue(s[..n]))
  }

  /** The index of the first occurrence of c in s, or |s| when there is none. */
  function IndexOf(s: string, c: char): (i: nat)
    ensures i <= |s|
    ensures i < |s| ==> s[i] == c
    ensures forall k :: 0 <= k < i ==> s[k] != c
    decreases |s|
  {
    if s == [] then 0 else if s[0] == c then 0 else 1 + IndexOf(s[1..], c)
  }

  /** JavaScript's `a < b` on strings: the first differing character decides, and a proper prefix is smaller. */
  predicate StrLess(a: string, b: string)
    decreases |a|
  {
    if b == [] then false
    else if a == [] then true
    else if a[0] != b[0] then a[0] < b[0]
    else StrLess(a[1..], b[1..])
  }

  // ---------------------------------------------------------------------
  // Numbers and their renderings

  lemma {:induction false} DigitsValueAppend(s: string, c: char)
    requires AllDigits(s) && IsDigit(c)
    ensures AllDigits(s + [c]) && DigitsValue(s + [c]) == DigitsValue(s) * 10 + DigitValue(c)
  {
    assert (s + [c])[..|s + [c]| - 1] == s;
  }

  /** Reading back the rendering of n gives n: `parseInt(n.toString()) == n`. */
  lemma {:induction false} DigitsValueOfNatToString(n: nat)
    ensures DigitsValue(NatToString(n)) == n
    decreases n
  {
    if n >= 10 {
      DigitsValueOfNatToString(n / 10);
      DigitsValueAppend(NatToString(n / 10), DigitChar(n % 10));
    }
  }

  lemma NatToStringInjective(a: nat, b: nat)
    requires NatToString(a) == NatToString(b)
    ensures a == b
  {
    DigitsValueOfNatToString(a);
    DigitsValueOfNatToString(b);
  }

  lemma {:induction false} NatToStringLength(n: nat, k: nat)
    requires 1 <= k && n < Pow10(k)
    ensures |NatToString(n)| <= k
    decreases k
  {
    if n >= 10 {
      NatToStringLength(n / 10, k - 1);
    }
  }

  lemma {:induction false} DigitsValueOfZeros(z: nat)
    ensures AllDigits(seq(z, _ => '0')) && DigitsValue(seq(z, _ => '0')) == 0
  {
    if z > 0 {
      var zs := seq(z, _ => '0');
      assert zs[..z - 1] == seq(z - 1, _ => '0');
      DigitsValueOfZeros(z - 1);
    }
  }

  /** Leading zeros do not change the value of a digit string. */
  lemma {:induction false} DigitsValueLeadingZeros(z: nat, s: string)
    requires AllDigits(s)
    ensures AllDigits(seq(z, _ => '0') + s)
    ensures DigitsValue(seq(z, _ => '0') + s) == DigitsValue(s)
    decreases |s|
  {
    var zs := seq(z, _ => '0');
    DigitsValueOfZeros(z);
    if s == [] {
      assert zs + s == zs;
    } else {
      var init, last := s[..|s| - 1], s[|s| - 1];
      assert s == init + [last];
      assert zs + s == (zs + init) + [last];
      DigitsValueLeadingZeros(z, init);
      DigitsValueAppend(zs + init, last);
      DigitsValueAppend(init, last);
    }
  }

  /** Reading back a zero-padded rendering gives the number. */
  lemma DigitsValueOfPadded(n: nat, width: nat)
    ensures AllDigits(PadStart(NatToString(n), width, '0'))
    ensures DigitsValue(PadStart(NatToString(n), width, '0')) == n
  {
    var s := NatToString(n);
    DigitsValueOfNatToString(n);
    if |s| < width {
      DigitsValueLeadingZeros(width - |s|, s);
    }
  }

  /** `padStart(2, '0')` of a number below 100 is two digits that read back as the number. */
  lemma Pad2Facts(n: nat)
    requires n < 100
    ensures |Pad2(n)| == 2 && AllDigits(Pad2(n)) && DigitsValue(Pad2(n)) == n
  {
    Pad2Digits(n);
    DigitsValueOfPadded(n, 2);
  }

  lemma Pad2Digits(n: nat)
    requires n < 100
    ensures Pad2(n) == [DigitChar(n / 10), DigitChar(n % 10)]
  {
    if n < 10 {
      assert NatToString(n) == [DigitChar(n)];
      assert seq(1, _ => '0') == ['0'];
    } else {
      assert NatToString(n / 10) == [DigitChar(n / 10)];
    }
  }

  // ---------------------------------------------------------------------
  // String order

  lemma {:induction false} StrLessIrreflexive(a: string)
    ensures !StrLess(a, a)
    decreases |a|
  {
    if a != [] {
      StrLessIrreflexive(a[1..]);
    }
  }

  lemma {:induction false} StrLessTransitive(a: string, b: string, c: string)
    requires StrLess(a, b) && StrLess(b, c)
    ensures StrLess(a, c)
    decreases |a|
  {
    if a != [] && a[0] == b[0] && b[0] == c[0] {
      StrLessTransitive(a[1..], b[1..], c[1..]);
    }
  }

  /** Any two different strings are ordered one way or the other. */
  lemma {:induction false} StrLessTotal(a: string, b: string)
    ensures a == b || StrLess(a, b) || StrLess(b, a)
    decreases |a|
  {
    if a != [] && b != [] && a[0] == b[0] {
      StrLessTotal(a[1..], b[1..]);
      if a[1..] == b[1..] {
        assert a == [a[0]] + a[1..] && b == [b[0]] + b[1..];
      }
    }
  }

  lemma StrLessAsymmetric(a: string, b: string)
    requires StrLess(a, b)
    ensures !StrLess(b, a)
  {
    if StrLess(b, a) {
      StrLessTransitive(a, b, a);
      StrLessIrreflexive(a);
    }
  }

  /** Comparing two strings that start with equally long parts: the parts decide, and the rest only when they are equal. */
  lemma {:induction false} StrLessConcat(p: string, q: string, a: string, b: string)
    requires |p| == |q|
    ensures StrLess(p + a, q + b) == (StrLess(p, q) || (p == q && StrLess(a, b)))
    decreases |p|
  {
    if p == [] {
      assert p + a == a && q + b == b;
    } else {
      assert (p + a)[0] == p[0] && (q + b)[0] == q[0];
      assert (p + a)[1..] == p[1..] + a && (q + b)[1..] == q[1..] + b;
      StrLessConcat(p[1..], q[1..], a, b);
      if p[0] == q[0] {
        assert p == q <==> p[1..] == q[1..] by {
          assert p == [p[0]] + p[1..] && q == [q[0]] + q[1..];
        }
      }
    }
  }

  /** On two-digit renderings, string order is numeric order. */
  lemma Pad2Order(a: nat, b: nat)
    requires a < 100 && b < 100
    ensures StrLess(Pad2(a), Pad2(b)) <==> a < b
  {
    Pad2Digits(a);
    Pad2Digits(b);
    StrLessConcat([DigitChar(a / 10)], [DigitChar(b / 10)], [DigitChar(a % 10)], [DigitChar(b % 10)]);
    assert [DigitChar(a / 10)] + [DigitChar(a % 10)] == Pad2(a);
    assert [DigitChar(b / 10)] + [DigitChar(b % 10)] == Pad2(b);
  }

  // ---------------------------------------------------------------------
  // Searching

  /** Searching a concatenation whose first part lacks c continues into the second part. */
  lemma {:induction false} IndexOfConcat(a: string, b: string, c: char)
    requires forall k :: 0 <= k < |a| ==> a[k] != c
    ensures IndexOf(a + b, c) == |a| + IndexOf(b, c)
    decreases |a|
  {
    if a != [] {
      assert (a + b)[1..] == a[1..] + b;
      IndexOfConcat(a[1..], b, c);
    } else {
      assert a + b == b;
    }
  }

  lemma {:induction false} DigitPrefixOfDigits(s: string, t: string)
    requires AllDigits(s) && (t == [] || !IsDigit(t[0]))
    ensures DigitPrefixLength(s + t) == |s|
    decreases |s|
  {
    if s != [] {
      assert (s + t)[1..] == s[1..] + t;
      DigitPrefixOfDigits(s[1..], t);
    } else {
      assert s + t == t;
    }
  }

  /** A string built as p + [c] + rest, where p has no c, splits back into p and rest. */
  lemma SplitAtSeparator(p1: string, s1: string, p2: string, s2: string, c: char)
    requires c !in p1 && c !in p2
    requires p1 + [c] + s1 == p2 + [c] + s2
    ensures p1 == p2 && s1 == s2
  {
    var x := p1 + [c] + s1;
    assert x == p1 + ([c] + s1);
    assert x == p2 + ([c] + s2);
    IndexOfConcat(p1, [c] + s1, c);
    IndexOfConcat(p2, [c] + s2, c);
    assert p1 == x[..|p1|] && p2 == x[..|p2|];
    assert s1 == x[|p1| + 1..] && s2 == x[|p2| + 1..];
  }

  lemma IntToStringInjective(a: int, b: int)
    requires IntToString(a) == IntToString(b)
    ensures a == b
  {
    if a < 0 && b < 0 {
      assert NatToString(-a) == IntToString(a)[1..];
      assert NatToString(-b) == IntToString(b)[1..];
      NatToStringInjective(-a, -b);
    } else if a >= 0 && b >= 0 {
      NatToStringInjective(a, b);
    }
  }

  /** Decimal digits contain neither ' ' nor ','. */
  lemma DigitsHaveNoSeparators(s: string)
    requires AllDigits(s)
    ensures ' ' !in s && ',' !in s && '-' !in s
  {
  }

  /** "x, y" splits at its first comma when x has none. */
  lemma SplitAtComma(x1: string, y1: string, x2: string, y2: string)
    requires ',' !in x1 && ',' !in x2
    requires x1 + ", " + y1 == x2 + ", " + y2
    ensures x1 == x2 && y1 == y2
  {
    assert x1 + ", " + y1 == x1 + [','] + (" " + y1);
    assert x2 + ", " + y2 == x2 + [','] + (" " + y2);
    SplitAtSeparator(x1, " " + y1, x2, " " + y2, ',');
    assert y1 == (" " + y1)[1..];
    assert y2 == (" " + y2)[1..];
  }

  /** A string made of a head, a non-empty middle and a tail opens with the head and closes with the tail. */
  lemma Framed(head: string, middle: string, tail: string)
    requires |middle| > 0
    ensures var r := head + middle + tail;
      |head| + |tail| < |r| && r[..|head|] == head && r[|r| - |tail|..] == tail
  {
  }

  /** The same for a middle made of five pieces, as the week titles are. */
  lemma FramedSix(head: string, a: string, b: string, c: string, d: string, e: string, tail: string)
    requires |a| > 0
    ensures var r := head + a + b + c + d + e + tail;
      |head| + |tail| < |r| && r[..|head|] == head && r[|r| - |tail|..] == tail
  {
    var r := head + a + b + c + d + e + tail;
    assert r == head + (a + b + c + d + e) + tail;
    Framed(head, a + b + c + d + e, tail);
  }
}
