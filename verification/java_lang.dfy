/** The Java value types the modelled code works with, at their exact widths,
    and the two `java.lang` comparisons it calls (`Long.compare` and
    `String.compareTo`). */
module JavaLang {

  const LONG_MIN: int := -0x8000_0000_0000_0000
  const LONG_MAX: int := 0x7FFF_FFFF_FFFF_FFFF

  /** A Java `long`. */
  type Long = x: int | LONG_MIN <= x <= LONG_MAX

  const INT_MIN: int := -0x8000_0000
  const INT_MAX: int := 0x7FFF_FFFF

  /** A Java `int` (also the value of a non-null `Integer`). */
  type Int = x: int | INT_MIN <= x <= INT_MAX

  /** A Java `byte`: signed, two's complement. */
  type JByte = b: int | -128 <= b < 128

  /** A Java `char`: one UTF-16 code unit. */
  type CodeUnit = c: int | 0 <= c < 0x1_0000

  /** A non-null Java `String`: its sequence of UTF-16 code units. */
  type JString = seq<CodeUnit>

  /** The code units of a Dafny string literal whose characters all lie in
      the Basic Multilingual Plane. */
  function Units(s: string): (r: JString)
    requires forall i | 0 <= i < |s| :: s[i] as int < 0x1_0000
  {
    seq(|s|, i requires 0 <= i < |s| => s[i] as int)
  }

  /** `0xff & b`: the byte's bits read as an unsigned value. */
  function ToUnsigned(b: JByte): (v: int)
    ensures 0 <= v < 256
    ensures (v - b) % 256 == 0
  {
    if b < 0 then b + 256 else b
  }

  /** The narrowing cast `(byte) v` of an unsigned byte value. */
  function FromUnsigned(v: int): (b: JByte)
    requires 0 <= v < 256
    ensures ToUnsigned(b) == v
  {
    if v < 128 then v else v - 256
  }

  /** `Long.compare(x, y)`. */
  function LongCompare(x: Long, y: Long): (r: int)
    ensures -1 <= r <= 1
    ensures r < 0 <==> x < y
    ensures r == 0 <==> x == y
  {
    if x < y then -1 else if x == y then 0 else 1
  }

  /** Lexicographic order on code units, stated without `StringCompare`:
      `a` comes first when it is a proper prefix of `b`, or when at the first
      position where they differ `a` has the smaller code unit. */
  predicate LexLess(a: JString, b: JString)
  {
    || (|a| < |b| && a == b[..|a|])
    || (exists k | 0 <= k < |a| && k < |b| :: a[..k] == b[..k] && a[k] < b[k])
  }

  /** `String.compareTo`: the difference of the first pair of code units that
      differ, or, when one string is a prefix of the other, the difference of
      the lengths. Its sign is lexicographic order, and it is 0 exactly for
      equal strings. */
  function StringCompare(a: JString, b: JString): (r: int)
    ensures r < 0 <==> LexLess(a, b)
    ensures r == 0 <==> a == b
    decreases |a|
  {
    if |a| == 0 || |b| == 0 then
      LexLessEmpty(a, b);
      |a| - |b|
    else if a[0] != b[0] then
      LexLessFirstDiffers(a, b);
      a[0] - b[0]
    else
      LexLessTail(a, b);
      assert a == [a[0]] + a[1..] && b == [b[0]] + b[1..];
      StringCompare(a[1..], b[1..])
  }

  /** Against an empty string, only a non-empty `b` comes after `a`. */
  lemma LexLessEmpty(a: JString, b: JString)
    requires |a| == 0 || |b| == 0
    ensures LexLess(a, b) <==> |a| < |b|
  {
    if |a| == 0 && |b| > 0 {
      assert a == b[..|a|];
    }
  }

  /** When the first code units differ, they decide the order. */
  lemma LexLessFirstDiffers(a: JString, b: JString)
    requires |a| > 0 && |b| > 0 && a[0] != b[0]
    ensures LexLess(a, b) <==> a[0] < b[0]
  {
    if a[0] < b[0] {
      assert a[..0] == b[..0];
    }
    if LexLess(a, b) && !(|a| < |b| && a == b[..|a|]) {
      var k :| 0 <= k < |a| && k < |b| && a[..k] == b[..k] && a[k] < b[k];
      assert k == 0;
    }
  }

  /** Two strings with the same first code unit compare as their tails do. */
  lemma LexLessTail(a: JString, b: JString)
    requires |a| > 0 && |b| > 0 && a[0] == b[0]
    ensures LexLess(a, b) <==> LexLess(a[1..], b[1..])
  {
    var a', b' := a[1..], b[1..];
    if LexLess(a', b') {
      if |a'| < |b'| && a' == b'[..|a'|] {
        assert a == [a[0]] + a';
        assert b[..|a|] == [b[0]] + b'[..|a'|];
      } else {
        var k :| 0 <= k < |a'| && k < |b'| && a'[..k] == b'[..k] && a'[k] < b'[k];
        assert a[..k + 1] == [a[0]] + a'[..k];
        assert b[..k + 1] == [b[0]] + b'[..k];
      }
    }
    if LexLess(a, b) {
      if |a| < |b| && a == b[..|a|] {
        assert a' == b'[..|a'|];
      } else {
        var k :| 0 <= k < |a| && k < |b| && a[..k] == b[..k] && a[k] < b[k];
        assert k != 0;
        assert a'[..k - 1] == a[1..k] == b[1..k] == b'[..k - 1];
      }
    }
  }

  lemma {:induction false} StringCompareAntisymmetric(a: JString, b: JString)
    ensures StringCompare(a, b) == -StringCompare(b, a)
    decreases |a|
  {
    if |a| == 0 || |b| == 0 {
    } else if a[0] != b[0] {
    } else {
      StringCompareAntisymmetric(a[1..], b[1..]);
    }
  }

  lemma {:induction false} StringCompareTransitive(a: JString, b: JString, c: JString)
    requires StringCompare(a, b) < 0 && StringCompare(b, c) < 0
    ensures StringCompare(a, c) < 0
    decreases |a|
  {
    if |a| == 0 || |b| == 0 || |c| == 0 {
    } else if a[0] != b[0] || b[0] != c[0] {
    } else {
      StringCompareTransitive(a[1..], b[1..], c[1..]);
    }
  }
}
