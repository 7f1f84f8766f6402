/**
 * The parts of Kotlin's `String` the selector relies on: `compareTo`, which on
 * the JVM compares UTF-16 code units one by one, and the string template
 * `"${x}"`, which renders a null reference as the text `null`.
 *
 * A Dafny `string` is a sequence of Unicode scalar values; it is compared here
 * through its UTF-16 encoding, so that characters outside the Basic
 * Multilingual Plane order as they do on the JVM.
 */
module KotlinStrings {
  import opened Wrappers

  /** One UTF-16 code unit, the element of a JVM string. */
  type CodeUnit = x: int | 0 <= x < 0x1_0000

  /** The UTF-16 encoding of one character: one unit, or a surrogate pair. */
  function Units(c: char): (u: seq<CodeUnit>)
    ensures |u| == 1 <==> c as int < 0x1_0000
    ensures |u| == 1 ==> u[0] == c as int
    ensures |u| == 2 ==> 0xD800 <= u[0] < 0xDC00 <= u[1] < 0xE000
    ensures |u| == 1 || |u| == 2
  {
    var n := c as int;
    if n < 0x1_0000 then [n]
    else [0xD800 + (n - 0x1_0000) / 0x400, 0xDC00 + (n - 0x1_0000) % 0x400]
  }

  /** The UTF-16 code units of a string, as a JVM `String` holds them. */
  function Utf16(s: string): (u: seq<CodeUnit>)
    ensures |s| <= |u| <= 2 * |s|
  {
    if s == [] then [] else Units(s[0]) + Utf16(s[1..])
  }

  /** Distinct characters have distinct encodings, and neither is a prefix of the other's. */
  lemma UnitsInjective(c: char, d: char, rest: seq<CodeUnit>, rest': seq<CodeUnit>)
    requires Units(c) + rest == Units(d) + rest'
    ensures c == d && rest == rest'
  {
    var u, v := Units(c) + rest, Units(d) + rest';
    assert u[0] == v[0];
    if |Units(c)| == 1 && |Units(d)| == 1 {
      assert rest == u[1..] == v[1..] == rest';
    } else if |Units(c)| == 2 && |Units(d)| == 2 {
      var n, m := c as int - 0x1_0000, d as int - 0x1_0000;
      assert u[1] == v[1];
      assert n == (n / 0x400) * 0x400 + n % 0x400;
      assert m == (m / 0x400) * 0x400 + m % 0x400;
      assert n / 0x400 == m / 0x400 && n % 0x400 == m % 0x400;
      assert rest == u[2..] == v[2..] == rest';
    } else {
      assert false;
    }
  }

  /** Distinct strings have distinct UTF-16 encodings: nothing is lost in the encoding. */
  lemma {:induction false} Utf16Injective(a: string, b: string)
    requires Utf16(a) == Utf16(b)
    ensures a == b
    decreases |a|
  {
    if a != [] && b != [] {
      UnitsInjective(a[0], b[0], Utf16(a[1..]), Utf16(b[1..]));
      Utf16Injective(a[1..], b[1..]);
    }
  }

  /**
   * Java's `String.compareTo` on code units: at the first position where the
   * two differ, the difference of the units there; when one is a prefix of the
   * other, the difference of the lengths.
   */
  function CompareUnits(u: seq<CodeUnit>, v: seq<CodeUnit>): int {
    if u == [] || v == [] then |u| - |v|
    else if u[0] != v[0] then u[0] - v[0]
    else CompareUnits(u[1..], v[1..])
  }

  /** Kotlin's `a.compareTo(b)` for two strings. */
  function CompareTo(a: string, b: string): int {
    CompareUnits(Utf16(a), Utf16(b))
  }

  /** Kotlin's `a < b` on strings. */
  predicate Less(a: string, b: string) {
    CompareTo(a, b) < 0
  }

  /** Kotlin's `a <= b` on strings. */
  predicate AtMost(a: string, b: string) {
    CompareTo(a, b) <= 0
  }

  /**
   * Lexicographic order, stated independently of `CompareUnits`: `u` is a
   * proper prefix of `v`, or the two agree up to a position where `u` has the
   * smaller unit.
   */
  predicate LexBefore(u: seq<CodeUnit>, v: seq<CodeUnit>) {
    || (|u| < |v| && u == v[..|u|])
    || exists k :: 0 <= k < |u| && k < |v| && u[..k] == v[..k] && u[k] < v[k]
  }

  /** A negative `compareTo` means exactly "lexicographically before". */
  lemma {:induction false} CompareUnitsIsLexicographic(u: seq<CodeUnit>, v: seq<CodeUnit>)
    ensures CompareUnits(u, v) < 0 <==> LexBefore(u, v)
    decreases |u|
  {
    if u == [] || v == [] {
      if v != [] {
        assert u == v[..|u|];
      }
    } else if u[0] != v[0] {
      if u[0] < v[0] {
        assert u[..0] == v[..0];
      }
    } else {
      var u', v' := u[1..], v[1..];
      CompareUnitsIsLexicographic(u', v');
      if LexBefore(u, v) {
        if |u| < |v| && u == v[..|u|] {
          assert u' == v'[..|u'|];
        } else {
          var k :| 0 <= k < |u| && k < |v| && u[..k] == v[..k] && u[k] < v[k];
          assert k > 0;
          assert u'[..k - 1] == u[..k][1..] == v[..k][1..] == v'[..k - 1];
          assert u'[k - 1] < v'[k - 1];
        }
      }
      if LexBefore(u', v') {
        if |u'| < |v'| && u' == v'[..|u'|] {
          assert u == [u[0]] + u' == [v[0]] + v'[..|u'|] == v[..|u|];
        } else {
          var k :| 0 <= k < |u'| && k < |v'| && u'[..k] == v'[..k] && u'[k] < v'[k];
          assert u[..k + 1] == [u[0]] + u'[..k] == [v[0]] + v'[..k] == v[..k + 1];
          assert u[k + 1] < v[k + 1];
        }
      }
    }
  }

  /** Swapping the operands negates the result. */
  lemma {:induction false} CompareUnitsAntisymmetric(u: seq<CodeUnit>, v: seq<CodeUnit>)
    ensures CompareUnits(u, v) == -CompareUnits(v, u)
    decreases |u|
  {
    if u != [] && v != [] && u[0] == v[0] {
      CompareUnitsAntisymmetric(u[1..], v[1..]);
    }
  }

  /** A sequence compares equal to itself. */
  lemma {:induction false} CompareUnitsReflexive(u: seq<CodeUnit>)
    ensures CompareUnits(u, u) == 0
    decreases |u|
  {
    if u != [] {
      CompareUnitsReflexive(u[1..]);
    }
  }

  /** Only equal sequences compare equal. */
  lemma {:induction false} CompareUnitsZeroIsEqual(u: seq<CodeUnit>, v: seq<CodeUnit>)
    requires CompareUnits(u, v) == 0
    ensures u == v
    decreases |u|
  {
    if u != [] && v != [] {
      CompareUnitsZeroIsEqual(u[1..], v[1..]);
      assert u == [u[0]] + u[1..];
      assert v == [v[0]] + v[1..];
    }
  }

  /** The order `compareTo` induces is transitive, and strict when either step is. */
  lemma {:induction false} CompareUnitsTransitive(u: seq<CodeUnit>, v: seq<CodeUnit>, w: seq<CodeUnit>)
    requires CompareUnits(u, v) <= 0 && CompareUnits(v, w) <= 0
    ensures CompareUnits(u, w) <= 0
    ensures CompareUnits(u, v) < 0 || CompareUnits(v, w) < 0 ==> CompareUnits(u, w) < 0
    decreases |u|
  {
    if u != [] && v != [] && w != [] && u[0] == v[0] == w[0] {
      CompareUnitsTransitive(u[1..], v[1..], w[1..]);
    }
  }

  /** `<` on strings is lexicographic order on their UTF-16 code units. */
  lemma LessIsLexicographic(a: string, b: string)
    ensures Less(a, b) <==> LexBefore(Utf16(a), Utf16(b))
  {
    CompareUnitsIsLexicographic(Utf16(a), Utf16(b));
  }

  /** `a.compareTo(b) == 0` exactly when the two strings are equal. */
  lemma CompareToZeroIsEqual(a: string, b: string)
    ensures CompareTo(a, b) == 0 <==> a == b
  {
    if CompareTo(a, b) == 0 {
      CompareUnitsZeroIsEqual(Utf16(a), Utf16(b));
      Utf16Injective(a, b);
    }
    if a == b {
      CompareUnitsReflexive(Utf16(a));
    }
  }

  /** No string is below itself. */
  lemma LessIrreflexive(a: string)
    ensures !Less(a, a) && AtMost(a, a)
  {
    CompareUnitsReflexive(Utf16(a));
  }

  /** Not being below means being at least: the order is total. */
  lemma NotLessIsAtLeast(a: string, b: string)
    ensures !Less(a, b) <==> AtMost(b, a)
  {
    CompareUnitsAntisymmetric(Utf16(a), Utf16(b));
  }

  /** `a <= b` and `b < a` never hold together. */
  lemma AtMostExcludesGreater(a: string, b: string)
    requires AtMost(a, b)
    ensures !Less(b, a)
  {
    CompareUnitsAntisymmetric(Utf16(a), Utf16(b));
  }

  /** `<=` followed by `<` gives `<`. */
  lemma AtMostLessTransitive(a: string, b: string, c: string)
    requires AtMost(a, b) && Less(b, c)
    ensures Less(a, c)
  {
    CompareUnitsTransitive(Utf16(a), Utf16(b), Utf16(c));
  }

  /** `<=` is transitive. */
  lemma AtMostTransitive(a: string, b: string, c: string)
    requires AtMost(a, b) && AtMost(b, c)
    ensures AtMost(a, c)
  {
    CompareUnitsTransitive(Utf16(a), Utf16(b), Utf16(c));
  }

  /**
   * The text a Kotlin string template `"${x}"` produces for a nullable string:
   * the string itself, or `null` when the reference is null.
   */
  function Template(x: Option<string>): string {
    match x
    case Some(s) => s
    case None => "null"
  }
}
