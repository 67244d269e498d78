/** The renderings and comparisons that java.lang performs implicitly in the
    modelled code: Integer.toString, Boolean.toString, String.compareTo, and the
    tab-joined records built by the toString methods. */
module JavaText {

  predicate IsDigit(c: char) {
    '0' <= c <= '9'
  }

  predicate AllDigits(s: string) {
    forall i :: 0 <= i < |s| ==> IsDigit(s[i])
  }

  function Digit(d: nat): (c: char)
    requires d < 10
    ensures IsDigit(c) && DigitValue(c) == d
  {
    "0123456789"[d]
  }

  function DigitValue(c: char): nat
    requires IsDigit(c)
  {
    c as int - '0' as int
  }

  /** The decimal digits of n without leading zeros; the empty string for 0. */
  function NatDigits(n: nat): (s: string)
    ensures AllDigits(s)
    ensures n == 0 <==> s == []
    ensures s != [] ==> s[0] != '0'
  {
    if n == 0 then "" else NatDigits(n / 10) + [Digit(n % 10)]
  }

  /** The number a string of decimal digits denotes; 0 for the empty string. */
  function DigitsValue(s: string): nat
    requires AllDigits(s)
  {
    if s == [] then 0 else DigitsValue(s[..|s| - 1]) * 10 + DigitValue(s[|s| - 1])
  }

  lemma {:induction false} DigitsValueOfNatDigits(n: nat)
    ensures DigitsValue(NatDigits(n)) == n
  {
    if n != 0 {
      var s := NatDigits(n);
      assert s[..|s| - 1] == NatDigits(n / 10);
      DigitsValueOfNatDigits(n / 10);
    }
  }

  lemma {:induction false} DigitsValueAppend(a: string, b: string)
    requires AllDigits(a) && AllDigits(b)
    ensures AllDigits(a + b)
    ensures DigitsValue(a + b) == DigitsValue(a) * Pow10(|b|) + DigitsValue(b)
    decreases |b|
  {
    if b == [] {
      assert a + b == a;
    } else {
      var ab, init := a + b, b[..|b| - 1];
      assert ab[..|ab| - 1] == a + init && ab[|ab| - 1] == b[|b| - 1];
      DigitsValueAppend(a, init);
      ShiftedDigit(DigitsValue(a), Pow10(|init|), DigitsValue(init), DigitValue(b[|b| - 1]));
    }
  }

  /** Appending digit d to the digits x·p + v: the arithmetic step above. */
  lemma {:induction false} ShiftedDigit(x: int, p: int, v: int, d: int)
    ensures (x * p + v) * 10 + d == x * (p * 10) + (v * 10 + d)
  {
  }

  function Pow10(k: nat): (p: nat)
    ensures p >= 1
  {
    if k == 0 then 1 else 10 * Pow10(k - 1)
  }

  /** Integer.toString: an optional minus sign, then the digits; "0" for zero. */
  function IntText(n: int): (s: string)
    ensures s != [] && '\t' !in s && '\n' !in s
  {
    if n < 0 then "-" + NatText(-n) else NatText(n)
  }

  /** Integer.toString of a non-negative number. */
  function NatText(n: nat): (s: string)
    ensures s != [] && AllDigits(s) && DigitsValue(s) == n
  {
    DigitsValueOfNatDigits(n);
    if n == 0 then "0" else NatDigits(n)
  }

  /** String.valueOf(boolean). */
  function BoolText(b: bool): (s: string)
    ensures '\t' !in s && '\n' !in s
  {
    if b then "true" else "false"
  }

  /** String.compareTo: the difference of the first differing characters, or
      else the difference of the lengths. */
  function CompareStrings(a: string, b: string): int {
    if a == [] || b == [] then |a| - |b|
    else if a[0] != b[0] then a[0] as int - b[0] as int
    else CompareStrings(a[1..], b[1..])
  }

  lemma {:induction false} CompareStringsZero(a: string, b: string)
    ensures CompareStrings(a, b) == 0 <==> a == b
  {
    if a != [] && b != [] && a[0] == b[0] {
      CompareStringsZero(a[1..], b[1..]);
      assert a == [a[0]] + a[1..] && b == [b[0]] + b[1..];
    }
  }

  lemma {:induction false} CompareStringsAntisymmetric(a: string, b: string)
    ensures CompareStrings(b, a) == -CompareStrings(a, b)
  {
    if a != [] && b != [] && a[0] == b[0] {
      CompareStringsAntisymmetric(a[1..], b[1..]);
    }
  }

  lemma {:induction false} CompareStringsTransitive(a: string, b: string, c: string)
    requires CompareStrings(a, b) <= 0 && CompareStrings(b, c) <= 0
    ensures CompareStrings(a, c) <= 0
  {
    if a != [] && b != [] && c != [] && a[0] == b[0] && b[0] == c[0] {
      CompareStringsTransitive(a[1..], b[1..], c[1..]);
    }
  }

  /** The fields of a line cut at every `sep`; the inverse of JoinOn. */
  function SplitOn(s: string, sep: char): (r: seq<string>)
    ensures |r| >= 1
  {
    if s == [] then [""]
    else
      var rest := SplitOn(s[1..], sep);
      if s[0] == sep then [""] + rest else [[s[0]] + rest[0]] + rest[1..]
  }

  /** The fields joined by `sep`, as `a + "\t" + b + ...` builds them. */
  function JoinOn(fields: seq<string>, sep: char): string
    requires |fields| >= 1
  {
    if |fields| == 1 then fields[0] else fields[0] + [sep] + JoinOn(fields[1..], sep)
  }

  predicate NoneHolds(fields: seq<string>, sep: char) {
    forall i :: 0 <= i < |fields| ==> sep !in fields[i]
  }

  lemma {:induction false} SplitOnField(a: string, sep: char)
    requires sep !in a
    ensures SplitOn(a, sep) == [a]
  {
    if a != [] {
      assert a[0] in a;
      SplitOnField(a[1..], sep);
      assert [a[0]] + a[1..] == a;
    }
  }

  lemma {:induction false} SplitOnAfterField(a: string, sep: char, b: string)
    requires sep !in a
    ensures SplitOn(a + [sep] + b, sep) == [a] + SplitOn(b, sep)
  {
    if a == [] {
      assert a + [sep] + b == [sep] + b;
      assert ([sep] + b)[1..] == b;
    } else {
      assert (a + [sep] + b)[1..] == a[1..] + [sep] + b;
      SplitOnAfterField(a[1..], sep, b);
      assert [a[0]] + a[1..] == a;
    }
  }

  /** A joined line can be cut back into exactly its fields when no field
      holds the separator. */
  lemma {:induction false} SplitJoin(fields: seq<string>, sep: char)
    requires |fields| >= 1 && NoneHolds(fields, sep)
    ensures SplitOn(JoinOn(fields, sep), sep) == fields
  {
    if |fields| == 1 {
      SplitOnField(fields[0], sep);
    } else {
      SplitJoin(fields[1..], sep);
      SplitOnAfterField(fields[0], sep, JoinOn(fields[1..], sep));
      assert [fields[0]] + fields[1..] == fields;
    }
  }
  /** Joining fields that avoid a character other than the separator gives
      a text that avoids it too. */
  lemma {:induction false} JoinOnAvoids(fields: seq<string>, sep: char, c: char)
    requires |fields| >= 1 && NoneHolds(fields, c) && sep != c
    ensures c !in JoinOn(fields, sep)
  {
    if |fields| > 1 {
      JoinOnAvoids(fields[1..], sep, c);
    }
  }
}
