/** Money as exact integer cents: the two-decimal HALF_UP rounding that
    Payment.setPaymentAmount and Procedure.setProcedureCost apply, the text that
    Double.toString gives for such an amount, and the "€###,###.00" rendering of
    Procedure.getProcedureCostInEuro. */
module Money {
  import opened JavaText
  import opened Outcomes

  /** BigDecimal.setScale(2, HALF_UP): the whole number of cents nearest to x,
      a tie going away from zero. */
  function RoundHalfUp(x: real): (c: int)
    ensures x >= 0.0 ==> x * 100.0 - 0.5 < c as real <= x * 100.0 + 0.5
    ensures x < 0.0 ==> x * 100.0 - 0.5 <= c as real < x * 100.0 + 0.5
  {
    if x >= 0.0 then (x * 100.0 + 0.5).Floor else -((-x) * 100.0 + 0.5).Floor
  }

  /** The stored amount is within half a cent of the requested one. */
  lemma {:induction false} WithinHalfCent(x: real)
    ensures -0.005 <= (RoundHalfUp(x) as real) / 100.0 - x <= 0.005
  {
  }

  /** Rounding an amount that already has at most two decimals keeps it. */
  lemma {:induction false} RoundHalfUpIdempotent(c: int)
    ensures RoundHalfUp(c as real / 100.0) == c
  {
    var x := c as real / 100.0;
    assert x * 100.0 == c as real;
  }

  /** HALF_UP is symmetric about zero. */
  lemma {:induction false} RoundHalfUpOdd(x: real)
    requires x != 0.0
    ensures RoundHalfUp(-x) == -RoundHalfUp(x)
  {
  }

  /** Rounding is monotone, so it never reorders two amounts. */
  lemma {:induction false} RoundHalfUpMonotone(x: real, y: real)
    requires x <= y
    ensures RoundHalfUp(x) <= RoundHalfUp(y)
  {
  }

  /** Double.toString of the double holding `cents` hundredths: plain decimal
      notation below 10^7, computerized scientific notation ("1.0E7") from 10^7
      on, always at least one fraction digit. */
  function DoubleText(cents: int): (s: string)
    ensures s != [] && s[0] != '.'
  {
    if cents == 0 then "0.0"
    else if cents < 0 then "-" + PositiveDoubleText(-cents)
    else PositiveDoubleText(cents)
  }

  const PlainLimit: nat := 1_000_000_000  // 10^7 in cents

  function PositiveDoubleText(a: nat): (s: string)
    requires a > 0
    ensures s != [] && IsDigit(s[0])
  {
    if a < PlainLimit then NatText(a / 100) + "." + FractionText(a % 100)
    else ScientificText(a)
  }

  /** The shortest fraction digits of f hundredths: "0", one digit, or two. */
  function FractionText(f: nat): (s: string)
    requires f < 100
    ensures s != [] && AllDigits(s)
  {
    if f % 10 == 0 then [Digit(f / 10)] else [Digit(f / 10), Digit(f % 10)]
  }

  /** At or above ten million the text is scientific: the significant digits
      as d.fff, then 'E' and the power of ten. */
  function ScientificText(a: nat): (s: string)
    requires a >= PlainLimit
    ensures s != [] && IsDigit(s[0])
  {
    Scientific(SigLead(a), SigFraction(a), Exponent(a))
  }

  /** The significant digits of a: its decimal digits without trailing zeros. */
  function Significand(a: nat): (sig: string)
    requires a >= PlainLimit
    ensures sig != [] && AllDigits(sig) && IsDigit(sig[0])
  {
    NatDigitsLength(a, 9);
    TrimTrailingZeros(NatDigits(a))
  }

  function SigLead(a: nat): (c: char)
    requires a >= PlainLimit
    ensures IsDigit(c)
  {
    Significand(a)[0]
  }

  /** The significant digits after the first, or "0" when there are none. */
  function SigFraction(a: nat): (f: string)
    requires a >= PlainLimit
    ensures f != [] && AllDigits(f)
  {
    var sig := Significand(a);
    AllDigitsDrop(sig);
    if |sig| == 1 then "0" else sig[1..]
  }

  /** The power of ten of the amount in units: its digit count less three. */
  function Exponent(a: nat): (e: string)
    requires a >= PlainLimit
    ensures AllDigits(e)
  {
    NatDigitsLength(a, 9);
    NatText(|NatDigits(a)| - 3)
  }

  lemma AllDigitsDrop(s: string)
    requires AllDigits(s) && s != []
    ensures AllDigits(s[1..])
  {
  }

  /** A significand digit, a point, fraction digits, 'E' and exponent digits. */
  function Scientific(lead: char, fraction: string, exponent: string): (s: string)
    requires IsDigit(lead) && AllDigits(fraction) && AllDigits(exponent)
    ensures s != [] && s[0] == lead
  {
    [lead] + "." + fraction + "E" + exponent
  }

  /** A text that can be one field of a tab-separated line. */
  predicate OneField(s: string) {
    '\t' !in s && '\n' !in s
  }

  /** Double.toString never writes a tab or a line break, so the amount can
      be a field of a tab-separated line. */
  lemma {:induction false} DoubleTextOneField(cents: int)
    ensures OneField(DoubleText(cents))
  {
    if cents < 0 {
      NegativeOneField(-cents);
    } else if cents > 0 {
      PositiveOneField(cents);
    } else {
      assert DoubleText(cents) == "0.0";
    }
  }

  lemma {:induction false} NegativeOneField(a: int)
    requires a > 0
    ensures OneField(DoubleText(-a))
  {
    assert OneField(PositiveDoubleText(a)) by {
      PositiveDoubleTextChars(a);
    }
    MinusField(-a);
  }

  lemma {:induction false} MinusField(cents: int)
    requires cents < 0 && OneField(PositiveDoubleText(-cents))
    ensures OneField(DoubleText(cents))
  {
    var t := PositiveDoubleText(-cents);
    SignedChars(t);
    assert DoubleText(cents) == "-" + t;
  }

  lemma {:induction false} PositiveOneField(cents: int)
    requires cents > 0
    ensures OneField(DoubleText(cents))
  {
    PositiveDoubleTextChars(cents);
  }

  lemma {:induction false} SignedChars(t: string)
    requires OneField(t)
    ensures OneField("-" + t)
  {
    forall i | 1 <= i < |"-" + t|
      ensures ("-" + t)[i] == t[i - 1]
    {
    }
  }

  /** A positive amount's text holds no tab, line break or minus sign. */
  lemma {:induction false} PositiveDoubleTextChars(a: nat)
    requires a > 0
    ensures OneField(PositiveDoubleText(a)) && '-' !in PositiveDoubleText(a)
  {
    if a < PlainLimit {
      var whole, fraction := NatText(a / 100), FractionText(a % 100);
      var s := whole + "." + fraction;
      forall i | 0 <= i < |s|
        ensures s[i] != '\t' && s[i] != '\n' && s[i] != '-'
      {
        if i < |whole| {
          assert s[i] == whole[i];
        } else if i > |whole| {
          assert s[i] == fraction[i - |whole| - 1];
        }
      }
    } else {
      ScientificChars(SigLead(a), SigFraction(a), Exponent(a));
    }
  }

  /** Digits, one point and one 'E' hold no tab, line break or minus sign. */
  lemma {:induction false} ScientificChars(lead: char, fraction: string, exponent: string)
    requires IsDigit(lead) && AllDigits(fraction) && AllDigits(exponent)
    ensures var s := Scientific(lead, fraction, exponent);
      '\t' !in s && '\n' !in s && '-' !in s
  {
    var s := Scientific(lead, fraction, exponent);
    forall i | 0 <= i < |s|
      ensures s[i] != '\t' && s[i] != '\n' && s[i] != '-'
    {
      if 2 <= i < 2 + |fraction| {
        assert s[i] == fraction[i - 2];
      } else if i > 2 + |fraction| {
        assert s[i] == exponent[i - 3 - |fraction|];
      }
    }
  }

  lemma {:induction false} NatDigitsLength(n: nat, k: nat)
    requires n >= Pow10(k)
    ensures |NatDigits(n)| > k
  {
    if k > 0 {
      NatDigitsLength(n / 10, k - 1);
    }
  }

  function TrimTrailingZeros(ds: string): (r: string)
    requires AllDigits(ds) && ds != [] && ds[0] != '0'
    ensures r != [] && AllDigits(r) && r[0] == ds[0] && |r| <= |ds|
  {
    if ds[|ds| - 1] == '0' then TrimTrailingZeros(ds[..|ds| - 1]) else ds
  }

  /** Every power of ten from 10^7 euros on (10^(k+2) cents, k >= 7) prints
      in scientific notation as "1.0E" and its exponent k. */
  lemma {:induction false} PowerOfTenText(k: nat)
    requires k >= 7
    ensures DoubleText(Pow10(k + 2)) == "1.0E" + NatText(k)
  {
    var a := Pow10(k + 2);
    PowerOfTenGrows(k + 2, 9);
    assert Pow10(9) == PlainLimit;
    NatDigitsPow10(k + 2);
    ScientificOneThenZeros(a, k);
  }

  /** An amount whose digits are a one and then zeros prints as "1.0E" and
      the number of zeros less the two cent digits. */
  lemma {:induction false} ScientificOneThenZeros(a: nat, k: nat)
    requires a >= PlainLimit && NatDigits(a) == "1" + Zeros(k + 2)
    ensures DoubleText(a) == "1.0E" + NatText(k)
  {
    OneThenZerosTrimmed(k + 2);
    ScientificOfOne(a, k);
    assert DoubleText(a) == PositiveDoubleText(a) == ScientificText(a);
  }

  /** A significand of the single digit 1 is written with the fraction 0. */
  lemma {:induction false} ScientificOfOne(a: nat, k: nat)
    requires a >= PlainLimit && TrimTrailingZeros(NatDigits(a)) == "1" && |NatDigits(a)| == k + 3
    ensures ScientificText(a) == "1.0E" + NatText(k)
  {
    assert ['1'] + "." + "0" + "E" == "1.0E";
  }

  lemma {:induction false} PowerOfTenGrows(k: nat, j: nat)
    requires j <= k
    ensures Pow10(j) <= Pow10(k)
    decreases k
  {
    if j < k {
      PowerOfTenGrows(k - 1, j);
    }
  }

  /** The digits of 10^k: a one and k zeros. */
  lemma {:induction false} NatDigitsPow10(k: nat)
    ensures NatDigits(Pow10(k)) == "1" + Zeros(k)
  {
    if k == 0 {
      assert NatDigits(1) == NatDigits(0) + [Digit(1)];
    } else {
      NatDigitsPow10(k - 1);
      assert Pow10(k) / 10 == Pow10(k - 1) && Pow10(k) % 10 == 0;
      assert "1" + Zeros(k) == "1" + Zeros(k - 1) + ['0'];
    }
  }

  function Zeros(k: nat): (s: string)
    ensures |s| == k && AllDigits(s)
  {
    seq(k, i => '0')
  }

  lemma {:induction false} OneThenZerosTrimmed(k: nat)
    ensures AllDigits("1" + Zeros(k))
    ensures TrimTrailingZeros("1" + Zeros(k)) == "1"
  {
    var t := "1" + Zeros(k);
    if k > 0 {
      assert t[..|t| - 1] == "1" + Zeros(k - 1);
      OneThenZerosTrimmed(k - 1);
    }
  }

  // ---------------------------------------------------------------------
  // DecimalFormat("€###,###.00")

  /** The euro rendering: a minus sign for negative amounts, then "€", the
      whole euros grouped by commas in threes (nothing at all for zero euros,
      since the pattern asks for no integer digit), a point, and exactly two
      cent digits. */
  function EuroText(cents: int): string {
    if cents < 0 then "-" + PositiveEuroText(-cents) else PositiveEuroText(cents)
  }

  function PositiveEuroText(cents: nat): string {
    var c := cents % 100;
    "€" + Grouped(NatDigits(cents / 100)) + "." + [Digit(c / 10), Digit(c % 10)]
  }

  /** Digits with a comma before every group of three, counted from the right. */
  function Grouped(ds: string): (r: string)
    ensures ds == [] <==> r == []
  {
    if |ds| <= 3 then ds else Grouped(ds[..|ds| - 3]) + "," + ds[|ds| - 3..]
  }

  /** The text without its commas. */
  function Ungrouped(s: string): (r: string)
    ensures ',' !in r
  {
    if s == [] then []
    else if s[|s| - 1] == ',' then Ungrouped(s[..|s| - 1])
    else Ungrouped(s[..|s| - 1]) + [s[|s| - 1]]
  }

  lemma {:induction false} UngroupedAppend(a: string, b: string)
    ensures Ungrouped(a + b) == Ungrouped(a) + Ungrouped(b)
    decreases |b|
  {
    if b == [] {
      assert a + b == a;
    } else {
      assert (a + b)[..|a + b| - 1] == a + b[..|b| - 1];
      UngroupedAppend(a, b[..|b| - 1]);
    }
  }

  lemma {:induction false} UngroupedNoComma(s: string)
    requires ',' !in s
    ensures Ungrouped(s) == s
  {
    if s != [] {
      assert s[|s| - 1] in s;
      UngroupedNoComma(s[..|s| - 1]);
      assert s[..|s| - 1] + [s[|s| - 1]] == s;
    }
  }

  /** Removing the commas gives back the digits. */
  lemma {:induction false} UngroupedGrouped(ds: string)
    requires AllDigits(ds)
    ensures Ungrouped(Grouped(ds)) == ds
    decreases |ds|
  {
    if |ds| <= 3 {
      assert forall i :: 0 <= i < |ds| ==> ds[i] != ',';
      UngroupedNoComma(ds);
    } else {
      var hi, lo := ds[..|ds| - 3], ds[|ds| - 3..];
      UngroupedGrouped(hi);
      UngroupedAppend(Grouped(hi) + ",", lo);
      UngroupedAppend(Grouped(hi), ",");
      assert Ungrouped(",") == [] by {
        assert ","[..0] == [];
      }
      assert forall i :: 0 <= i < |lo| ==> lo[i] != ',';
      UngroupedNoComma(lo);
      assert hi + lo == ds;
    }
  }

  /** The shape "###,###" gives the whole euros: digits and commas only, a
      comma exactly where a group of three digits ends counting from the
      right, hence none in front and none at the end. */
  predicate GroupedInThrees(g: string) {
    forall i :: 0 <= i < |g| ==>
      (IsDigit(g[i]) || g[i] == ',') && (g[i] == ',' <==> (|g| - i) % 4 == 0)
  }

  /** Grouping puts the commas exactly in threes and loses no digit. */
  lemma {:induction false} GroupedShape(ds: string)
    requires AllDigits(ds)
    ensures GroupedInThrees(Grouped(ds))
    ensures Ungrouped(Grouped(ds)) == ds
    decreases |ds|
  {
    UngroupedGrouped(ds);
    if |ds| <= 3 {
      assert Grouped(ds) == ds;
      forall i | 0 <= i < |ds|
        ensures IsDigit(ds[i]) && (|ds| - i) % 4 != 0
      {
        assert 1 <= |ds| - i <= 3;
      }
    } else {
      var hi, lo := ds[..|ds| - 3], ds[|ds| - 3..];
      var gh := Grouped(hi);
      GroupedShape(hi);
      GroupedStep(gh, lo);
      assert Grouped(ds) == gh + "," + lo;
    }
  }

  /** One more group of three digits behind a comma keeps the shape. */
  lemma {:induction false} GroupedStep(gh: string, lo: string)
    requires GroupedInThrees(gh) && AllDigits(lo) && |lo| == 3
    ensures GroupedInThrees(gh + "," + lo)
  {
    var g := gh + "," + lo;
    forall i | 0 <= i < |g|
      ensures (IsDigit(g[i]) || g[i] == ',') && (g[i] == ',' <==> (|g| - i) % 4 == 0)
    {
      if i < |gh| {
        assert g[i] == gh[i];
        assert |g| - i == (|gh| - i) + 4;
      } else if i > |gh| {
        assert g[i] == lo[i - |gh| - 1];
        assert 1 <= |g| - i <= 3;
      }
    }
  }

  /** Between the sign and "€" in front and the point and two cent digits at
      the end, the euro text holds the whole euros' digits grouped in threes. */
  lemma {:induction false} EuroTextGrouped(cents: int)
    ensures var s, k := EuroText(cents), if cents < 0 then 2 else 1;
      |s| >= k + 3 && s[|s| - 3] == '.'
      && GroupedInThrees(s[k..|s| - 3])
      && Ungrouped(s[k..|s| - 3]) == NatDigits((if cents < 0 then -cents else cents) / 100)
  {
    EuroTextMiddle(cents);
    GroupedShape(NatDigits((if cents < 0 then -cents else cents) / 100));
  }

  /** The whole shape of the euro text: the sign and "€", the whole euros
      grouped in threes, the point and the cents, reading back as the amount. */
  lemma {:induction false} EuroTextShape(cents: int)
    ensures EuroValue(EuroText(cents)) == Some(cents)
    ensures var s := EuroText(cents); cents >= 0 ==>
      (|s| >= 4 && s[0] == '€' && s[|s| - 3] == '.'
       && GroupedInThrees(s[1..|s| - 3]) && Ungrouped(s[1..|s| - 3]) == NatDigits(cents / 100))
    ensures var s := EuroText(cents); cents < 0 ==>
      (|s| >= 5 && s[..2] == "-€" && s[|s| - 3] == '.'
       && GroupedInThrees(s[2..|s| - 3]) && Ungrouped(s[2..|s| - 3]) == NatDigits(-cents / 100))
  {
    EuroTextRoundTrip(cents);
    EuroTextGrouped(cents);
    if cents >= 0 {
      EuroTextStartsWithSymbol(cents);
    } else {
      EuroTextStartsWithSymbol(-cents);
    }
  }

  /** The part between the sign and "€" and the point is the grouping of the
      whole euros' digits. */
  lemma {:induction false} EuroTextMiddle(cents: int)
    ensures var s, k := EuroText(cents), if cents < 0 then 2 else 1;
      |s| >= k + 3 && s[|s| - 3] == '.'
      && s[k..|s| - 3] == Grouped(NatDigits((if cents < 0 then -cents else cents) / 100))
  {
    var a: nat := if cents < 0 then -cents else cents;
    var t := PositiveEuroText(a);
    PositiveEuroTextParts(a);
    if cents < 0 {
      SignedMiddle(t);
    }
  }

  /** A minus sign in front shifts the middle of a euro text by one. */
  lemma {:induction false} SignedMiddle(t: string)
    requires |t| >= 4
    ensures var s := "-" + t;
      s[|s| - 3] == t[|t| - 3] && s[2..|s| - 3] == t[1..|t| - 3]
  {
  }

  lemma {:induction false} PositiveEuroTextParts(a: nat)
    ensures var t := PositiveEuroText(a);
      |t| >= 4 && t[|t| - 3] == '.' && t[1..|t| - 3] == Grouped(NatDigits(a / 100))
  {
    var g := Grouped(NatDigits(a / 100));
    var c := a % 100;
    var t := PositiveEuroText(a);
    assert t == "€" + g + "." + [Digit(c / 10), Digit(c % 10)];
    assert t[1..|t| - 3] == g;
  }

  /** Reads a euro text back into cents: the partner of EuroText. */
  function EuroValue(s: string): Option<int> {
    if |s| >= 1 && s[0] == '-' then
      match PositiveEuroValue(s[1..])
      case Some(c) => if c > 0 then Some(-c) else None
      case None => None
    else PositiveEuroValue(s)
  }

  function PositiveEuroValue(s: string): Option<int> {
    if |s| >= 4 && s[0] == '€' && s[|s| - 3] == '.'
       && IsDigit(s[|s| - 2]) && IsDigit(s[|s| - 1])
       && AllDigits(Ungrouped(s[1..|s| - 3]))
    then
      Some(DigitsValue(Ungrouped(s[1..|s| - 3])) * 100
           + DigitValue(s[|s| - 2]) * 10 + DigitValue(s[|s| - 1]))
    else None
  }

  /** Every amount can be read back from its euro text. */
  lemma {:induction false} EuroTextRoundTrip(cents: int)
    ensures EuroValue(EuroText(cents)) == Some(cents)
  {
    var t := PositiveEuroText(if cents < 0 then -cents else cents);
    PositiveEuroTextRoundTrip(if cents < 0 then -cents else cents);
    if cents < 0 {
      assert EuroText(cents) == "-" + t;
      NegativeEuroValue(t, -cents);
    } else {
      assert EuroText(cents) == t;
      EuroTextStartsWithSymbol(cents);
      UnsignedEuroValue(t);
    }
  }
  /** A text that starts with the euro sign is read without a sign. */
  lemma {:induction false} UnsignedEuroValue(t: string)
    requires |t| >= 1 && t[0] == '€'
    ensures EuroValue(t) == PositiveEuroValue(t)
  {
  }

  /** A minus sign before the text of a positive amount reads back as the
      negated amount. */
  lemma {:induction false} NegativeEuroValue(t: string, c: int)
    requires c > 0 && PositiveEuroValue(t) == Some(c)
    ensures EuroValue("-" + t) == Some(-c)
  {
    assert ("-" + t)[1..] == t;
  }


  lemma {:induction false} EuroTextStartsWithSymbol(cents: nat)
    ensures |PositiveEuroText(cents)| >= 4 && PositiveEuroText(cents)[0] == '€'
  {
  }

  lemma {:induction false} PositiveEuroTextRoundTrip(cents: nat)
    ensures PositiveEuroValue(PositiveEuroText(cents)) == Some(cents)
  {
    var ds := NatDigits(cents / 100);
    var c := cents % 100;
    var d1, d2 := Digit(c / 10), Digit(c % 10);
    UngroupedGrouped(ds);
    DigitsValueOfNatDigits(cents / 100);
    EuroValueOfParts(Grouped(ds), d1, d2);
    Recombined(cents, DigitsValue(Ungrouped(Grouped(ds))), DigitValue(d1), DigitValue(d2));
  }

  /** The euro text reads back as its whole euros and two cent digits. */
  lemma {:induction false} EuroValueOfParts(g: string, d1: char, d2: char)
    requires AllDigits(Ungrouped(g)) && IsDigit(d1) && IsDigit(d2)
    ensures PositiveEuroValue("€" + g + "." + [d1, d2])
         == Some(DigitsValue(Ungrouped(g)) * 100 + DigitValue(d1) * 10 + DigitValue(d2))
  {
    var s := "€" + g + "." + [d1, d2];
    assert |s| == |g| + 4;
    assert s[0] == '€' && s[|s| - 3] == '.' && s[|s| - 2] == d1 && s[|s| - 1] == d2;
    assert s[1..|s| - 3] == g;
  }

  /** Whole euros and two cent digits add back up to the amount. */
  lemma {:induction false} Recombined(cents: nat, whole: int, d1: int, d2: int)
    requires whole == cents / 100 && d1 * 10 + d2 == cents % 100
    ensures whole * 100 + d1 * 10 + d2 == cents
  {
  }
}
