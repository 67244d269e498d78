/** The numeric text fields of PaymentDialog (amount) and ProcedureAddDialog
    (cost). Each field carries a DocumentFilter that lets only ASCII digits and
    decimal points in, and its text is read with Double.parseDouble. Both
    dialogs hold their own copy of the same filter and of existsDecimal; the
    shared behaviour is defined here once. */
module DecimalField {
  import opened JavaText
  import opened Outcomes

  /** A character the pattern [^\d.] does not match: an ASCII digit or '.'. */
  predicate Kept(c: char) {
    IsDigit(c) || c == '.'
  }

  /** A text made of digits and points only. */
  predicate Numeric(s: string) {
    forall i :: 0 <= i < |s| ==> Kept(s[i])
  }

  /** text.replaceAll("[^\\d.]", ""): the kept characters, in order. */
  function Stripped(text: string): (r: string)
    ensures Numeric(r) && |r| <= |text|
  {
    if text == [] then []
    else (if Kept(text[0]) then [text[0]] else []) + Stripped(text[1..])
  }

  /** Stripping works character by character. */
  lemma {:induction false} StrippedAppend(a: string, b: string)
    ensures Stripped(a + b) == Stripped(a) + Stripped(b)
  {
    if a == [] {
      assert a + b == b;
    } else {
      assert (a + b)[0] == a[0] && (a + b)[1..] == a[1..] + b;
      StrippedAppend(a[1..], b);
    }
  }

  /** A text of digits and points passes unchanged, so stripping twice is
      stripping once. */
  lemma {:induction false} StrippedNumeric(s: string)
    requires Numeric(s)
    ensures Stripped(s) == s
  {
    if s != [] {
      StrippedNumeric(s[1..]);
    }
  }

  lemma {:induction false} StrippedIdempotent(text: string)
    ensures Stripped(Stripped(text)) == Stripped(text)
  {
    StrippedNumeric(Stripped(text));
  }

  /** Every digit and every point of the text survives, as often as it occurs. */
  lemma {:induction false} StrippedKeepsCounts(text: string, c: char)
    requires Kept(c)
    ensures multiset(Stripped(text))[c] == multiset(text)[c]
  {
    if text != [] {
      StrippedKeepsCounts(text[1..], c);
      assert text == [text[0]] + text[1..];
    }
  }

  /** existsDecimal: scans the text for a decimal point. */
  method ExistsDecimal(text: string) returns (found: bool)
    ensures found <==> '.' in text
  {
    var i := 0;
    while i < |text|
      invariant 0 <= i <= |text|
      invariant '.' !in text[..i]
    {
      if text[i] == '.' {
        return true;
      }
      assert text[..i + 1] == text[..i] + [text[i]];
      i := i + 1;
    }
    assert text[..i] == text;
    return false;
  }

  /** What the filter's replace does to the field before the dialog's
      validation runs. */
  datatype FilterStep =
    | Refused             // a text starting with '.' while the field has a point
    | Failed(error: JavaError)
    | Inserted(text: string)

  /** DocumentFilter.replace(offset, length, text): empty text fails at
      charAt(0); text starting with '.' is refused when the field already holds
      a point (only the first character is looked at); otherwise the stripped
      text is inserted at the offset and `length` is ignored, so nothing is
      replaced. Inserting nothing leaves the document as it is; an offset
      outside the document is a BadLocationException. */
  function ReplaceStep(field: string, offset: int, text: string): (r: FilterStep)
    ensures r.Inserted? ==> |r.text| == |field| + |Stripped(text)|
  {
    if text == [] then Failed(StringIndexOutOfBounds)
    else if text[0] == '.' && '.' in field then Refused
    else if Stripped(text) == [] then Inserted(field)
    else if !(0 <= offset <= |field|) then Failed(BadLocation)
    else Inserted(field[..offset] + Stripped(text) + field[offset..])
  }

  /** DocumentFilter.remove(offset, length), passed on to the document: the
      characters [offset, offset + length) go; a range outside the document is
      a BadLocationException; a length of zero or less removes nothing. */
  function RemoveStep(field: string, offset: int, length: int): (r: Result<string>)
    ensures r.Returned? ==> |r.value| == |field| - (if length > 0 then length else 0)
  {
    if length <= 0 then Returned(field)
    else if offset < 0 || offset + length > |field| then Raised(BadLocation)
    else Returned(field[..offset] + field[offset + length..])
  }

  /** The filter keeps the field to digits and points, and never loses what
      was there: the old text is the inserted text with the new characters
      taken out at the offset. */
  lemma {:induction false} ReplaceKeepsNumeric(field: string, offset: int, text: string)
    requires Numeric(field)
    ensures ReplaceStep(field, offset, text).Inserted? ==> Numeric(ReplaceStep(field, offset, text).text)
    ensures ReplaceStep(field, offset, text).Inserted? && Stripped(text) != [] ==>
      var t := ReplaceStep(field, offset, text).text;
      t[..offset] + t[offset + |Stripped(text)|..] == field && t[offset..offset + |Stripped(text)|] == Stripped(text)
  {
    var r := ReplaceStep(field, offset, text);
    if r.Inserted? && Stripped(text) != [] {
      var ins := Stripped(text);
      var t := field[..offset] + ins + field[offset..];
      assert t[..offset] == field[..offset];
      assert t[offset..offset + |ins|] == ins;
      assert t[offset + |ins|..] == field[offset..];
      assert field[..offset] + field[offset..] == field;
      forall i | 0 <= i < |t|
        ensures Kept(t[i])
      {
        if i < offset {
          assert t[i] == field[i];
        } else if i < offset + |ins| {
          assert t[i] == ins[i - offset];
        } else {
          assert t[i] == field[i - |ins|];
        }
      }
    }
  }

  /** Removing keeps the field to digits and points. */
  lemma {:induction false} RemoveKeepsNumeric(field: string, offset: int, length: int)
    requires Numeric(field)
    ensures RemoveStep(field, offset, length).Returned? ==> Numeric(RemoveStep(field, offset, length).value)
  {
    if length > 0 && 0 <= offset && offset + length <= |field| {
      var t := field[..offset] + field[offset + length..];
      forall i | 0 <= i < |t|
        ensures Kept(t[i])
      {
        if i >= offset {
          assert t[i] == field[i + length];
        }
      }
    }
  }

  /** A second point typed as the first character of an insertion is refused,
      but one later in the inserted text gets through: the filter does not
      keep the field to one point. */
  lemma {:induction false} SecondPointGetsThrough()
    ensures ReplaceStep("1.5", 3, "2.5") == Inserted("1.52.5")
    ensures ReplaceStep("1.5", 3, ".5") == Refused
  {
    assert Stripped("2.5") == "2.5" by {
      StrippedNumeric("2.5");
    }
  }

  /** The filter of the field, run as the dialogs run it: existsDecimal scans
      the field only when the inserted text starts with a point. */
  method FilterReplace(field: string, offset: int, text: string) returns (step: FilterStep)
    ensures step == ReplaceStep(field, offset, text)
  {
    if text == [] {
      return Failed(StringIndexOutOfBounds);
    }
    if text[0] == '.' {
      var hasPoint := ExistsDecimal(field);
      if hasPoint {
        return Refused;
      }
    }
    var inserted := Stripped(text);
    if inserted == [] {
      return Inserted(field);
    }
    if !(0 <= offset <= |field|) {
      return Failed(BadLocation);
    }
    step := Inserted(field[..offset] + inserted + field[offset..]);
  }

  // Double.parseDouble on the texts these fields can hold

  /** The position of the first decimal point, or the length if there is none. */
  function PointIndex(s: string): (k: nat)
    ensures k <= |s| && '.' !in s[..k]
    ensures k < |s| ==> s[k] == '.'
  {
    if s == [] then 0
    else if s[0] == '.' then 0
    else
      var k := 1 + PointIndex(s[1..]);
      assert s[..k] == [s[0]] + s[1..][..k - 1];
      k
  }

  /** The digits after the first point, or nothing when there is no point. */
  function Fraction(s: string): string {
    if PointIndex(s) < |s| then s[PointIndex(s) + 1..] else []
  }

  /** Double.parseDouble on a text of digits and points: the digits before the
      first point are the whole part and those after it the fraction. A second
      point, or no digit at all ("" or "."), is a NumberFormatException. The
      value is the exact decimal, not the nearest double. */
  function ParseDouble(s: string): (r: Result<real>)
    requires Numeric(s)
    ensures r.Returned? ==> r.value >= 0.0
    ensures r.Raised? ==> r.error == NumberFormat
  {
    var whole, fraction := s[..PointIndex(s)], Fraction(s);
    if '.' in fraction || (whole == [] && fraction == []) then Raised(NumberFormat)
    else
      assert AllDigits(whole) && AllDigits(fraction);
      Returned(DigitsValue(whole) as real + DigitsValue(fraction) as real / Pow10(|fraction|) as real)
  }

  /** The text splits at its first point into whole part and fraction. */
  lemma {:induction false} SplitAtPoint(s: string)
    ensures PointIndex(s) < |s| ==> s == s[..PointIndex(s)] + "." + Fraction(s)
    ensures PointIndex(s) == |s| ==> s == s[..PointIndex(s)]
  {
  }

  /** Has at least one digit. */
  predicate HasDigit(s: string) {
    exists i :: 0 <= i < |s| && IsDigit(s[i])
  }

  /** Has a digit other than 0. */
  predicate HasNonZero(s: string) {
    exists i :: 0 <= i < |s| && IsDigit(s[i]) && s[i] != '0'
  }

  /** The text parses exactly when it holds a digit and at most one point. */
  lemma {:induction false} ParseDoubleDefined(s: string)
    requires Numeric(s)
    ensures ParseDouble(s).Returned? <==> HasDigit(s) && multiset(s)['.'] <= 1
  {
    var k := PointIndex(s);
    var whole, fraction := s[..k], Fraction(s);
    assert multiset(whole)['.'] == 0;
    if k < |s| {
      SplitAtPoint(s);
      assert multiset(s)['.'] == 1 + multiset(fraction)['.'];
      DigitIn(whole, ".", fraction);
      if '.' !in fraction && whole == [] && fraction == [] {
        assert s == ".";
      }
    } else {
      assert s == whole;
      if whole == [] {
        assert !HasDigit(s);
      } else {
        assert IsDigit(s[0]);
      }
    }
    if '.' in fraction {
      assert multiset(fraction)['.'] >= 1;
    }
  }

  /** The digits of whole + "." + fraction are those of the two parts. */
  lemma {:induction false} DigitIn(whole: string, point: string, fraction: string)
    requires point == "."
    ensures HasDigit(whole + point + fraction) <==> HasDigit(whole) || HasDigit(fraction)
    ensures HasNonZero(whole + point + fraction) <==> HasNonZero(whole) || HasNonZero(fraction)
  {
    var s := whole + point + fraction;
    if HasDigit(s) {
      var i :| 0 <= i < |s| && IsDigit(s[i]);
      if i >= |whole| + 1 {
        assert fraction[i - |whole| - 1] == s[i];
      } else {
        assert whole[i] == s[i];
      }
    }
    if HasDigit(fraction) {
      var i :| 0 <= i < |fraction| && IsDigit(fraction[i]);
      assert s[|whole| + 1 + i] == fraction[i];
    }
    if HasDigit(whole) {
      var i :| 0 <= i < |whole| && IsDigit(whole[i]);
      assert s[i] == whole[i];
    }
    if HasNonZero(s) {
      var i :| 0 <= i < |s| && IsDigit(s[i]) && s[i] != '0';
      if i >= |whole| + 1 {
        assert fraction[i - |whole| - 1] == s[i];
      } else {
        assert whole[i] == s[i];
      }
    }
    if HasNonZero(fraction) {
      var i :| 0 <= i < |fraction| && IsDigit(fraction[i]) && fraction[i] != '0';
      assert s[|whole| + 1 + i] == fraction[i];
    }
    if HasNonZero(whole) {
      var i :| 0 <= i < |whole| && IsDigit(whole[i]) && whole[i] != '0';
      assert s[i] == whole[i];
    }
  }

  /** A digit string denotes a positive number exactly when one of its digits
      is not 0. */
  lemma {:induction false} DigitsValuePositive(ds: string)
    requires AllDigits(ds)
    ensures DigitsValue(ds) > 0 <==> HasNonZero(ds)
    decreases |ds|
  {
    if ds != [] {
      var init := ds[..|ds| - 1];
      DigitsValuePositive(init);
      if HasNonZero(init) {
        var i :| 0 <= i < |init| && IsDigit(init[i]) && init[i] != '0';
        assert ds[i] == init[i];
      }
      if HasNonZero(ds) {
        var i :| 0 <= i < |ds| && IsDigit(ds[i]) && ds[i] != '0';
        if i < |ds| - 1 {
          assert init[i] == ds[i];
        }
      }
    }
  }

  /** A text that parses gives a positive number exactly when one of its
      digits is not 0: "0.00" and "." do not enable a confirm button, "0.01"
      does. */
  lemma {:induction false} ParseDoublePositive(s: string)
    requires Numeric(s) && ParseDouble(s).Returned?
    ensures ParseDouble(s).value > 0.0 <==> HasNonZero(s)
  {
    var k := PointIndex(s);
    var whole, fraction := s[..k], Fraction(s);
    assert AllDigits(whole) && AllDigits(fraction);
    DigitsValuePositive(whole);
    DigitsValuePositive(fraction);
    SplitAtPoint(s);
    if k < |s| {
      DigitIn(whole, ".", fraction);
    }
    FractionPart(DigitsValue(whole), DigitsValue(fraction), Pow10(|fraction|));
  }

  lemma {:induction false} FractionPart(w: nat, f: nat, p: nat)
    requires p >= 1
    ensures w as real + f as real / p as real > 0.0 <==> w > 0 || f > 0
  {
    if f > 0 {
      assert f as real / p as real > 0.0;
    }
  }

  /** Digits, one point, digits: the value is whole part plus fraction. */
  lemma {:induction false} ParseDecimal(whole: string, fraction: string)
    requires AllDigits(whole) && AllDigits(fraction) && (whole != [] || fraction != [])
    ensures Numeric(whole + "." + fraction)
    ensures ParseDouble(whole + "." + fraction)
      == Returned(DigitsValue(whole) as real + DigitsValue(fraction) as real / Pow10(|fraction|) as real)
  {
    var s := whole + "." + fraction;
    assert PointIndex(s) == |whole| by {
      PointIndexAfterDigits(whole, "." + fraction);
      assert s == whole + ("." + fraction);
    }
    assert s[..|whole|] == whole;
    assert Fraction(s) == fraction;
  }

  /** Digits without a point: the value is the whole number. */
  lemma {:induction false} ParseWhole(ds: string)
    requires AllDigits(ds) && ds != []
    ensures Numeric(ds)
    ensures ParseDouble(ds) == Returned(DigitsValue(ds) as real)
  {
    var k := PointIndex(ds);
    if k < |ds| {
      assert false;
    }
    assert ds[..k] == ds;
    assert Fraction(ds) == [];
  }

  lemma {:induction false} PointIndexAfterDigits(ds: string, rest: string)
    requires AllDigits(ds) && rest != [] && rest[0] == '.'
    ensures PointIndex(ds + rest) == |ds|
    decreases |ds|
  {
    if ds != [] {
      assert (ds + rest)[1..] == ds[1..] + rest;
      PointIndexAfterDigits(ds[1..], rest);
    }
  }
}
