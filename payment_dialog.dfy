/** dialog.PaymentDialog: the modal dialog that creates a payment, or edits
    one in place. The amount field accepts only digits and points; Confirm is
    enabled by validEntry after every change of the field; confirming either
    constructs a new payment or overwrites the amount, date and status of the
    one being edited.

    The modal wait of showDialog is split here: ShowNew / ShowEdit do what
    showDialog does before setVisible(true), the field and button methods are
    the events that arrive while the dialog is open, and what showDialog then
    returns is the `payment` field once the dialog is closed. */
module PaymentDialogs {
  import opened Calendar
  import opened DecimalField
  import opened Ids
  import opened JavaText
  import opened Lists
  import opened Money
  import opened Outcomes
  import opened Payments

  /** The text beside the status check box. */
  function StatusLabel(selected: bool): string {
    if selected then "Paid" else "UnPaid"
  }

  /** validEntry's effect on Confirm for the amount text: disabled for an
      empty field, enabled exactly for a positive amount, and left as it was
      when parseDouble throws. */
  function AmountEnabled(text: string, before: bool): bool
    requires Numeric(text)
  {
    if text == [] then false
    else match ParseDouble(text)
      case Returned(v) => v > 0.0
      case Raised(_) => before
  }

  /** How validEntry ends: only parseDouble can throw. */
  function AmountStatus(text: string): (s: Status)
    requires Numeric(text)
    ensures s.Threw? <==> text != [] && ParseDouble(text).Raised?
  {
    if text != [] && ParseDouble(text).Raised? then Threw(NumberFormat) else Completed
  }

  /** The state of Confirm agrees with the amount text: off for an empty
      field and, whenever the text parses, on exactly for a positive amount. */
  predicate EntryAgrees(text: string, enabled: bool)
    requires Numeric(text)
  {
    && (text == [] ==> !enabled)
    && (ParseDouble(text).Returned? ==> enabled == (ParseDouble(text).value > 0.0))
  }

  /** validEntry always leaves Confirm agreeing with the text, whatever it was
      before. */
  lemma {:induction false} ValidEntryAgrees(text: string, before: bool)
    requires Numeric(text)
    ensures EntryAgrees(text, AmountEnabled(text, before))
  {
  }

  class PaymentDialog {
    var payment: Payment?
    var date: Option<Date>
    var amountText: string
    var isPaid: bool
    var statusLabel: string
    var confirmEnabled: bool
    var visible: bool

    /** What holds between events: the field holds digits and points only;
        Confirm is off while the field is empty; whenever the field parses,
        Confirm is on exactly when the amount is positive; the label names
        the state of the box; a dialog on screen has its date. */
    predicate Valid()
      reads this
    {
      Numeric(amountText)
      && EntryAgrees(amountText, confirmEnabled)
      && statusLabel == StatusLabel(isPaid)
      && (visible ==> date.Some?)
    }

    /** The constructor: an empty field, Confirm disabled, the box clear and
        labelled "UnPaid", no payment yet. */
    constructor ()
      ensures Valid() && !visible
      ensures payment == null && date == None && amountText == [] && !isPaid && !confirmEnabled
    {
      payment := null;
      date := None;
      amountText := [];
      isPaid := false;
      statusLabel := StatusLabel(false);
      confirmEnabled := false;
      visible := false;
    }

    /** validEntry: Confirm follows the amount text. */
    method ValidEntry() returns (s: Status)
      requires Numeric(amountText)
      modifies this`confirmEnabled
      ensures confirmEnabled == AmountEnabled(amountText, old(confirmEnabled))
      ensures EntryAgrees(amountText, confirmEnabled)
      ensures s == AmountStatus(amountText)
    {
      ValidEntryAgrees(amountText, confirmEnabled);
      if amountText != [] {
        var amount := ParseDouble(amountText);
        if amount.Raised? {
          return Threw(NumberFormat);
        }
        confirmEnabled := amount.value > 0.0;
      } else {
        confirmEnabled := false;
      }
      s := Completed;
    }

    /** The filter bypass writes the new text into the field, then
        validEntry runs. */
    method Store(t: string) returns (s: Status)
      requires Valid() && Numeric(t)
      modifies this`amountText, this`confirmEnabled
      ensures Valid()
      ensures amountText == t && confirmEnabled == AmountEnabled(t, old(confirmEnabled))
      ensures s == AmountStatus(t)
    {
      amountText := t;
      s := ValidEntry();
    }

    /** The filter's replace on the amount field, as the document calls it,
        then validEntry when the text went in. The document never calls it
        with an empty text and a zero length: it returns before the filter
        then, as SetText shows. */
    method AmountReplace(offset: int, length: int, text: string) returns (s: Status)
      requires Valid()
      modifies this`amountText, this`confirmEnabled
      ensures Valid()
      ensures match ReplaceStep(old(amountText), offset, text)
        case Refused =>
          s == Completed && amountText == old(amountText) && confirmEnabled == old(confirmEnabled)
        case Failed(e) =>
          s == Threw(e) && amountText == old(amountText) && confirmEnabled == old(confirmEnabled)
        case Inserted(t) =>
          amountText == t && confirmEnabled == AmountEnabled(t, old(confirmEnabled)) && s == AmountStatus(t)
    {
      ReplaceKeepsNumeric(amountText, offset, text);
      var step := FilterReplace(amountText, offset, text);
      match step {
        case Refused =>
          s := Completed;
        case Failed(e) =>
          s := Threw(e);
        case Inserted(t) =>
          s := Store(t);
      }
    }

    /** The filter's remove on the amount field, then validEntry. */
    method AmountRemove(offset: int, length: int) returns (s: Status)
      requires Valid()
      modifies this`amountText, this`confirmEnabled
      ensures Valid()
      ensures RemoveStep(old(amountText), offset, length).Raised? ==>
        s == Threw(BadLocation) && amountText == old(amountText) && confirmEnabled == old(confirmEnabled)
      ensures RemoveStep(old(amountText), offset, length).Returned? ==>
        amountText == RemoveStep(old(amountText), offset, length).value
        && confirmEnabled == AmountEnabled(amountText, old(confirmEnabled))
        && s == AmountStatus(amountText)
    {
      RemoveKeepsNumeric(amountText, offset, length);
      var r := RemoveStep(amountText, offset, length);
      if r.Raised? {
        return Threw(BadLocation);
      }
      s := Store(r.value);
    }

    /** isPaid.setSelected(selected); the change listener relabels the
        box. */
    method SetSelected(selected: bool)
      requires Valid()
      modifies this`isPaid, this`statusLabel
      ensures Valid()
      ensures isPaid == selected && statusLabel == StatusLabel(selected)
    {
      isPaid := selected;
      statusLabel := StatusLabel(selected);
    }

    /** setText(t): a replace of the whole field. The document skips an
        empty replacement of an empty field before its filter sees it; any
        other empty text reaches the filter, whose first-character test
        throws. A text that starts with a point is refused, with nothing
        changed, when the field already holds a point; any other text goes in
        ahead of whatever the field held, and validEntry runs. */
    method SetText(t: string) returns (s: Status)
      requires Valid()
      modifies this`amountText, this`confirmEnabled
      ensures Valid()
      ensures t == [] ==>
        amountText == old(amountText) && confirmEnabled == old(confirmEnabled)
        && s == (if old(amountText) == [] then Completed else Threw(StringIndexOutOfBounds))
      ensures t != [] && t[0] == '.' && '.' in old(amountText) ==>
        amountText == old(amountText) && confirmEnabled == old(confirmEnabled) && s == Completed
      ensures t != [] && !(t[0] == '.' && '.' in old(amountText)) ==>
        amountText == Stripped(t) + old(amountText)
        && confirmEnabled == AmountEnabled(amountText, old(confirmEnabled))
        && s == AmountStatus(amountText)
    {
      if t == [] && amountText == [] {
        return Completed;
      }
      if t != [] && !(t[0] == '.' && '.' in amountText) {
        FirstCharacterInserted(amountText, t);
      }
      s := AmountReplace(0, |amountText|, t);
    }

    /** A click on the status box flips its state. */
    method ToggleStatus()
      requires Valid()
      modifies this`isPaid, this`statusLabel
      ensures Valid()
      ensures isPaid == !old(isPaid) && statusLabel == StatusLabel(isPaid)
    {
      SetSelected(!isPaid);
    }

    /** setVisible(true): the dialog is on screen, with its date. */
    method Open()
      requires Valid() && date.Some?
      modifies this`visible
      ensures Valid() && visible
    {
      visible := true;
    }

    /** showDialog(): the date is the moment of opening and the box is
        cleared; the dialog then waits for the user. */
    method ShowNew(now: Date)
      requires Valid()
      modifies this`date, this`isPaid, this`statusLabel, this`visible
      ensures Valid() && visible
      ensures date == Some(now) && !isPaid
    {
      date := Some(now);
      SetSelected(false);
      Open();
    }

    /** showDialog(payment), on a dialog whose amount field is still empty,
        as it is on every dialog the controllers open: the dialog keeps a
        reference to the payment and its date; the amount goes into the field
        through setText, and hence through the filter, as Double.toString
        writes it, and what the filter lets through always parses, so
        validEntry does not throw and Confirm is enabled exactly for a
        positive amount; the box then takes the payment's status. */
    method ShowEdit(p: Payment)
      requires Valid() && amountText == []
      modifies this
      ensures Valid() && visible
      ensures payment == p && date == Some(p.paymentDate) && isPaid == p.paymentStatus
      ensures amountText == Stripped(DoubleText(p.paymentAmount))
      ensures ParseDouble(amountText).Returned?
      ensures confirmEnabled == (ParseDouble(amountText).value > 0.0)
    {
      payment := p;
      date := Some(p.paymentDate);
      var shown := DoubleText(p.paymentAmount);
      DoubleTextEnters(p.paymentAmount);
      assert Stripped(shown) + [] == Stripped(shown);
      var s := SetText(shown);
      SetSelected(p.paymentStatus);
      Open();
    }

    /** Confirm: the amount is parsed again; with no payment a new one is
        made through the auto-id constructor and given the dialog's date,
        otherwise the edited payment's amount, date and status are
        overwritten and its id is kept. The dialog then closes. When the
        field does not parse (the filter lets a second point in), the
        exception leaves everything as it was. */
    method Confirm(ids: IdCounter, now: Date) returns (s: Status)
      requires Valid() && visible && confirmEnabled
      modifies this`payment, this`visible, ids, payment
      ensures Valid()
      ensures ParseDouble(amountText).Raised? ==>
        s == Threw(NumberFormat) && visible && payment == old(payment) && ids.next == old(ids.next)
        && (payment != null ==> payment.Record() == old(payment.Record()))
      ensures ParseDouble(amountText).Returned? ==>
        s == Completed && !visible && payment != null && ParseDouble(amountText).value > 0.0
      ensures ParseDouble(amountText).Returned? && old(payment) == null ==>
        fresh(payment)
        && payment.Record() == PaymentRecord(old(ids.next), RoundHalfUp(ParseDouble(amountText).value), date.value, isPaid)
        && ids.next == Inc32(old(ids.next))
      ensures ParseDouble(amountText).Returned? && old(payment) != null ==>
        payment == old(payment)
        && payment.Record() == old(payment.Record()).(amount := RoundHalfUp(ParseDouble(amountText).value),
                                                      date := date.value, paid := isPaid)
        && ids.next == old(ids.next)
    {
      var amount := ParseDouble(amountText);
      if amount.Raised? {
        return Threw(NumberFormat);
      }
      if payment == null {
        payment := new Payment.WithStatus(ids, amount.value, isPaid, now);
        payment.SetPaymentDate(date.value);
      } else {
        payment.SetPaymentAmount(amount.value);
        payment.SetPaymentDate(date.value);
        payment.SetPaymentStatus(isPaid);
      }
      visible := false;
      s := Completed;
    }

    /** Cancel: the dialog closes and nothing else changes, so showDialog
        returns null for a new payment and the untouched payment for an
        edit. */
    method Cancel()
      requires Valid()
      modifies this`visible
      ensures Valid() && !visible
    {
      visible := false;
    }
  }

  /** Whatever Double.toString writes for an amount, the filter keeps a text
      that parseDouble accepts: the minus sign and the 'E' of scientific
      notation are dropped, and one point and at least one digit remain. */
  lemma {:induction false} DoubleTextEnters(cents: int)
    ensures ParseDouble(Stripped(DoubleText(cents))).Returned?
  {
    if cents == 0 {
      ZeroTextEnters(cents);
    } else if cents < 0 {
      NegativeTextEnters(-cents);
    } else {
      PositiveTextEnters(cents);
    }
  }

  lemma {:induction false} NegativeTextEnters(a: int)
    requires a > 0
    ensures ParseDouble(Stripped(DoubleText(-a))).Returned?
  {
    assert ParseDouble(Stripped(PositiveDoubleText(a))).Returned? by {
      PositiveDoubleTextEnters(a);
    }
    MinusEnters(-a);
  }

  lemma {:induction false} MinusEnters(cents: int)
    requires cents < 0 && ParseDouble(Stripped(PositiveDoubleText(-cents))).Returned?
    ensures ParseDouble(Stripped(DoubleText(cents))).Returned?
  {
    var t := PositiveDoubleText(-cents);
    MinusDropped(t);
    assert DoubleText(cents) == "-" + t;
  }

  lemma {:induction false} PositiveTextEnters(cents: int)
    requires cents > 0
    ensures ParseDouble(Stripped(DoubleText(cents))).Returned?
  {
    PositiveDoubleTextEnters(cents);
  }

  /** A leading minus sign makes no difference to what the field keeps. */
  lemma {:induction false} MinusDropped(t: string)
    ensures Stripped("-" + t) == Stripped(t)
  {
    assert "-" + t == ['-'] + t;
    StrippedDropsFirst('-', t);
  }

  lemma {:induction false} ZeroTextEnters(cents: int)
    requires cents == 0
    ensures ParseDouble(Stripped(DoubleText(cents))).Returned?
  {
    var zero := [Digit(0)];
    ParseDecimal(zero, zero);
    StrippedNumeric(zero + "." + zero);
    assert DoubleText(cents) == zero + "." + zero;
  }

  lemma {:induction false} PositiveDoubleTextEnters(a: nat)
    requires a > 0
    ensures ParseDouble(Stripped(PositiveDoubleText(a))).Returned?
  {
    if a < PlainLimit {
      var whole, fraction := NatText(a / 100), FractionText(a % 100);
      ParseDecimal(whole, fraction);
      StrippedNumeric(whole + "." + fraction);
    } else {
      ScientificTextEnters(a);
    }
  }

  lemma {:induction false} ScientificTextEnters(a: nat)
    requires a >= PlainLimit
    ensures ParseDouble(Stripped(ScientificText(a))).Returned?
  {
    ScientificEnters(SigLead(a), SigFraction(a), Exponent(a));
  }

  /** The filter turns d.fffEx into d.fffx, which parses. */
  lemma {:induction false} ScientificEnters(lead: char, fraction: string, exponent: string)
    requires IsDigit(lead) && AllDigits(fraction) && AllDigits(exponent)
    ensures ParseDouble(Stripped(Scientific(lead, fraction, exponent))).Returned?
  {
    assert Scientific(lead, fraction, exponent) == [lead] + "." + fraction + "E" + exponent;
    ScientificStripped(lead, fraction, exponent);
    DigitsValueAppend(fraction, exponent);
    ParseDecimal([lead], fraction + exponent);
  }

  lemma {:induction false} ScientificStripped(lead: char, fraction: string, exponent: string)
    requires IsDigit(lead) && AllDigits(fraction) && AllDigits(exponent)
    ensures Stripped([lead] + "." + fraction + "E" + exponent) == [lead] + "." + (fraction + exponent)
  {
    var head := [lead] + "." + fraction;
    var tail := ['E'] + exponent;
    CollectedGrows(head, ['E'], exponent, head + tail);
    ParseDecimal([lead], fraction);
    StrippedNumeric(head);
    StrippedDropsFirst('E', exponent);
    DigitsNumeric(exponent);
    StrippedNumeric(exponent);
    StrippedAppend(head, tail);
    CollectedGrows([lead] + ".", fraction, exponent, [lead] + "." + (fraction + exponent));
  }

  lemma {:induction false} DigitsNumeric(s: string)
    requires AllDigits(s)
    ensures Numeric(s)
  {
  }

  /** The filter drops a character that is neither a digit nor a point. */
  lemma {:induction false} StrippedDropsFirst(c: char, t: string)
    requires !Kept(c)
    ensures Stripped([c] + t) == Stripped(t)
  {
    assert ([c] + t)[1..] == t;
  }

  /** Inserting at the start a text that does not begin with a point always
      goes through the filter. */
  lemma {:induction false} FirstCharacterInserted(field: string, text: string)
    requires text != [] && !(text[0] == '.' && '.' in field)
    ensures ReplaceStep(field, 0, text) == Inserted(Stripped(text) + field)
  {
    assert field[..0] == [] && field[0..] == field;
    if Stripped(text) == [] {
      assert Stripped(text) + field == field;
    }
  }

  /** Double.toString of an amount below ten million euros reads back, through
      the field, as that amount. */
  lemma {:induction false} DoubleTextParses(c: nat)
    requires 0 < c < PlainLimit
    ensures Numeric(DoubleText(c))
    ensures ParseDouble(DoubleText(c)) == Returned(c as real / 100.0)
  {
    var w, f := c / 100, c % 100;
    var whole, fraction := NatText(w), FractionText(f);
    assert DoubleText(c) == whole + "." + fraction;
    ParseDecimal(whole, fraction);
    FractionValue(f);
    WholeAndHundredths(c, DigitsValue(whole) as real, DigitsValue(fraction) as real / Pow10(|fraction|) as real);
  }

  lemma {:induction false} FractionValue(f: nat)
    requires f < 100
    ensures DigitsValue(FractionText(f)) as real / Pow10(|FractionText(f)|) as real == f as real / 100.0
  {
    var t := FractionText(f);
    var d, e := f / 10, f % 10;
    if e == 0 {
      OneDigitValue(d);
      SameQuotient(DigitsValue(t), Pow10(|t|), d, 10);
      assert d as real / 10.0 == f as real / 100.0 by {
        assert f == 10 * d;
      }
    } else {
      TwoDigitsValue(d, e);
      assert |t| == 2;
      SameQuotient(DigitsValue(t), Pow10(|t|), f, 100);
    }
  }

  /** Equal numerators over equal denominators (kept apart so that the
      solver never divides by a term it cannot see is a constant). */
  lemma {:induction false} SameQuotient(n: nat, p: nat, m: nat, q: nat)
    requires n == m && p == q && q > 0
    ensures n as real / p as real == m as real / q as real
  {
  }

  lemma {:induction false} OneDigitValue(d: nat)
    requires d < 10
    ensures DigitsValue([Digit(d)]) == d
  {
    assert [Digit(d)][..0] == [];
  }

  lemma {:induction false} TwoDigitsValue(d: nat, e: nat)
    requires d < 10 && e < 10
    ensures DigitsValue([Digit(d), Digit(e)]) == 10 * d + e
  {
    assert [Digit(d), Digit(e)][..1] == [Digit(d)];
    OneDigitValue(d);
  }

  /** Euros and hundredths add up to the amount in euros. */
  lemma {:induction false} WholeAndHundredths(c: nat, euros: real, hundredths: real)
    requires euros == (c / 100) as real && hundredths == (c % 100) as real / 100.0
    ensures euros + hundredths == c as real / 100.0
  {
    assert c == c / 100 * 100 + c % 100;
  }

  /** Editing a payment of less than ten million euros and confirming without
      touching anything stores the amount it had: the text Double.toString
      gives passes the filter unchanged and parses back exactly. The date and
      status are written back as they were, so the payment is unchanged. */
  method EditAndConfirm(p: Payment, ids: IdCounter, now: Date)
    requires 0 < p.paymentAmount < PlainLimit
    modifies p, ids
    ensures p.Record() == old(p.Record())
    ensures ids.next == old(ids.next)
  {
    var c := p.paymentAmount;
    EditedAmount(c);
    var dialog := new PaymentDialog();
    dialog.ShowEdit(p);
    var s := dialog.Confirm(ids, now);
  }

  /** The text the edit dialog shows for an amount below ten million euros
      reads back as that amount, and rounding it gives the same cents. */
  lemma {:induction false} EditedAmount(c: int)
    requires 0 < c < PlainLimit
    ensures ParseDouble(Stripped(DoubleText(c))) == Returned(c as real / 100.0)
    ensures RoundHalfUp(ParseDouble(Stripped(DoubleText(c))).value) == c
  {
    DoubleTextParses(c);
    StrippedNumeric(DoubleText(c));
    RoundHalfUpIdempotent(c);
  }

}
