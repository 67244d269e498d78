/** dialog.ProcedureAddDialog: the modal dialog that creates a procedure from
    a name and a cost. The cost field carries the same digits-and-point filter
    as the payment dialog's amount field; validEntry runs after every change
    of either field and enables Add only for a non-empty name and a positive
    cost; Add makes the procedure through the auto-id constructor.

    As for the payment dialog, the modal showDialog is split: ShowDialog is
    what happens before the wait, the field and button methods are the events
    that arrive while the dialog is open, and showDialog returns the
    `procedure` field once the dialog is closed. */
module ProcedureAddDialogs {
  import opened DecimalField
  import opened Ids
  import opened JavaText
  import opened Money
  import opened Outcomes
  import opened PaymentDialogs
  import opened Procedures

  /** validEntry's effect on Add: off while either field is empty, and
      otherwise what the cost alone decides (on exactly for a positive cost,
      left as it was when parseDouble throws). */
  function AddEnabled(name: string, cost: string, before: bool): bool
    requires Numeric(cost)
  {
    if name == [] then false else AmountEnabled(cost, before)
  }

  /** How validEntry ends: parseDouble runs, and can throw, only when both
      fields hold text. */
  function AddStatus(name: string, cost: string): (s: Status)
    requires Numeric(cost)
    ensures s.Threw? <==> name != [] && cost != [] && ParseDouble(cost).Raised?
  {
    if name == [] then Completed else AmountStatus(cost)
  }

  /** The state of Add agrees with the two fields: off while the name is
      empty, and otherwise as the cost alone decides (off while it is empty,
      and, when it parses, on exactly for a positive cost). */
  predicate AddAgrees(name: string, cost: string, enabled: bool)
    requires Numeric(cost)
  {
    if name == [] then !enabled else EntryAgrees(cost, enabled)
  }

  /** validEntry always leaves Add agreeing with the fields, whatever it was
      before; in particular an enabled Add means a name, a cost, and, if the
      cost parses, a positive one. */
  lemma {:induction false} AddEnabledAgrees(name: string, cost: string, before: bool)
    requires Numeric(cost)
    ensures AddAgrees(name, cost, AddEnabled(name, cost, before))
    ensures AddEnabled(name, cost, before) ==>
      name != [] && cost != [] && (ParseDouble(cost).Returned? ==> ParseDouble(cost).value > 0.0)
  {
    ValidEntryAgrees(cost, before);
  }

  /** AbstractDocument.insertString(offset, text): the text goes in at the
      offset, and an offset outside the document is a BadLocationException. */
  function NameInsert(field: string, offset: int, text: string): (r: Result<string>)
    ensures r.Raised? <==> !(0 <= offset <= |field|)
    ensures r.Returned? ==>
      (|r.value| == |field| + |text| && r.value[..offset] == field[..offset]
       && r.value[offset..offset + |text|] == text && r.value[offset + |text|..] == field[offset..])
  {
    if 0 <= offset <= |field| then Returned(field[..offset] + text + field[offset..]) else Raised(BadLocation)
  }

  /** A replacement of the name is two validEntry runs, not one: with a cost
      that does not parse and Add on, clearing the name turns Add off and the
      second run, which throws, leaves it off, while a single run with the
      new name would have kept Add on. */
  lemma {:induction false} ReplacementIsTwoEvents(name: string, cost: string)
    requires name != [] && cost != [] && Numeric(cost) && ParseDouble(cost).Raised?
    ensures AddEnabled(name, cost, AddEnabled([], cost, true)) == false
    ensures AddEnabled(name, cost, true) == true
  {
  }

  /** A cost with a second point pasted in, such as "1.23.4", does not parse. */
  lemma {:induction false} SecondPointCostFails()
    ensures Numeric("1.23.4") && ParseDouble("1.23.4").Raised?
  {
    var c := "1.23.4";
    assert c == c[..4] + [c[4]] + c[5..];
    assert c[..4] == c[..1] + [c[1]] + c[2..4];
    assert multiset(c)['.'] >= 2;
    ParseDoubleDefined(c);
  }

  class ProcedureAddDialog {
    var procedure: Procedure?
    var nameText: string
    var costText: string
    var addEnabled: bool
    var visible: bool

    /** Between events: the cost field holds digits and points only and Add
        agrees with the two fields. */
    predicate Valid()
      reads this
    {
      Numeric(costText) && AddAgrees(nameText, costText, addEnabled)
    }

    /** The constructor: both fields empty, Add disabled, no procedure. */
    constructor ()
      ensures Valid() && !visible
      ensures procedure == null && nameText == [] && costText == [] && !addEnabled
    {
      procedure := null;
      nameText := [];
      costText := [];
      addEnabled := false;
      visible := false;
    }

    /** validEntry: Add follows the two fields. */
    method ValidEntry() returns (s: Status)
      requires Numeric(costText)
      modifies this`addEnabled
      ensures addEnabled == AddEnabled(nameText, costText, old(addEnabled))
      ensures AddAgrees(nameText, costText, addEnabled)
      ensures s == AddStatus(nameText, costText)
    {
      AddEnabledAgrees(nameText, costText, addEnabled);
      if nameText == [] || costText == [] {
        addEnabled := false;
      } else {
        var amount := ParseDouble(costText);
        if amount.Raised? {
          return Threw(NumberFormat);
        }
        addEnabled := amount.value > 0.0;
      }
      s := Completed;
    }

    /** One insert or remove event on the name field that leaves it holding
        `t`; the document listener then runs validEntry once. */
    method EditName(t: string) returns (s: Status)
      requires Valid()
      modifies this`nameText, this`addEnabled
      ensures Valid()
      ensures nameText == t && costText == old(costText)
      ensures addEnabled == AddEnabled(t, costText, old(addEnabled))
      ensures s == AddStatus(t, costText)
    {
      nameText := t;
      s := ValidEntry();
    }

    /** document.replace(offset, length, text) on the unfiltered name field,
        as typing over a selection or setText does: nothing at all for an
        empty replacement of nothing; otherwise a remove event when length is
        positive and an insert event when the text is not empty, each running
        validEntry. An exception, from a bad offset or from validEntry, ends
        the replacement where it is thrown. */
    method ReplaceName(offset: int, length: int, text: string) returns (s: Status)
      requires Valid()
      modifies this`nameText, this`addEnabled
      ensures Valid() && costText == old(costText)
      ensures length <= 0 && text == [] ==>
        nameText == old(nameText) && addEnabled == old(addEnabled) && s == Completed
      ensures length > 0 && RemoveStep(old(nameText), offset, length).Raised? ==>
        nameText == old(nameText) && addEnabled == old(addEnabled) && s == Threw(BadLocation)
      ensures length > 0 && RemoveStep(old(nameText), offset, length).Returned? ==>
        var mid := RemoveStep(old(nameText), offset, length).value;
        (AddStatus(mid, costText).Threw? || text == []) ==>
          nameText == mid && addEnabled == AddEnabled(mid, costText, old(addEnabled))
          && s == AddStatus(mid, costText)
      ensures text != [] && (length <= 0 || RemoveStep(old(nameText), offset, length).Returned?) ==>
        var mid := if length > 0 then RemoveStep(old(nameText), offset, length).value else old(nameText);
        var between := if length > 0 then AddEnabled(mid, costText, old(addEnabled)) else old(addEnabled);
        (length <= 0 || AddStatus(mid, costText) == Completed) ==>
          match NameInsert(mid, offset, text)
          case Raised(e) =>
            nameText == mid && addEnabled == between && s == Threw(e)
          case Returned(t) =>
            nameText == t && addEnabled == AddEnabled(t, costText, between) && s == AddStatus(t, costText)
    {
      if length <= 0 && text == [] {
        return Completed;
      }
      s := Completed;
      if length > 0 {
        var removed := RemoveStep(nameText, offset, length);
        if removed.Raised? {
          return Threw(removed.error);
        }
        s := EditName(removed.value);
        if s.Threw? {
          return;
        }
      }
      if text != [] {
        var inserted := NameInsert(nameText, offset, text);
        if inserted.Raised? {
          return Threw(inserted.error);
        }
        s := EditName(inserted.value);
      }
    }

    /** The filter bypass writes the new cost text, then validEntry runs. */
    method StoreCost(t: string) returns (s: Status)
      requires Valid() && Numeric(t)
      modifies this`costText, this`addEnabled
      ensures Valid()
      ensures costText == t && addEnabled == AddEnabled(nameText, t, old(addEnabled))
      ensures s == AddStatus(nameText, t)
    {
      costText := t;
      s := ValidEntry();
    }

    /** The filter's replace on the cost field, as the document calls it,
        then validEntry when the text went in. The document never calls it
        with an empty text and a zero length: it returns before the filter
        then, as SetText shows. */
    method CostReplace(offset: int, length: int, text: string) returns (s: Status)
      requires Valid()
      modifies this`costText, this`addEnabled
      ensures Valid() && nameText == old(nameText)
      ensures match ReplaceStep(old(costText), offset, text)
        case Refused =>
          s == Completed && costText == old(costText) && addEnabled == old(addEnabled)
        case Failed(e) =>
          s == Threw(e) && costText == old(costText) && addEnabled == old(addEnabled)
        case Inserted(t) =>
          costText == t && addEnabled == AddEnabled(nameText, t, old(addEnabled))
          && s == AddStatus(nameText, t)
    {
      ReplaceKeepsNumeric(costText, offset, text);
      var step := FilterReplace(costText, offset, text);
      match step {
        case Refused =>
          s := Completed;
        case Failed(e) =>
          s := Threw(e);
        case Inserted(t) =>
          s := StoreCost(t);
      }
    }

    /** The filter's remove on the cost field, then validEntry. */
    method CostRemove(offset: int, length: int) returns (s: Status)
      requires Valid()
      modifies this`costText, this`addEnabled
      ensures Valid() && nameText == old(nameText)
      ensures RemoveStep(old(costText), offset, length).Raised? ==>
        s == Threw(BadLocation) && costText == old(costText) && addEnabled == old(addEnabled)
      ensures RemoveStep(old(costText), offset, length).Returned? ==>
        costText == RemoveStep(old(costText), offset, length).value
        && addEnabled == AddEnabled(nameText, costText, old(addEnabled))
        && s == AddStatus(nameText, costText)
    {
      RemoveKeepsNumeric(costText, offset, length);
      var r := RemoveStep(costText, offset, length);
      if r.Raised? {
        return Threw(BadLocation);
      }
      s := StoreCost(r.value);
    }

    /** showDialog: the dialog goes on screen and waits for the user. */
    method ShowDialog()
      requires Valid()
      modifies this`visible
      ensures Valid() && visible
    {
      visible := true;
    }

    /** Add: the cost is parsed again; with no procedure yet a new one is
        made through the auto-id constructor, otherwise the procedure's name
        and cost are overwritten. The dialog then closes. An enabled Add
        means a name and, once the cost parses, a positive amount, so the
        procedure never gets an empty name or a negative cost. When the cost
        does not parse (a pasted text can bring a second point), the
        exception leaves everything as it was. */
    method Add(ids: IdCounter) returns (s: Status)
      requires Valid() && visible && addEnabled
      modifies this`procedure, this`visible, ids, procedure
      ensures Valid()
      ensures ParseDouble(costText).Raised? ==>
        s == Threw(NumberFormat) && visible && procedure == old(procedure) && ids.next == old(ids.next)
        && (procedure != null ==> procedure.Record() == old(procedure.Record()))
      ensures ParseDouble(costText).Returned? ==>
        s == Completed && !visible && procedure != null
        && ParseDouble(costText).value > 0.0
        && procedure.procedureName != [] && procedure.procedureCost >= 0
      ensures ParseDouble(costText).Returned? && old(procedure) == null ==>
        fresh(procedure)
        && procedure.Record() == ProcedureRecord(old(ids.next), nameText, RoundHalfUp(ParseDouble(costText).value))
        && ids.next == Inc32(old(ids.next))
      ensures ParseDouble(costText).Returned? && old(procedure) != null ==>
        procedure == old(procedure)
        && procedure.Record() == old(procedure.Record()).(name := nameText,
                                                          cost := RoundHalfUp(ParseDouble(costText).value))
        && ids.next == old(ids.next)
    {
      var amount := ParseDouble(costText);
      if amount.Raised? {
        return Threw(NumberFormat);
      }
      if procedure == null {
        procedure := new Procedure(ids, nameText, amount.value);
      } else {
        procedure.SetProcedureName(nameText);
        procedure.SetProcedureCost(amount.value);
      }
      visible := false;
      s := Completed;
    }

    /** Cancel: the dialog closes and nothing else changes, so showDialog
        returns null. */
    method Cancel()
      requires Valid()
      modifies this`visible
      ensures Valid() && !visible
    {
      visible := false;
    }
  }

  /** Typing a name and a whole number of euros, then pressing Add, creates
      a procedure with that name and exactly that cost in cents. */
  method AddWholeEuros(ids: IdCounter, name: string, euros: nat) returns (p: Procedure?)
    requires name != [] && 0 < euros
    modifies ids
    ensures p != null && fresh(p)
    ensures p.Record() == ProcedureRecord(old(ids.next), name, euros * 100)
    ensures ids.next == Inc32(old(ids.next))
  {
    var dialog := new ProcedureAddDialog();
    dialog.ShowDialog();
    var s := dialog.EditName(name);
    var digits := NatText(euros);
    WholeEurosEntered(euros);
    s := dialog.CostReplace(0, 0, digits);
    s := dialog.Add(ids);
    p := dialog.procedure;
  }

  /** The digits of a whole number of euros go into the empty cost field
      unchanged and read back as that many euros, which is that many hundred
      cents. */
  lemma {:induction false} WholeEurosEntered(euros: nat)
    requires euros > 0
    ensures ReplaceStep([], 0, NatText(euros)) == Inserted(NatText(euros))
    ensures Numeric(NatText(euros)) && ParseDouble(NatText(euros)) == Returned(euros as real)
    ensures RoundHalfUp(euros as real) == euros * 100
  {
    var digits := NatText(euros);
    ParseWhole(digits);
    StrippedNumeric(digits);
    assert IsDigit(digits[0]);
    assert [][..0] + digits + [][0..] == digits;
    RoundHalfUpIdempotent(euros * 100);
    assert (euros * 100) as real / 100.0 == euros as real;
  }
}
