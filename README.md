# Dental practice: domain model, reports, list holders and entry dialogs

This project models, in Dafny, the computational core of a single-practice
dental application written in Java (Swing on top of SQLite). The modelled
parts are:

- **The domain entities** `Patient`, `Payment` and `Procedure`:
  - per-class "next id" counters that the auto-id constructors read and
    advance, wrapping like a Java `int`;
  - in-place editing of a patient's procedure and payment lists, with the
    index checks of `ArrayList`;
  - the balance `getAmountOwed`: procedure costs less paid payments, not
    clamped;
  - the equalities (patients by id, procedures by name) and orderings
    (patients by name and by balance, payments by date);
  - HALF_UP rounding of money to whole cents;
  - the tab-separated `toString` texts and the `€###,###.00` cost text.
- **`ReportController`**:
  - the complete report, every patient ordered by name;
  - the overdue report, the patients ordered by balance and scanned with
    the skip rule exactly as the loop is written;
  - `patientToHTML`, the HTML block each report entry is made of.
- **The list holders**:
  - the `ProcedureList` singleton;
  - the three table models and the list contract they share;
  - the combo-box model.
- **Three dialogs**: `PaymentDialog`, `ProcedureAddDialog` and
  `PatientDialog`. The model covers the digits-and-point `DocumentFilter`
  of the amount and cost fields, the rules that enable the confirm
  buttons, and the create-or-edit effect of confirming.

Representation choices:
- **Money.** Amounts are exact integer cents, and input doubles are `real`.
- **Objects.** Objects whose fields the program updates in place are Dafny
  classes. Each entity class has a `Record()` function that gives its value
  as a datatype, and the pure specifications (balance, HTML, reports) are
  stated on these records.
- **`java.util.ArrayList`.** An `ArrayList` that several holders share by
  reference is the class `Lists.ArrayList`.
- **The shared table-model contract.** `CustomAbstractTableModel`'s
  abstract operations are one list contract. It is stated with the
  functions of module `Lists` (`RemovedAt`, `IndexOf`, sequence update and
  append), and each table model's methods ensure it.
- **Static id counters.** They are `Ids.IdCounter` objects passed to the
  constructors that use them.
- **The modal dialogs.** A modal `showDialog` is split into what happens
  before the wait (`ShowNew`, `ShowEdit`, `ShowDialog`), the events that
  arrive while the dialog is open (field edits, filter calls, button
  clicks), and the field that `showDialog` returns once the dialog is
  closed.
- **The clock.** "Now" is a parameter.
- **Date rendering.** `Date.toString` is a caller-supplied function
  `dateText`.
- **Failing appends.** Whether the k-th append to a report dialog throws is
  a caller-supplied predicate `fails`.

Where the behaviour of the Java code differs from a reading of its
documentation, the model follows the code:
- **The overdue loop skips one patient too many.** After a skipped patient
  (one who owes nothing or has no payments) the loop advances its index
  twice, so the following patient is never examined
  (`Reports.SkipHidesNext`).
- **The filter ignores the replaced length.** It inserts without removing
  anything, so `setText` on a non-empty field puts the new text in front
  of the old (`PaymentDialogs.PaymentDialog.SetText`).
- **A second point can get in.** A point later in a pasted text gets past
  the filter (`DecimalField.SecondPointGetsThrough`). Confirm then throws
  `NumberFormatException` and leaves everything as it was.
- **The overdue report keeps the smallest balances first.** Only patients
  with at least one payment can appear in it.

## Model

| member | source | states |
|---|---|---|
| Ids.Inc32 | src/model/Patient.java:76 | The `int` `++`: one more, wrapping from the largest int to the smallest; always congruent to n + 1 modulo 2^32. |
| Ids.IdCounter.constructor | src/model/Patient.java:28 | A counter starts at 1, as the static initialiser sets it. |
| Ids.IdCounter.SetUniqueID | src/model/Patient.java:245-247 | `setUniqueID(id)`: the next auto-id object gets `id`. |
| Ids.IdCounter.Take | src/model/Payment.java:78-85 | Hands out the current value and advances the counter by one `int` increment. |
| Ids.IterateNoWrap | src/model/Patient.java:66-78 | After k auto-id constructions short of the largest int, the counter has moved on by exactly k, so the ids handed out are all different. |
| Calendar.CompareDates | src/model/Payment.java:102-109 | `Date.compareTo`: 0 exactly for equal dates, at most 0 exactly when the first is not later, and always -1, 0 or 1. |
| Calendar.CompareDatesAntisymmetric | src/model/Payment.java:102-109 | Swapping the two dates negates the comparison. |
| Calendar.DateLeTotal | src/model/Payment.java:102-109 | Any two dates are ordered one way or the other. |
| Calendar.DateLeTransitive | src/model/Payment.java:102-109 | The date order is transitive. |
| Calendar.MonthsBetween | src/controller/ReportController.java:129-132 | Months between two dates: the month difference within a year, twelve per year across years; the day is ignored. |
| Calendar.MonthsBetweenMonotone | src/controller/ReportController.java:129-135 | A later payment date is never more months before now. |
| JavaText.NatText | src/model/Payment.java:89-91 | The decimal digits of a non-negative number, as `Double.toString` writes the whole euros: digits that read back as the number. |
| JavaText.IntText | src/model/Patient.java:203-205 | `Integer.toString` of an id: never empty, with no tab or line break, so it is one field of a tab-separated line. |
| JavaText.BoolText | src/model/Payment.java:89-91 | `String.valueOf(boolean)` of the status: one field, with no tab or line break. |
| JavaText.CompareStringsZero | src/model/Patient.java:195-199 | `String.compareTo` is 0 exactly for equal strings. |
| JavaText.CompareStringsAntisymmetric | src/model/Patient.java:195-199 | Swapping the strings negates `String.compareTo`. |
| JavaText.CompareStringsTransitive | src/model/Patient.java:195-199 | `String.compareTo` order is transitive. |
| JavaText.SplitJoin | src/model/Patient.java:203-205 | Fields joined by a separator that none of them holds are cut back into exactly those fields. |
| JavaText.JoinOnAvoids | src/model/ProcedureList.java:51-59 | Joining fields that avoid a character, with a different separator, gives a text that avoids it. |
| Lists.RemovedAt | src/model/Patient.java:108-110 | `ArrayList.remove(i)`: one shorter, earlier entries kept, later entries moved down by one, and the same elements less the removed one. |
| Lists.IndexOf | src/model/PatientTableModel.java:108-110 | `indexOf`: -1 exactly when absent, otherwise a position holding the value with no earlier one. |
| Lists.ArrayList.constructor | src/model/Patient.java:73-74 | A new list is empty. |
| Lists.ArrayList.Get | src/model/CustomAbstractTableModel.java:27-33 | `get(i)`: the element at i, or IndexOutOfBounds exactly when i is outside the list. |
| Lists.ArrayList.Add | src/model/CustomAbstractTableModel.java:20-25 | `add`: appends at the end. |
| Lists.ArrayList.Set | src/model/CustomAbstractTableModel.java:35-41 | `set(i, x)`: replaces slot i only, or throws and changes nothing. |
| Lists.ArrayList.RemoveAt | src/model/CustomAbstractTableModel.java:52-57 | `remove(i)`: deletes slot i, or throws and changes nothing. |
| Lists.ArrayList.Clear | src/model/CustomAbstractTableModel.java:59-62 | `clear`: the list is empty. |
| Lists.SortOrder | src/controller/ReportController.java:58 | The stable sort order has one entry per position and takes every position as often as `Range` does. |
| Lists.InsertSorted | src/controller/ReportController.java:58 | Inserting one more position into a sorted order keeps it sorted, for a total preorder. |
| Lists.SortOrderCorrect | src/controller/ReportController.java:58 | `Collections.sort` with a total preorder: every position exactly once, the keys in non-decreasing order, and entries with equal keys in their input order (stability). |
| Lists.InsertStable | src/controller/ReportController.java:58 | Inserting a position that came first in the input keeps equal keys in input order. |
| Lists.SortOrderFromStable | src/controller/ReportController.java:58 | The sort of the positions from lo on is stable and names no position before lo. |
| Lists.SortOrderDistinct | src/controller/ReportController.java:58 | The sort order never names a position twice. |
| Lists.PermutedDistinct | src/controller/ReportController.java:58 | Reordering distinct elements by a repetition-free order keeps them distinct. |
| Lists.PermutedSameMultiset | src/controller/ReportController.java:58 | Orders that take the same positions equally often take the same elements equally often. |
| Lists.SortOrderPermutes | src/controller/ReportController.java:58 | Sorting rearranges the list without losing or duplicating any element. |
| Money.RoundHalfUp | src/model/Payment.java:133-141 | `setScale(2, HALF_UP)`: the whole number of cents nearest the amount, ties away from zero (bounds on both sides, for either sign). |
| Money.WithinHalfCent | src/model/Payment.java:133-141 | The stored amount is within half a cent of the requested one. |
| Money.RoundHalfUpIdempotent | src/model/Payment.java:133-141 | An amount with at most two decimals is stored unchanged. |
| Money.RoundHalfUpOdd | src/model/Procedure.java:123-131 | HALF_UP is symmetric about zero. |
| Money.RoundHalfUpMonotone | src/model/Procedure.java:123-131 | Rounding never reorders two amounts. |
| Money.DoubleText | src/model/Payment.java:89-91 | `Double.toString` of an amount in cents: never empty and never starting with a point. |
| Money.DoubleTextOneField | src/model/Payment.java:89-91 | `Double.toString` of an amount never holds a tab or a line break, so it is one field of a tab-separated line. |
| Money.PositiveDoubleTextChars | src/dialog/PaymentDialog.java:172 | The text of a positive amount holds no tab, line break or minus sign. |
| Money.PowerOfTenText | src/model/Payment.java:89-91 | Every power of ten from 10^7 euros on is written in scientific notation, as "1.0E" and its exponent. |
| Money.Grouped | src/model/Procedure.java:40 | The `###,###` grouping of the euro digits: empty exactly for no digits. |
| Money.GroupedShape | src/model/Procedure.java:40 | The grouped euro digits hold digits and commas only, a comma exactly where a group of three digits ends counting from the right (so none in front), and lose no digit. |
| Money.EuroTextShape | src/model/Procedure.java:40 | The "€###,###.00" text of any amount: "€" or "-€", the whole euros grouped in threes, a point and two cent digits, reading back as the amount. |
| Money.EuroTextGrouped | src/model/Procedure.java:40 | Between the sign and "€" and the point and two cent digits, the euro text is the amount's whole-euro digits grouped in threes. |
| Money.UngroupedGrouped | src/model/Procedure.java:40 | Taking the grouping commas out of the grouped euro digits gives back the digits. |
| Money.EuroTextRoundTrip | src/model/Procedure.java:133-135 | The "€###,###.00" text of every amount reads back as exactly that amount. |
| Money.EuroTextStartsWithSymbol | src/model/Procedure.java:40 | The text of a non-negative amount starts with "€" and has at least the point and two cent digits after it. |
| Money.EuroValueOfParts | src/model/Procedure.java:40 | The euro text reads back as its whole euros times 100 plus its two cent digits. |
| Payments.Payment.WithId | src/model/Payment.java:25-30 | The explicit constructor stores the id, the rounded amount, the date and the status, and does not use the counter. |
| Payments.Payment.WithStatus | src/model/Payment.java:78-85 | `Payment(amount, status)`: the counter's id, the rounded amount, the creation time and the status; the counter moves on by one. |
| Payments.Payment.constructor | src/model/Payment.java:65-69 | `Payment(amount)` is `Payment(amount, false)`: unpaid. |
| Payments.Payment.SetPaymentNo | src/model/Payment.java:122-124 | Only the id changes. |
| Payments.Payment.SetPaymentAmount | src/model/Payment.java:133-141 | Only the amount changes, to the HALF_UP rounded cents. |
| Payments.Payment.SetPaymentDate | src/model/Payment.java:150-152 | Only the date changes. |
| Payments.Payment.SetPaymentStatus | src/model/Payment.java:161-163 | Only the status changes. |
| Payments.Payment.ToString | src/model/Payment.java:89-91 | id, amount, date and status joined by tabs, which cut back into exactly those four fields when the date text has no tab. |
| Payments.SortByDate | src/model/Payment.java:102-109 | `SortByDate.compare` depends on the two dates only: 0 exactly for equal dates, at most 0 exactly when the first is not later. |
| Procedures.Procedure.WithId | src/model/Procedure.java:18-22 | The explicit constructor stores id, name and rounded cost, and does not use the counter. |
| Procedures.Procedure.constructor | src/model/Procedure.java:57-63 | The auto-id constructor takes the counter's id and advances it by one. |
| Procedures.Procedure.SetProcedureNo | src/model/Procedure.java:103-105 | Only the id changes. |
| Procedures.Procedure.SetProcedureName | src/model/Procedure.java:113-115 | Only the name changes. |
| Procedures.Procedure.SetProcedureCost | src/model/Procedure.java:123-131 | Only the cost changes, to the HALF_UP rounded cents. |
| Procedures.Procedure.ToString | src/model/Procedure.java:67-69 | id, name and cost joined by tabs; a name without a tab reads back as the middle field. |
| Procedures.Procedure.CostInEuro | src/model/Procedure.java:133-135 | `getProcedureCostInEuro` reads back as exactly the cost; it is "€" (or "-€" for a negative cost), the whole euros' digits grouped in threes by commas, a point and two cent digits. |
| Procedures.EqualsByNameOnly | src/model/Procedure.java:78-89 | `equals` is an equivalence, and procedures with the same name are equal whatever their ids and costs. |
| Procedures.SetUniqueIdThenCreate | src/model/Procedure.java:95-97 | After `setUniqueID(n)` the next auto-id procedure gets id n and the counter moves on to n + 1. |
| Patients.TotalPaidPermutation | src/model/Patient.java:172-191 | What has been paid does not depend on the order of the payments. |
| Patients.UnpaidIgnored | src/model/Patient.java:172-191 | Removing an unpaid payment leaves the total paid unchanged. |
| Patients.TotalPaidPositive | src/model/Patient.java:181-185 | With no negative amounts the total paid is never negative, and it is positive once a paid payment has a positive amount. |
| Patients.OwedNegative | src/model/Patient.java:172-191 | The balance is not clamped at zero: it is negative exactly when the paid payments exceed the costs, in particular for a positive paid payment with no procedure. |
| Patients.TotalCostPermutation | src/model/Patient.java:177-179 | What the procedures cost does not depend on their order. |
| Patients.Patient.constructor | src/model/Patient.java:66-78 | The auto-id constructor takes the counter's id, stores the three details, starts both lists empty and advances the counter by one. |
| Patients.Patient.WithId | src/model/Patient.java:81-91 | The explicit-id constructor stores the id and details, starts both lists empty and does not use the counter. |
| Patients.Patient.SetPatientName | src/model/Patient.java:265-267 | Only the name changes. |
| Patients.Patient.SetPatientAddress | src/model/Patient.java:275-277 | Only the address changes. |
| Patients.Patient.SetPatientPhone | src/model/Patient.java:285-287 | Only the phone changes. |
| Patients.Patient.AddProcedure | src/model/Patient.java:99-101 | Appends at the end of the procedures; nothing else changes. |
| Patients.Patient.RemoveProcedure | src/model/Patient.java:108-110 | Deletes exactly the entry at the index, later entries moving down, or throws and changes nothing. |
| Patients.Patient.SetProcedure | src/model/Patient.java:120-127 | Throws IndexOutOfBounds for an index at or past the end (or negative); otherwise replaces only that slot. |
| Patients.Patient.AddPayment | src/model/Patient.java:135-137 | Appends at the end of the payments; nothing else changes. |
| Patients.Patient.RemovePayment | src/model/Patient.java:144-146 | Deletes exactly the entry at the index, or throws and changes nothing. |
| Patients.Patient.SetPayment | src/model/Patient.java:156-163 | Throws IndexOutOfBounds for an index out of range; otherwise replaces only that slot. |
| Patients.Patient.GetAmountOwed | src/model/Patient.java:172-191 | The two accumulating loops compute the sum of the procedure costs less the sum of the paid payment amounts. |
| Patients.Patient.ToString | src/model/Patient.java:203-205 | id, name, address and phone joined by tabs, which cut back into those four fields when no field holds a tab. |
| Patients.CompareToOrdersNames | src/model/Patient.java:195-199 | `compareTo` is 0 exactly for equal names, antisymmetric and transitive: a total order on names. |
| Patients.EqualsById | src/model/Patient.java:209-219 | `equals` is an equivalence that holds exactly for equal ids and never for null. |
| Patients.CompareByAmountOwed | src/model/Patient.java:230-237 | -1, 0 or 1 exactly as the first balance is below, equal to or above the second. |
| ProcedureCatalog.LinesSplit | src/model/ProcedureList.java:51-59 | Lines each followed by a break cut back into those lines and an empty remainder, when no line holds a break. |
| ProcedureCatalog.ProcedureTextOneLine | src/model/Procedure.java:67-69 | A procedure whose name has no line break has a one-line text. |
| ProcedureCatalog.CatalogTextLines | src/model/ProcedureList.java:51-59 | The catalog text read back line by line gives every procedure's text in list order. |
| ProcedureCatalog.ProcedureList.constructor | src/model/ProcedureList.java:14-20 | The single instance starts as a new, empty list. |
| ProcedureCatalog.ProcedureList.GetInstance | src/model/ProcedureList.java:28-32 | Every call gives the same list object. |
| ProcedureCatalog.ProcedureList.SetProcedureList | src/model/ProcedureList.java:39-47 | The instance, kept in place, ends holding exactly the given elements in order (nothing when given itself); the given list is unchanged. |
| ProcedureCatalog.ProcedureList.ToString | src/model/ProcedureList.java:51-59 | The loop builds every procedure's text followed by a line break, in list order; "" for an empty list. |
| ProcedureCatalog.CopiedNotShared | src/model/ProcedureList.java:43-45 | Adding to the given list after `setProcedureList` leaves the catalog as it was. |
| ComboBox.CustomComboBoxModel.constructor | src/model/CustomComboBoxModel.java:14 | A new model has no list yet. |
| ComboBox.CustomComboBoxModel.GetElementAt | src/model/CustomComboBoxModel.java:17-19 | Element i of the shared list; NullPointer without a list, IndexOutOfBounds exactly outside it. |
| ComboBox.CustomComboBoxModel.GetSize | src/model/CustomComboBoxModel.java:22-24 | The size of the shared list: exactly the indices below it have an element. |
| ComboBox.CustomComboBoxModel.AddProcedure | src/model/CustomComboBoxModel.java:32-35 | Appends to the shared list, or throws NullPointer without one. |
| ComboBox.CustomComboBoxModel.RemoveProcedure | src/model/CustomComboBoxModel.java:42-45 | Deletes entry i of the shared list, or throws. |
| ComboBox.CustomComboBoxModel.Clear | src/model/CustomComboBoxModel.java:50-53 | Empties the shared list, or throws NullPointer without one. |
| ComboBox.CustomComboBoxModel.SetData | src/model/CustomComboBoxModel.java:60-63 | Keeps a reference to the given list, not a copy. |
| ComboBox.ShowsCatalogChanges | src/model/CustomComboBoxModel.java:60-63 | After `setData` with the catalog, refilling the catalog is what the drop-down lists. |
| TableModels.ColumnName | src/model/PatientTableModel.java:60-62 | `getColumnName`: the header of the column, or IndexOutOfBounds outside the headers array. |
| TableModels.PatientTableModel.constructor | src/model/PatientTableModel.java:22-24 | Starts with a new, empty list. |
| TableModels.PatientTableModel.Of | src/model/PatientTableModel.java:31-34 | Installs the given list itself. |
| TableModels.PatientTableModel.GetColumnCount | src/model/PatientTableModel.java:38-40 | Four columns, one per header. |
| TableModels.PatientTableModel.GetColumnName | src/model/PatientTableModel.java:60-62 | Exactly the counted columns have a header. |
| TableModels.PatientTableModel.GetColumnClass | src/model/PatientTableModel.java:43-52 | Integer exactly for column 0, String for every other. |
| TableModels.PatientTableModel.GetRowCount | src/model/PatientTableModel.java:55-57 | Exactly the rows below the count are accepted by `get`. |
| TableModels.PatientTableModel.Get | src/model/PatientTableModel.java:97-99 | The patient at the index, or IndexOutOfBounds exactly outside the list. |
| TableModels.PatientTableModel.GetValueAt | src/model/PatientTableModel.java:65-87 | id, name, address or phone for columns 0 to 3, null otherwise, always fitting the column class; a row outside the list throws. |
| TableModels.PatientTableModel.Add | src/model/PatientTableModel.java:91-94 | Appends to the held list. |
| TableModels.PatientTableModel.Set | src/model/PatientTableModel.java:102-105 | Replaces one slot, or throws and changes nothing. |
| TableModels.PatientTableModel.Find | src/model/PatientTableModel.java:108-110 | The first row holding a patient with the same id, or -1 when there is none. |
| TableModels.PatientTableModel.Remove | src/model/PatientTableModel.java:113-116 | Deletes one slot, later rows moving up, or throws. |
| TableModels.PatientTableModel.Clear | src/model/PatientTableModel.java:119-122 | Empties the held list. |
| TableModels.PatientTableModel.SetData | src/model/PatientTableModel.java:125-128 | Installs the given list by reference. |
| TableModels.ProcedureTableModel.constructor | src/model/ProcedureTableModel.java:22-24 | Starts with a new, empty list. |
| TableModels.ProcedureTableModel.Of | src/model/ProcedureTableModel.java:31-34 | Installs the given list itself. |
| TableModels.ProcedureTableModel.GetColumnCount | src/model/ProcedureTableModel.java:38-40 | Three columns, one per header. |
| TableModels.ProcedureTableModel.GetColumnName | src/model/ProcedureTableModel.java:63-65 | Exactly the counted columns have a header. |
| TableModels.ProcedureTableModel.GetColumnClass | src/model/ProcedureTableModel.java:43-55 | Integer exactly for column 0, Double exactly for column 2, String otherwise. |
| TableModels.ProcedureTableModel.GetRowCount | src/model/ProcedureTableModel.java:58-60 | Exactly the rows below the count are accepted by `get`. |
| TableModels.ProcedureTableModel.Get | src/model/ProcedureTableModel.java:97-99 | The procedure at the index, or IndexOutOfBounds exactly outside the list. |
| TableModels.ProcedureTableModel.GetValueAt | src/model/ProcedureTableModel.java:68-87 | id, name or cost for columns 0 to 2, null otherwise, fitting the column class; a row outside the list throws. |
| TableModels.ProcedureTableModel.Add | src/model/ProcedureTableModel.java:91-94 | Appends to the held list. |
| TableModels.ProcedureTableModel.Set | src/model/ProcedureTableModel.java:102-105 | Replaces one slot, or throws and changes nothing. |
| TableModels.ProcedureTableModel.Find | src/model/ProcedureTableModel.java:108-110 | The first row holding a procedure with the same name, whatever its id and cost, or -1. |
| TableModels.ProcedureTableModel.Remove | src/model/ProcedureTableModel.java:113-116 | Deletes one slot, or throws. |
| TableModels.ProcedureTableModel.Clear | src/model/ProcedureTableModel.java:119-122 | Empties the held list. |
| TableModels.ProcedureTableModel.SetData | src/model/ProcedureTableModel.java:125-128 | Installs the given list by reference. |
| TableModels.ProcedureTableModel.GetModel | src/model/ProcedureTableModel.java:132-134 | Hands back the installed list object itself. |
| TableModels.PaymentTableModel.constructor | src/model/PaymentTableModel.java:22-24 | Starts with a new, empty list. |
| TableModels.PaymentTableModel.Of | src/model/PaymentTableModel.java:31-34 | Installs the given list itself. |
| TableModels.PaymentTableModel.GetColumnCount | src/model/PaymentTableModel.java:39-41 | Four columns, one per header. |
| TableModels.PaymentTableModel.GetColumnName | src/model/PaymentTableModel.java:73-75 | Exactly the counted columns have a header. |
| TableModels.PaymentTableModel.GetColumnClass | src/model/PaymentTableModel.java:44-65 | Boolean exactly for column 3, Object for every other. |
| TableModels.PaymentTableModel.GetRowCount | src/model/PaymentTableModel.java:68-70 | Exactly the rows below the count are accepted by `get`. |
| TableModels.PaymentTableModel.Get | src/model/PaymentTableModel.java:117-119 | The payment at the index, or IndexOutOfBounds exactly outside the list. |
| TableModels.PaymentTableModel.GetValueAt | src/model/PaymentTableModel.java:78-100 | id, amount, date or status for columns 0 to 3, null otherwise, fitting the column class; a row outside the list throws. |
| TableModels.PaymentTableModel.IsCellEditable | src/model/PaymentTableModel.java:103-107 | Every cell reports itself editable. |
| TableModels.PaymentTableModel.Add | src/model/PaymentTableModel.java:111-114 | Appends to the held list. |
| TableModels.PaymentTableModel.Set | src/model/PaymentTableModel.java:122-125 | Replaces one slot, or throws and changes nothing. |
| TableModels.PaymentTableModel.Find | src/model/PaymentTableModel.java:128-130 | The first row holding this very payment object, or -1. |
| TableModels.PaymentTableModel.Remove | src/model/PaymentTableModel.java:133-136 | Deletes one slot, or throws. |
| TableModels.PaymentTableModel.Clear | src/model/PaymentTableModel.java:139-142 | Empties the held list. |
| TableModels.PaymentTableModel.SetData | src/model/PaymentTableModel.java:145-148 | Installs the given list by reference. |
| TableModels.PaymentTableModel.GetModel | src/model/PaymentTableModel.java:150-152 | Hands back the installed list object itself. |
| TableModels.InstalledListIsShared | src/model/PaymentTableModel.java:145-152 | A payment added to an installed list by any holder is the table's new last row, and `getModel` gives back that same list. |
| TableModels.EqualCopyNotFound | src/model/PaymentTableModel.java:128-130 | A different payment object with equal fields is not found. |
| ReportHtml.ProcedureRows | src/controller/ReportController.java:205-211 | One row per procedure, in list order. |
| ReportHtml.PaymentRows | src/controller/ReportController.java:236-243 | One row per payment, in list order. |
| ReportHtml.IntroExtends | src/controller/ReportController.java:179-184 | The contact details follow the name heading. |
| ReportHtml.HtmlFrame | src/controller/ReportController.java:174-253 | Every block starts with the name heading and the contact details and ends with the separating rule. |
| ReportHtml.NotAvailableOnlyWhenEmpty | src/controller/ReportController.java:197-234 | A table shows the N/A row exactly when its list is empty. |
| ReportHtml.IdCellIsNotNotAvailable | src/controller/ReportController.java:207 | No id cell reads " N/A ", so a real row is never taken for the N/A row. |
| ReportHtml.AppendProcedureTable | src/controller/ReportController.java:189-213 | The appending loop writes the procedure table: headings, then one row per procedure or the N/A row. |
| ReportHtml.AppendPaymentTable | src/controller/ReportController.java:218-245 | The appending loop writes the payment table: headings, then one row per payment or the N/A row. |
| ReportHtml.PatientToHtml | src/controller/ReportController.java:174-253 | `patientToHTML` builds exactly the block `Html` describes. |
| Reports.FirstFailure | src/controller/ReportController.java:60-82 | The first failing append: none before it fails, and it fails unless it is the end. |
| Reports.Appended | src/controller/ReportController.java:60-84 | The dialog holds every block before the first failing append, in order, and is shown exactly when no append fails. |
| Reports.AppendedAfter | src/controller/ReportController.java:60-84 | A run that appended a prefix and then failed, or reached the end, leaves the dialog `Appended` describes. |
| Reports.NameLeTotalPreorder | src/model/Patient.java:195-199 | Ordering by `compareTo` is total and transitive. |
| Reports.ByName | src/controller/ReportController.java:58 | `Collections.sort` by name: an order of the patient positions, one entry per patient, each inside the list (its sortedness is stated by `FullReportByName`). |
| Reports.FullReportByName | src/controller/ReportController.java:50-86 | The complete report takes every patient once, by name, each as its HTML block, until an append fails; it is shown exactly when none does. |
| Reports.FullReportFrom | src/controller/ReportController.java:57-84 | Appending the blocks of the name-sorted patient objects gives the report `FullReport` describes. |
| Reports.HtmlPages | src/controller/ReportController.java:60-62 | One `patientToHTML` block per patient, in list order. |
| Reports.AppendAll | src/controller/ReportController.java:60-84 | The append loop returns at the first failing append, before `showDialog`, and otherwise shows the dialog with every block. |
| Reports.GenerateFullReport | src/controller/ReportController.java:50-86 | `generateFullReport` produces the report `FullReport` describes for the patients as they were. |
| Reports.ByOwed | src/controller/ReportController.java:105 | Sorting by `CompareByAmountOwed`: one entry per patient, each inside the list (its sortedness is stated by `OverdueReportByBalance`). |
| Reports.ByDate | src/controller/ReportController.java:120 | Sorting by `SortByDate`: one entry per payment, each inside the list (its effect is stated by `LatestIsMaximum` and `DateSortKeepsBalance`). |
| Reports.Examined | src/controller/ReportController.java:108-115 | The positions the loop looks at are increasing and inside the list. |
| Reports.Selected | src/controller/ReportController.java:108-157 | The positions whose block is appended are increasing and never a skipped patient. |
| Reports.ExaminedExactly | src/controller/ReportController.java:108-115 | A position is looked at exactly when the one before it was not a skipped patient that was looked at. |
| Reports.SelectedExactly | src/controller/ReportController.java:108-157 | A block is appended exactly for the looked-at, not-skipped patients that pass the overdue test. |
| Reports.SkipHidesNext | src/controller/ReportController.java:113-115 | The patient right after a skipped one never gets into the report, whatever the test says. |
| Reports.QualifyingIncluded | src/controller/ReportController.java:113-141 | A qualifying patient not right after a skipped one is in the report. |
| Reports.LatestIsMaximum | src/controller/ReportController.java:119-125 | After the sort, the last payment has the greatest date of all the patient's payments, paid or not. |
| Reports.DateLeTotalPreorder | src/model/Payment.java:102-109 | Ordering payments by date is total and transitive. |
| Reports.DateSortKeepsBalance | src/controller/ReportController.java:118-120 | Sorting the payments by date keeps the same payments and the same balance, and changes nothing else. |
| Reports.OverdueRecords | src/controller/ReportController.java:118-137 | The picked patients, each with its payments sorted by date, in the order of the selection. |
| Reports.OverdueReportContents | src/controller/ReportController.java:93-164 | The overdue report holds the blocks of the selected patients by increasing balance, each showing its payments by date, and is shown exactly when no append fails. |
| Reports.OverdueReportQualifies | src/controller/ReportController.java:113-135 | Every reported patient owes money, has at least one payment (paid or not), and the latest payment date is more than six months before now. |
| Reports.OverdueReportByBalance | src/controller/ReportController.java:105-141 | The reported patients come in order of increasing balance. |
| Reports.OverdueCheck | src/controller/ReportController.java:119-135 | The loop's test for one patient is the overdue predicate. |
| Reports.OverdueFromLatest | src/controller/ReportController.java:124-135 | The month difference computed from the last sorted payment decides the overdue predicate. |
| Reports.ExamineAt | src/controller/ReportController.java:110-157 | One pass of the loop body: the index advances by one or two, and the pick is the first step of the selection. |
| Reports.OverduePositions | src/controller/ReportController.java:108-160 | The loop picks exactly the selected positions. |
| Reports.DateSortedRecords | src/controller/ReportController.java:118-120 | The picked patients with their payments sorted by date. |
| Reports.GenerateOverdueReport | src/controller/ReportController.java:93-164 | `generateOverdueReport` produces the report `OverdueReport` describes for the patients as they were. |
| DecimalField.Stripped | src/dialog/PaymentDialog.java:249 | `replaceAll("[^\\d.]", "")` leaves digits and points only, never lengthening the text. |
| DecimalField.StrippedAppend | src/dialog/PaymentDialog.java:249 | Stripping works character by character. |
| DecimalField.StrippedNumeric | src/dialog/PaymentDialog.java:249 | A text of digits and points passes unchanged. |
| DecimalField.StrippedIdempotent | src/dialog/PaymentDialog.java:249 | Stripping twice is stripping once. |
| DecimalField.StrippedKeepsCounts | src/dialog/PaymentDialog.java:249 | Every digit and point survives as often as it occurs. |
| DecimalField.ExistsDecimal | src/dialog/PaymentDialog.java:190-199 | The scanning loop finds a point exactly when the text holds one. |
| DecimalField.ReplaceStep | src/dialog/PaymentDialog.java:238-253 | The filter's `replace`: an insertion lengthens the field by the stripped text. |
| DecimalField.RemoveStep | src/dialog/PaymentDialog.java:256-262 | The filter's `remove`: the field loses exactly the removed length. |
| DecimalField.ReplaceKeepsNumeric | src/dialog/PaymentDialog.java:238-253 | An insertion keeps the field to digits and points and removes nothing: the old text is the new one with the inserted characters taken out at the offset. |
| DecimalField.RemoveKeepsNumeric | src/dialog/PaymentDialog.java:256-262 | Removing keeps the field to digits and points. |
| DecimalField.SecondPointGetsThrough | src/dialog/PaymentDialog.java:244-249 | A leading point is refused when the field has one, but a point later in the text gets through. |
| DecimalField.FilterReplace | src/dialog/PaymentDialog.java:238-253 | The filter as run, calling `existsDecimal` only for a leading point, does what `ReplaceStep` describes. |
| DecimalField.ParseDouble | src/dialog/PaymentDialog.java:212 | `parseDouble` on digits and points: a non-negative value, or NumberFormat. |
| DecimalField.ParseDoubleDefined | src/dialog/PaymentDialog.java:212 | The text parses exactly when it holds a digit and at most one point. |
| DecimalField.ParseDoublePositive | src/dialog/PaymentDialog.java:212-216 | A parsed text is positive exactly when one of its digits is not 0. |
| DecimalField.ParseDecimal | src/dialog/PaymentDialog.java:293 | Digits, one point, digits: the value is whole part plus fraction. |
| DecimalField.ParseWhole | src/dialog/ProcedureAddDialog.java:229 | Digits without a point: the value is that whole number. |
| PaymentDialogs.AmountStatus | src/dialog/PaymentDialog.java:206-224 | `validEntry` throws exactly for a non-empty amount that does not parse. |
| PaymentDialogs.ValidEntryAgrees | src/dialog/PaymentDialog.java:206-224 | After `validEntry`, Confirm is off for an empty amount and, for one that parses, on exactly when it is positive. |
| PaymentDialogs.PaymentDialog.constructor | src/dialog/PaymentDialog.java:63-134 | A new dialog: empty amount, Confirm off, no payment, no date, not on screen. |
| PaymentDialogs.PaymentDialog.ValidEntry | src/dialog/PaymentDialog.java:206-224 | Confirm follows the amount as `validEntry` decides and then agrees with it. |
| PaymentDialogs.PaymentDialog.Store | src/dialog/PaymentDialog.java:249-250 | The filter bypass writes the text, then `validEntry` runs. |
| PaymentDialogs.PaymentDialog.AmountReplace | src/dialog/PaymentDialog.java:238-253 | The amount filter's `replace`: refused, failed or inserted as `ReplaceStep` says, then validation. |
| PaymentDialogs.PaymentDialog.AmountRemove | src/dialog/PaymentDialog.java:256-262 | The amount filter's `remove`, then validation. |
| PaymentDialogs.PaymentDialog.SetSelected | src/dialog/PaymentDialog.java:269-283 | The box takes the state and the listener labels it "Paid" or "UnPaid". |
| PaymentDialogs.PaymentDialog.SetText | src/dialog/PaymentDialog.java:172 | `setText` on the amount field puts the stripped text in front of what the field held, except that a text starting with a point is refused when the field already holds one; an empty text changes nothing on an empty field and makes the filter's first-character test throw on a non-empty one. |
| PaymentDialogs.PaymentDialog.ToggleStatus | src/dialog/PaymentDialog.java:269-283 | A click flips the box and its label follows. |
| PaymentDialogs.PaymentDialog.Open | src/dialog/PaymentDialog.java:151 | The dialog goes on screen with its date. |
| PaymentDialogs.PaymentDialog.ShowNew | src/dialog/PaymentDialog.java:143-154 | The date is the moment of opening and the box is cleared. |
| PaymentDialogs.PaymentDialog.ShowEdit | src/dialog/PaymentDialog.java:165-180 | The dialog keeps the payment and its date, shows its amount (which always parses) and status; Confirm is on exactly for a positive amount. |
| PaymentDialogs.PaymentDialog.Confirm | src/dialog/PaymentDialog.java:291-308 | A new payment from the counter with the rounded amount, the date and the status, or the edited payment's amount, date and status overwritten with its id kept; a text that does not parse throws and changes nothing. |
| PaymentDialogs.PaymentDialog.Cancel | src/dialog/PaymentDialog.java:317-322 | The dialog closes and nothing else changes. |
| PaymentDialogs.DoubleTextEnters | src/dialog/PaymentDialog.java:172 | Whatever `Double.toString` writes for an amount, what the filter lets through parses. |
| PaymentDialogs.EditedAmount | src/dialog/PaymentDialog.java:172 | For an amount below 10^7 euros, the text shown reads back as the amount and rounds back to the same cents. |
| PaymentDialogs.EditAndConfirm | src/dialog/PaymentDialog.java:165-308 | Opening a payment of a positive amount below 10^7 euros for editing and confirming at once leaves it as it was and uses no id. |
| ProcedureAddDialogs.AddStatus | src/dialog/ProcedureAddDialog.java:132-158 | `validEntry` throws exactly when both fields hold text and the cost does not parse. |
| ProcedureAddDialogs.AddEnabledAgrees | src/dialog/ProcedureAddDialog.java:132-158 | After `validEntry`, Add is off without a name, and otherwise agrees with the cost; on means a name, a cost and, if it parses, a positive one. |
| ProcedureAddDialogs.ProcedureAddDialog.constructor | src/dialog/ProcedureAddDialog.java:56-111 | Both fields empty, Add off, no procedure. |
| ProcedureAddDialogs.ProcedureAddDialog.ValidEntry | src/dialog/ProcedureAddDialog.java:132-158 | Add follows the two fields as `validEntry` decides and then agrees with them. |
| ProcedureAddDialogs.ProcedureAddDialog.EditName | src/dialog/ProcedureAddDialog.java:268-285 | One insert or remove event that leaves the name field holding t, then one validation. |
| ProcedureAddDialogs.ProcedureAddDialog.ReplaceName | src/dialog/ProcedureAddDialog.java:268-285 | A replacement of the name (typing over a selection, `setText`): a remove event and an insert event, each validating, ended early by a bad offset or a throwing validation; nothing for an empty replacement of nothing. |
| ProcedureAddDialogs.ReplacementIsTwoEvents | src/dialog/ProcedureAddDialog.java:268-285 | With a cost that does not parse and Add on, a replaced name leaves Add off, where a single validation would have kept it on. |
| ProcedureAddDialogs.SecondPointCostFails | src/dialog/ProcedureAddDialog.java:145 | A cost with a second point, "1.23.4", does not parse. |
| ProcedureAddDialogs.ProcedureAddDialog.StoreCost | src/dialog/ProcedureAddDialog.java:206-207 | The filter bypass writes the cost, then validation. |
| ProcedureAddDialogs.ProcedureAddDialog.CostReplace | src/dialog/ProcedureAddDialog.java:195-209 | The cost filter's `replace` as `ReplaceStep` says, then validation. |
| ProcedureAddDialogs.ProcedureAddDialog.CostRemove | src/dialog/ProcedureAddDialog.java:212-218 | The cost filter's `remove`, then validation. |
| ProcedureAddDialogs.ProcedureAddDialog.ShowDialog | src/dialog/ProcedureAddDialog.java:120-125 | The dialog goes on screen. |
| ProcedureAddDialogs.ProcedureAddDialog.Add | src/dialog/ProcedureAddDialog.java:227-242 | A new procedure from the counter with the name and rounded cost, or the existing one's name and cost overwritten; never an empty name or a negative cost; a cost that does not parse throws and changes nothing. |
| ProcedureAddDialogs.ProcedureAddDialog.Cancel | src/dialog/ProcedureAddDialog.java:251-256 | The dialog closes and nothing else changes. |
| ProcedureAddDialogs.WholeEurosEntered | src/dialog/ProcedureAddDialog.java:195-209 | The digits of a whole number of euros enter the empty cost field unchanged and read back as that many hundred cents. |
| ProcedureAddDialogs.AddWholeEuros | src/dialog/ProcedureAddDialog.java:120-242 | Typing a name and a whole number of euros and pressing Add creates a procedure with that name and exactly that cost, using one id. |
| PatientDialogs.PatientDialog.constructor | src/dialog/PatientDialog.java:52-114 | Three empty fields, Confirm off, no patient. |
| PatientDialogs.PatientDialog.CheckForChange | src/dialog/PatientDialog.java:160-173 | Confirm is on exactly when name, address and phone are all non-empty. |
| PatientDialogs.PatientDialog.EditName | src/dialog/PatientDialog.java:232-249 | A name edit, then `checkForChange`; the other fields are kept. |
| PatientDialogs.PatientDialog.EditAddress | src/dialog/PatientDialog.java:232-249 | An address edit, then `checkForChange`. |
| PatientDialogs.PatientDialog.EditPhone | src/dialog/PatientDialog.java:232-249 | A phone edit, then `checkForChange`. |
| PatientDialogs.PatientDialog.ShowNew | src/dialog/PatientDialog.java:123-130 | The dialog goes on screen. |
| PatientDialogs.PatientDialog.ShowEdit | src/dialog/PatientDialog.java:141-153 | The fields are filled from the patient, and Confirm is on exactly when none of them is empty. |
| PatientDialogs.PatientDialog.Confirm | src/dialog/PatientDialog.java:192-206 | A new patient from the counter with the three texts and empty lists, or the edited patient's three details overwritten with its id and lists kept; never an empty detail. |
| PatientDialogs.PatientDialog.Cancel | src/dialog/PatientDialog.java:215-220 | The dialog closes and nothing else changes. |
| PatientDialogs.EditUnchanged | src/dialog/PatientDialog.java:141-206 | Editing a patient whose details are all filled and confirming at once leaves the patient as it was and uses no id. |
| PatientDialogs.CreatePatient | src/dialog/PatientDialog.java:123-206 | Filling the three fields and confirming creates a patient with those details, the counter's id and empty lists. |

## Left out

- Persistence (the SQLite gateway and the XML import and export) is not part of this model. The patients a report reads are given to it.
- Swing and AWT are not modelled: layout, painting, icons, the report dialog's HTML rendering, and `fireTableDataChanged` / `fireContentsChanged` notifications.
- Floating point. Money is exact cents and an input `double` is an exact `real`. Java rounds the binary value of the double, so an amount such as 19.005 can round down in Java where the model rounds up. Doubles at or beyond 2^53 are not modelled.
- Money.DoubleText: gives the plain text below 10^7 euros and scientific notation from there on, but not the shortest-digit rules for values that doubles cannot hold exactly.
- DecimalField.ParseDouble: covers only texts of digits and points, which is all the filtered fields can hold. The rest of `Double.parseDouble`'s grammar (signs, exponents, hexadecimal, "NaN") is not modelled. The value is the exact decimal, not the nearest double.
- Locales: `DecimalFormat` is taken with a point for decimals and a comma for grouping.
- The clock: "now" and payment dates are parameters. `GregorianCalendar` is reduced to a year and a month, with no time zones.
- Date.toString is the parameter `dateText`, so the HTML and the payment text are stated for any rendering of dates.
- Report appends: whether `ReportDialog.appendTo` throws is the parameter `fails`. The error popups are not modelled.
- Reports.GenerateOverdueReport: Java sorts, in place, the payment list of every examined patient that is not skipped (`Skipped` false: the patient owes money and has a payment), although the comment beside it speaks of a copy. The model computes the date-sorted copy for the picked patients only, and so does not state the reordering of those patients' own lists. The values it reports are the same.
- PaymentDialogs.PaymentDialog.ShowEdit: requires an empty amount field, which every dialog the controllers open for editing has. On a non-empty field the filter would put the new text in front of the old.
- ProcedureAddDialogs.ProcedureAddDialog.ValidEntry: the final `else` branch of `validEntry` cannot be reached, since a non-empty cost makes the branch before it run, so it has no counterpart.
- PatientDialogs.PatientDialog.EditName, EditAddress, EditPhone: a change to a plain text field is modelled as "the field now holds t". The individual insert and remove events each run `checkForChange`, which leaves the same state.
- The duplicated filter and `existsDecimal` of the two numeric dialogs are modelled once, in module `DecimalField`.
- `CustomAbstractTableModel` is not a separate type. Its contract is the list functions of module `Lists`, which each table model's methods ensure.
- PatientTableModel.toString (the `AbstractCollection` rendering of the list) is not modelled.
- The getters of the entity classes are field reads and have no members of their own. `Patient.setPatientNo`, `setPatientPaymentList` and `setPatientProcedureList` are plain field assignments and are not modelled. `Procedure.clone` is not modelled.
- JavaText.CompareStrings: compares characters as Unicode scalar values, not as the UTF-16 code units `String.compareTo` compares. Names with characters outside the Basic Multilingual Plane may sort differently in Java.
- Procedures.Procedure.Equals: takes a `Procedure`. `equals(Object)` casts its argument, so a `null` or an object of another class throws in Java; that path is not modelled.
- The titles, icons and date field of the dialogs, and their `dispose` calls, are not modelled.
