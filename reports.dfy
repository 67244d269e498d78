/** controller.ReportController: the complete report (every patient, by
    name) and the overdue report (patients who owe money and whose latest
    payment is more than six months old, by balance). Each report is a
    ReportDialog that receives one HTML block per patient and is shown at
    the end, unless an append throws, in which case the method returns at
    once and the dialog is never shown. */
module Reports {
  import opened Calendar
  import opened JavaText
  import opened Lists
  import opened Patients
  import opened Payments
  import opened ReportHtml

  /** The dialog when the generating method returns: its title, the blocks
      appended to it in order, and whether showDialog was reached. */
  datatype Report = Report(title: string, entries: seq<string>, shown: bool)

  const CompleteTitle: string := "Complete Report"
  const OverdueTitle: string := "Overdue Report"

  // ---------------------------------------------------------------------
  // Appending to the dialog

  /** The first append, counting from `from`, that throws (`fails(k)` says
      whether append number k throws BadLocationException or IOException);
      n when none of the n appends does. */
  function FirstFailure(n: nat, fails: nat -> bool, from: nat): (k: nat)
    requires from <= n
    ensures from <= k <= n
    ensures forall j :: from <= j < k ==> !fails(j)
    ensures k < n ==> fails(k)
    decreases n - from
  {
    if from == n then n
    else if fails(from) then from
    else FirstFailure(n, fails, from + 1)
  }

  /** The dialog after the blocks are appended one by one: it holds every
      block before the first failing append, and it is shown exactly when no
      append failed. */
  function Appended(title: string, pages: seq<string>, fails: nat -> bool): (rep: Report)
    ensures rep.title == title
    ensures rep.entries <= pages
    ensures rep.shown <==> (forall k :: 0 <= k < |pages| ==> !fails(k))
    ensures rep.shown ==> rep.entries == pages
    ensures forall k :: 0 <= k < |rep.entries| ==> !fails(k)
    ensures !rep.shown ==> |rep.entries| < |pages| && fails(|rep.entries|)
  {
    var k := FirstFailure(|pages|, fails, 0);
    Report(title, pages[..k], k == |pages|)
  }

  /** No append among the first n fails; stated step by step so that a
      loop can extend it one append at a time. */
  predicate NoneFailBefore(fails: nat -> bool, n: nat) {
    n == 0 || (NoneFailBefore(fails, n - 1) && !fails(n - 1))
  }

  lemma {:induction false} NoneFailBeforeAll(fails: nat -> bool, n: nat)
    ensures NoneFailBefore(fails, n) <==> forall k :: 0 <= k < n ==> !fails(k)
  {
    if n > 0 {
      NoneFailBeforeAll(fails, n - 1);
    }
  }

  /** The outcome of a run that appended the first |done| blocks and then
      either failed on the next one or reached the end is the one Appended
      describes. */
  lemma {:induction false} AppendedAfter(title: string, pages: seq<string>, fails: nat -> bool, done: seq<string>, stopped: bool)
    requires |done| <= |pages| && done == pages[..|done|]
    requires NoneFailBefore(fails, |done|)
    requires stopped ==> |done| < |pages| && fails(|done|)
    requires !stopped ==> |done| == |pages|
    ensures Appended(title, pages, fails) == Report(title, done, !stopped)
  {
    NoneFailBeforeAll(fails, |done|);
    var rep := Appended(title, pages, fails);
    if stopped {
      assert !rep.shown;
      assert |rep.entries| <= |done| by {
        assert forall k :: 0 <= k < |rep.entries| ==> !fails(k);
      }
    } else {
      assert rep.shown;
    }
    assert |rep.entries| == |done|;
    assert rep.entries == pages[..|done|];
  }

  /** The patients with their procedures and payments. */
  function Footprint(ps: seq<Patient>): set<object>
    reads ps
  {
    (set p | p in ps :: p as object)
    + (set p, q | p in ps && q in p.patientProcedureList :: q as object)
    + (set p, q | p in ps && q in p.patientPaymentList :: q as object)
  }

  /** Records of the patients, in list order. */
  function Records(ps: seq<Patient>): (r: seq<PatientRecord>)
    reads ps, Footprint(ps)
    ensures |r| == |ps| && forall i :: 0 <= i < |ps| ==> r[i] == ps[i].Record()
  {
    seq(|ps|, i requires 0 <= i < |ps| reads ps, Footprint(ps) =>
      assert ps[i] in ps;
      assert forall q :: q in ps[i].patientProcedureList ==> q in Footprint(ps);
      assert forall q :: q in ps[i].patientPaymentList ==> q in Footprint(ps);
      ps[i].Record())
  }

  /** One block per patient, in list order. */
  function Pages(recs: seq<PatientRecord>, dateText: Date -> string): (r: seq<string>)
    ensures |r| == |recs| && forall i :: 0 <= i < |recs| ==> r[i] == Html(recs[i], dateText)
  {
    seq(|recs|, i requires 0 <= i < |recs| => Html(recs[i], dateText))
  }

  // ---------------------------------------------------------------------
  // The complete report

  /** Patient.compareTo as an ordering of names. */
  predicate NameLe(a: string, b: string) {
    CompareStrings(a, b) <= 0
  }

  lemma {:induction false} NameLeTotalPreorder()
    ensures Total(NameLe) && Transitive(NameLe)
  {
    forall a: string, b: string
      ensures NameLe(a, b) || NameLe(b, a)
    {
      CompareStringsAntisymmetric(a, b);
    }
    forall a: string, b: string, c: string | NameLe(a, b) && NameLe(b, c)
      ensures NameLe(a, c)
    {
      CompareStringsTransitive(a, b, c);
    }
  }

  function Names(recs: seq<PatientRecord>): (r: seq<string>)
    ensures |r| == |recs| && forall i :: 0 <= i < |recs| ==> r[i] == recs[i].name
  {
    seq(|recs|, i requires 0 <= i < |recs| => recs[i].name)
  }

  /** Collections.sort(patientList): the stable order by name. */
  function ByName(recs: seq<PatientRecord>): (order: seq<nat>)
    ensures InBounds(order, |recs|) && |order| == |recs|
  {
    SortOrder(Names(recs), NameLe)
  }

  /** generateFullReport on the patients the database returned. */
  function FullReport(recs: seq<PatientRecord>, dateText: Date -> string, fails: nat -> bool): Report {
    Appended(CompleteTitle, Pages(Permuted(recs, ByName(recs)), dateText), fails)
  }

  /** The complete report lists every patient once, alphabetically by name,
      each as its HTML block, until an append fails; it is shown exactly
      when none does. */
  lemma {:induction false} FullReportByName(recs: seq<PatientRecord>, dateText: Date -> string, fails: nat -> bool)
    ensures var order := ByName(recs);
      (forall i: nat :: i < |recs| ==> multiset(order)[i] == 1)
      && (forall i, j :: 0 <= i < j < |recs| ==>
            CompareStrings(recs[order[i]].name, recs[order[j]].name) <= 0)
    ensures var rep := FullReport(recs, dateText, fails);
      rep.title == CompleteTitle
      && |rep.entries| <= |recs|
      && (forall i :: 0 <= i < |rep.entries| ==> rep.entries[i] == Html(recs[ByName(recs)[i]], dateText))
      && (rep.shown <==> forall k :: 0 <= k < |recs| ==> !fails(k))
      && (rep.shown ==> |rep.entries| == |recs|)
  {
    NameLeTotalPreorder();
    SortOrderCorrect(Names(recs), NameLe);
    var rep := FullReport(recs, dateText, fails);
    var pages := Pages(Permuted(recs, ByName(recs)), dateText);
    forall i | 0 <= i < |rep.entries|
      ensures rep.entries[i] == Html(recs[ByName(recs)[i]], dateText)
    {
      assert rep.entries[i] == pages[i];
    }
  }

  // ---------------------------------------------------------------------
  // The overdue report

  /** Patient.CompareByAmountOwed as an ordering of balances. */
  predicate OwedLe(a: int, b: int) {
    a <= b
  }

  function OwedAmounts(recs: seq<PatientRecord>): (r: seq<int>)
    ensures |r| == |recs| && forall i :: 0 <= i < |recs| ==> r[i] == Owed(recs[i])
  {
    seq(|recs|, i requires 0 <= i < |recs| => Owed(recs[i]))
  }

  /** Collections.sort(patientList, new CompareByAmountOwed()): the stable
      order by balance, smallest first. */
  function ByOwed(recs: seq<PatientRecord>): (order: seq<nat>)
    ensures InBounds(order, |recs|) && |order| == |recs|
  {
    SortOrder(OwedAmounts(recs), OwedLe)
  }

  function Dates(ps: seq<PaymentRecord>): (r: seq<Date>)
    ensures |r| == |ps| && forall i :: 0 <= i < |ps| ==> r[i] == ps[i].date
  {
    seq(|ps|, i requires 0 <= i < |ps| => ps[i].date)
  }

  /** payments.sort(new Payment.SortByDate()): the stable order by date. */
  function ByDate(ps: seq<PaymentRecord>): (order: seq<nat>)
    ensures InBounds(order, |ps|) && |order| == |ps|
  {
    SortOrder(Dates(ps), DateLe)
  }

  /** The patient after its payment list has been sorted by date. */
  function DateSorted(r: PatientRecord): PatientRecord {
    r.(payments := Permuted(r.payments, ByDate(r.payments)))
  }

  /** The date of the last payment after the sort. */
  function LatestDate(r: PatientRecord): Date
    requires r.payments != []
  {
    var ps := DateSorted(r).payments;
    ps[|ps| - 1].date
  }

  /** The patient is passed over: owes nothing, or has made no payment. */
  predicate Skipped(r: PatientRecord) {
    Owed(r) <= 0 || r.payments == []
  }

  /** More than six calendar months separate the latest payment from now. */
  predicate Overdue(r: PatientRecord, now: Date)
    requires r.payments != []
  {
    MonthsBetween(LatestDate(r), now) > 6
  }

  /** The positions the loop looks at, starting at i: after a skipped
      patient the loop advances twice (once in the branch, once in the
      loop header), so the following patient is never looked at. */
  function Examined(recs: seq<PatientRecord>, i: nat): (r: seq<nat>)
    ensures forall k :: 0 <= k < |r| ==> i <= r[k] < |recs|
    ensures forall a, b :: 0 <= a < b < |r| ==> r[a] < r[b]
    decreases |recs| - i
  {
    if i >= |recs| then []
    else [i] + Examined(recs, if Skipped(recs[i]) then i + 2 else i + 1)
  }

  /** Overdue as a test that holds only for patients with payments. */
  function OverdueAt(now: Date): PatientRecord -> bool {
    (r: PatientRecord) => r.payments != [] && Overdue(r, now)
  }

  /** The positions whose block is appended, starting at i, where
      `overdue` is the test made on each patient that is not skipped. */
  function Selected(recs: seq<PatientRecord>, overdue: PatientRecord -> bool, i: nat): (r: seq<nat>)
    ensures forall k :: 0 <= k < |r| ==> i <= r[k] < |recs| && !Skipped(recs[r[k]])
    ensures forall a, b :: 0 <= a < b < |r| ==> r[a] < r[b]
    decreases |recs| - i
  {
    if i >= |recs| then []
    else if Skipped(recs[i]) then Selected(recs, overdue, i + 2)
    else if overdue(recs[i]) then [i] + Selected(recs, overdue, i + 1)
    else Selected(recs, overdue, i + 1)
  }

  /** generateOverdueReport on the patients the database returned, at the
      moment `now`. */
  function OverdueReport(recs: seq<PatientRecord>, now: Date, dateText: Date -> string, fails: nat -> bool): Report {
    var sorted := Permuted(recs, ByOwed(recs));
    Appended(OverdueTitle, Pages(OverdueRecords(sorted, Selected(sorted, OverdueAt(now), 0)), dateText), fails)
  }

  /** The selected patients, each with its payments sorted by date, in the
      order of the selection. */
  function OverdueRecords(sorted: seq<PatientRecord>, sel: seq<nat>): (r: seq<PatientRecord>)
    requires InBounds(sel, |sorted|)
    ensures |r| == |sel|
    ensures forall k :: 0 <= k < |sel| ==> r[k] == DateSorted(sorted[sel[k]])
  {
    seq(|sel|, k requires 0 <= k < |sel| => DateSorted(sorted[sel[k]]))
  }

  lemma {:induction false} OverdueRecordsAppend(sorted: seq<PatientRecord>, sel: seq<nat>, x: nat)
    requires InBounds(sel, |sorted|) && x < |sorted|
    ensures InBounds(sel + [x], |sorted|)
    ensures OverdueRecords(sorted, sel + [x]) == OverdueRecords(sorted, sel) + [DateSorted(sorted[x])]
  {
    assert InBounds(sel + [x], |sorted|);
  }

  /** A position after the start is looked at exactly when the position
      before it was not a skipped patient that was looked at. */
  lemma {:induction false} ExaminedExactly(recs: seq<PatientRecord>, start: nat, i: nat)
    requires start < i < |recs|
    ensures i in Examined(recs, start) <==> !(i - 1 in Examined(recs, start) && Skipped(recs[i - 1]))
    decreases |recs| - start
  {
    var next := if Skipped(recs[start]) then start + 2 else start + 1;
    assert Examined(recs, start) == [start] + Examined(recs, next);
    if i == start + 1 {
      if Skipped(recs[start]) {
        assert i !in Examined(recs, next);
      } else {
        assert Examined(recs, next)[0] == i;
      }
    } else if i == next {
      assert Examined(recs, next)[0] == i;
      assert i - 1 !in Examined(recs, next);
    } else {
      ExaminedExactly(recs, next, i);
    }
  }

  /** A block is appended exactly for the qualifying patients among those
      looked at. */
  lemma {:induction false} SelectedExactly(recs: seq<PatientRecord>, overdue: PatientRecord -> bool, i: nat, x: nat)
    requires x < |recs|
    ensures x in Selected(recs, overdue, i) <==>
      x in Examined(recs, i) && !Skipped(recs[x]) && overdue(recs[x])
    decreases |recs| - i
  {
    if i < |recs| {
      var next := if Skipped(recs[i]) then i + 2 else i + 1;
      assert Examined(recs, i) == [i] + Examined(recs, next);
      SelectedExactly(recs, overdue, next, x);
    }
  }

  /** The patient right after a skipped one is left out of the report,
      whatever the overdue test says of that patient. */
  lemma {:induction false} SkipHidesNext(recs: seq<PatientRecord>, overdue: PatientRecord -> bool, i: nat)
    requires i + 1 < |recs| && i in Examined(recs, 0) && Skipped(recs[i])
    ensures i + 1 !in Selected(recs, overdue, 0)
  {
    ExaminedExactly(recs, 0, i + 1);
    SelectedExactly(recs, overdue, 0, i + 1);
  }

  /** Every patient that qualifies and does not come right after a skipped
      patient that was looked at is in the report. */
  lemma {:induction false} QualifyingIncluded(recs: seq<PatientRecord>, now: Date, x: nat)
    requires x < |recs| && !Skipped(recs[x]) && Overdue(recs[x], now)
    requires x == 0 || !(x - 1 in Examined(recs, 0) && Skipped(recs[x - 1]))
    ensures x in Selected(recs, OverdueAt(now), 0)
  {
    if x > 0 {
      ExaminedExactly(recs, 0, x);
    }
    SelectedExactly(recs, OverdueAt(now), 0, x);
  }

  /** The latest payment after the sort has the greatest date of all the
      patient's payments, and is one of them. */
  lemma {:induction false} LatestIsMaximum(r: PatientRecord)
    requires r.payments != []
    ensures exists k :: 0 <= k < |r.payments| && r.payments[k].date == LatestDate(r)
    ensures forall k :: 0 <= k < |r.payments| ==> DateLe(r.payments[k].date, LatestDate(r))
  {
    var keys := Dates(r.payments);
    var order := ByDate(r.payments);
    DateLeTotalPreorder();
    SortOrderCorrect(keys, DateLe);
    var last := |order| - 1;
    assert r.payments[order[last]].date == LatestDate(r);
    forall k | 0 <= k < |r.payments|
      ensures DateLe(r.payments[k].date, LatestDate(r))
    {
      assert k in multiset(order) by {
        RangeCount(0, |keys|, k);
      }
      var j :| 0 <= j < |order| && order[j] == k;
      if j < last {
        assert DateLe(keys[order[j]], keys[order[last]]);
      } else {
        DateLeTotal(r.payments[k].date, r.payments[k].date);
      }
    }
  }

  lemma {:induction false} DateLeTotalPreorder()
    ensures Total(DateLe) && Transitive(DateLe)
  {
    forall a: Date, b: Date
      ensures DateLe(a, b) || DateLe(b, a)
    {
      DateLeTotal(a, b);
    }
    forall a: Date, b: Date, c: Date | DateLe(a, b) && DateLe(b, c)
      ensures DateLe(a, c)
    {
      DateLeTransitive(a, b, c);
    }
  }

  /** Sorting the payments by date only reorders them, so it changes
      neither the set of payments nor the balance. */
  lemma {:induction false} DateSortKeepsBalance(r: PatientRecord)
    ensures multiset(DateSorted(r).payments) == multiset(r.payments)
    ensures Owed(DateSorted(r)) == Owed(r)
    ensures DateSorted(r).(payments := r.payments) == r
  {
    SortOrderPermutes(r.payments, Dates(r.payments), DateLe);
    TotalPaidPermutation(DateSorted(r).payments, r.payments);
  }

  /** The overdue report holds, in order of increasing balance, the blocks
      of patients who owe money and whose latest payment is more than six
      months old, each showing its payments by date; it is shown exactly
      when no append fails. */
  lemma {:induction false} OverdueReportContents(recs: seq<PatientRecord>, now: Date, dateText: Date -> string, fails: nat -> bool)
    ensures var sorted := Permuted(recs, ByOwed(recs));
      var sel := Selected(sorted, OverdueAt(now), 0);
      var rep := OverdueReport(recs, now, dateText, fails);
      rep.title == OverdueTitle
      && |rep.entries| <= |sel|
      && (forall k :: 0 <= k < |rep.entries| ==> rep.entries[k] == Html(DateSorted(sorted[sel[k]]), dateText))
      && (rep.shown <==> forall k :: 0 <= k < |sel| ==> !fails(k))
      && (rep.shown ==> |rep.entries| == |sel|)
  {
    var sorted := Permuted(recs, ByOwed(recs));
    var sel := Selected(sorted, OverdueAt(now), 0);
    var pages := Pages(OverdueRecords(sorted, sel), dateText);
    var rep := OverdueReport(recs, now, dateText, fails);
    forall k | 0 <= k < |rep.entries|
      ensures rep.entries[k] == Html(DateSorted(sorted[sel[k]]), dateText)
    {
      assert rep.entries[k] == pages[k];
    }
  }

  /** Every patient in the overdue report owes money and made the latest
      payment more than six months before now. */
  lemma {:induction false} OverdueReportQualifies(recs: seq<PatientRecord>, now: Date, k: nat)
    requires k < |Selected(recs, OverdueAt(now), 0)|
    ensures var x := Selected(recs, OverdueAt(now), 0)[k];
      Owed(recs[x]) > 0 && recs[x].payments != [] && MonthsBetween(LatestDate(recs[x]), now) > 6
  {
    var x := Selected(recs, OverdueAt(now), 0)[k];
    SelectedExactly(recs, OverdueAt(now), 0, x);
  }

  /** The selected patients come in order of increasing balance. */
  lemma {:induction false} OverdueReportByBalance(recs: seq<PatientRecord>, now: Date)
    ensures var sorted := Permuted(recs, ByOwed(recs));
      var sel := Selected(sorted, OverdueAt(now), 0);
      forall k, l :: 0 <= k < l < |sel| ==> Owed(sorted[sel[k]]) <= Owed(sorted[sel[l]])
  {
    var order := ByOwed(recs);
    var sorted := Permuted(recs, order);
    var sel := Selected(sorted, OverdueAt(now), 0);
    SortOrderCorrect(OwedAmounts(recs), OwedLe);
    forall k, l | 0 <= k < l < |sel|
      ensures Owed(sorted[sel[k]]) <= Owed(sorted[sel[l]])
    {
      assert OwedLe(OwedAmounts(recs)[order[sel[k]]], OwedAmounts(recs)[order[sel[l]]]);
    }
  }

  // ---------------------------------------------------------------------
  // The generating methods

  /** Appending the blocks of the name-sorted patient objects gives the
      report FullReport describes. */
  lemma {:induction false} FullReportFrom(patients: seq<Patient>, names: seq<string>, dateText: Date -> string, fails: nat -> bool)
    requires |names| == |patients| && forall i :: 0 <= i < |patients| ==> names[i] == patients[i].patientName
    ensures FullReport(Records(patients), dateText, fails)
         == Appended(CompleteTitle, Pages(Records(Permuted(patients, SortOrder(names, NameLe))), dateText), fails)
  {
    var recs := Records(patients);
    assert names == Names(recs);
    RecordsPermuted(patients, ByName(recs));
  }

  /** Taking the records and reordering commute. */
  lemma {:induction false} RecordsPermuted(ps: seq<Patient>, order: seq<nat>)
    requires InBounds(order, |ps|)
    ensures Records(Permuted(ps, order)) == Permuted(Records(ps), order)
  {
    var a, b := Records(Permuted(ps, order)), Permuted(Records(ps), order);
    assert |a| == |b|;
    forall i | 0 <= i < |a|
      ensures a[i] == b[i]
    {
      assert a[i] == ps[order[i]].Record();
    }
  }

  /** patientToHTML on each patient in turn. Building a block changes
      nothing, so building every block before the first append leaves the
      dialog as the interleaved loop does. */
  method HtmlPages(recs: seq<PatientRecord>, dateText: Date -> string) returns (pages: seq<string>)
    ensures pages == Pages(recs, dateText)
  {
    ghost var all := Pages(recs, dateText);
    pages := [];
    var k := 0;
    while k < |recs|
      invariant 0 <= k <= |recs| && |pages| == k
      invariant pages == all[..k]
    {
      var page := PatientToHtml(recs[k], dateText);
      PrefixGrows(all, pages, page);
      pages := pages + [page];
      k := k + 1;
    }
    PrefixWhole(all, pages);
  }

  /** reportDialog.append on each block in turn: the method returns at the
      first append that throws, before showDialog; otherwise the dialog is
      shown once every block is in. */
  method AppendAll(title: string, pages: seq<string>, fails: nat -> bool) returns (rep: Report)
    ensures rep == Appended(title, pages, fails)
  {
    var entries: seq<string> := [];
    var k := 0;
    while k < |pages|
      invariant 0 <= k <= |pages| && |entries| == k
      invariant entries == pages[..k]
      invariant NoneFailBefore(fails, k)
    {
      if fails(k) {
        AppendedAfter(title, pages, fails, entries, true);
        return Report(title, entries, false);
      }
      PrefixGrows(pages, entries, pages[k]);
      entries := entries + [pages[k]];
      k := k + 1;
    }
    AppendedAfter(title, pages, fails, entries, false);
    rep := Report(title, entries, true);
  }

  method GenerateFullReport(patients: seq<Patient>, dateText: Date -> string, fails: nat -> bool)
    returns (rep: Report)
    ensures rep == FullReport(old(Records(patients)), dateText, fails)
  {
    var names := seq(|patients|, i requires 0 <= i < |patients| reads patients => patients[i].patientName);
    var patientList := Permuted(patients, SortOrder(names, NameLe));
    var recs := Records(patientList);
    FullReportFrom(patients, names, dateText, fails);
    var pages := HtmlPages(recs, dateText);
    rep := AppendAll(CompleteTitle, pages, fails);
  }

  lemma {:induction false} SelectedSkips(recs: seq<PatientRecord>, overdue: PatientRecord -> bool, i: nat)
    requires i < |recs| && Skipped(recs[i])
    ensures Selected(recs, overdue, i) == Selected(recs, overdue, i + 2)
  {
  }

  lemma {:induction false} SelectedPicks(recs: seq<PatientRecord>, overdue: PatientRecord -> bool, i: nat)
    requires i < |recs| && !Skipped(recs[i]) && overdue(recs[i])
    ensures Selected(recs, overdue, i) == [i] + Selected(recs, overdue, i + 1)
  {
  }

  lemma {:induction false} SelectedPasses(recs: seq<PatientRecord>, overdue: PatientRecord -> bool, i: nat)
    requires i < |recs| && !Skipped(recs[i]) && !overdue(recs[i])
    ensures Selected(recs, overdue, i) == Selected(recs, overdue, i + 1)
  {
  }

  /** The test in generateOverdueReport's loop for a patient that is not
      skipped: its payments are sorted by date, and the month difference from
      the last of them to now must exceed six. */
  method OverdueCheck(p: PatientRecord, now: Date) returns (overdue: bool)
    requires p.payments != []
    ensures overdue == OverdueAt(now)(p)
  {
    var payments := DateSorted(p).payments;
    var payment := payments[|payments| - 1];
    var differenceYears := now.year - payment.date.year;
    var differenceMonths := now.month - payment.date.month;
    var difference := differenceMonths + 12 * differenceYears;
    overdue := difference > 6;
    OverdueFromLatest(p, now, payment.date, difference);
  }

  lemma {:induction false} OverdueFromLatest(r: PatientRecord, now: Date, latest: Date, difference: int)
    requires r.payments != []
    requires latest == DateSorted(r).payments[|r.payments| - 1].date
    requires difference == (now.month - latest.month) + 12 * (now.year - latest.year)
    ensures OverdueAt(now)(r) == (difference > 6)
  {
  }

  /** One pass of generateOverdueReport's loop body at position i: whether
      the patient there is picked, and the position the loop goes on from. */
  method ExamineAt(sorted: seq<PatientRecord>, now: Date, i: nat) returns (picked: bool, next: nat)
    requires i < |sorted|
    ensures i < next <= i + 2
    ensures Selected(sorted, OverdueAt(now), i) == (if picked then [i] else []) + Selected(sorted, OverdueAt(now), next)
  {
    var p := sorted[i];
    if Owed(p) <= 0 || p.payments == [] {
      SelectedSkips(sorted, OverdueAt(now), i);
      return false, i + 2;
    }
    picked := OverdueCheck(p, now);
    if picked {
      SelectedPicks(sorted, OverdueAt(now), i);
    } else {
      SelectedPasses(sorted, OverdueAt(now), i);
    }
    next := i + 1;
  }

  /** The loop of generateOverdueReport over the patients sorted by balance:
      the positions it picks, where after a skipped patient the index
      advances twice. */
  method OverduePositions(sorted: seq<PatientRecord>, now: Date) returns (sel: seq<nat>)
    ensures sel == Selected(sorted, OverdueAt(now), 0)
  {
    sel := [];
    var i := 0;
    while i < |sorted|
      invariant 0 <= i <= |sorted| + 1
      invariant sel + Selected(sorted, OverdueAt(now), i) == Selected(sorted, OverdueAt(now), 0)
      decreases |sorted| + 1 - i
    {
      var picked, next := ExamineAt(sorted, now, i);
      var head := if picked then [i] else [];
      CollectedGrows(sel, head, Selected(sorted, OverdueAt(now), next), Selected(sorted, OverdueAt(now), 0));
      sel := sel + head;
      i := next;
    }
  }

  /** The picked patients in order, each with its payment list sorted by
      date, as patientToHTML then reads them. */
  method DateSortedRecords(sorted: seq<PatientRecord>, sel: seq<nat>) returns (picked: seq<PatientRecord>)
    requires InBounds(sel, |sorted|)
    ensures picked == OverdueRecords(sorted, sel)
  {
    ghost var all := OverdueRecords(sorted, sel);
    picked := [];
    var k := 0;
    while k < |sel|
      invariant 0 <= k <= |sel| && |picked| == k
      invariant picked == all[..k]
    {
      var p := sorted[sel[k]];
      var payments := Permuted(p.payments, SortOrder(Dates(p.payments), DateLe));
      PrefixGrows(all, picked, p.(payments := payments));
      picked := picked + [p.(payments := payments)];
      k := k + 1;
    }
    PrefixWhole(all, picked);
  }

  /** generateOverdueReport: the patients sorted by balance are examined in
      turn; each picked patient's block, showing its payments by date, is
      then appended to the dialog. */
  method GenerateOverdueReport(patients: seq<Patient>, now: Date, dateText: Date -> string, fails: nat -> bool)
    returns (rep: Report)
    ensures rep == OverdueReport(old(Records(patients)), now, dateText, fails)
  {
    var recs := Records(patients);
    var sorted := Permuted(recs, SortOrder(OwedAmounts(recs), OwedLe));
    var sel := OverduePositions(sorted, now);
    var picked := DateSortedRecords(sorted, sel);
    var pages := HtmlPages(picked, dateText);
    rep := AppendAll(OverdueTitle, pages, fails);
  }
}
