/** ReportController.patientToHTML: the HTML block that describes one patient
    in a report, with a heading, the contact details, a table of procedures
    and a table of payments. The block is written by appending one piece
    after another, so its definition here is a left fold of those pieces
    onto the text so far. */
module ReportHtml {
  import opened Calendar
  import opened JavaText
  import opened Money
  import opened Patients
  import opened Payments
  import opened Procedures

  /** The rule that separates one patient's block from the next. */
  const Trailer: string := "<br><br><br><hr><br><br><br>"

  /** The text of every cell of an empty table's single row. */
  const NotAvailable: string := " N/A "

  const ProcedureHeaders: seq<string> := ["ID", "Name", "Cost"]
  const PaymentHeaders: seq<string> := ["ID", "Amount", "Date", "Status"]
  const NoProcedures: seq<string> := [NotAvailable, NotAvailable, NotAvailable]
  const NoPayments: seq<string> := [NotAvailable, NotAvailable, NotAvailable, NotAvailable]

  function Td(text: string): string {
    "<td>" + text + "</td>"
  }

  function Th(text: string): string {
    "<th>" + text + "</th>"
  }

  /** `s` begins with `prefix`. */
  predicate Extends(prefix: string, s: string) {
    |prefix| <= |s| && s[..|prefix|] == prefix
  }

  lemma {:induction false} ExtendsAppend(prefix: string, s: string, t: string)
    requires Extends(prefix, s)
    ensures Extends(prefix, s + t)
  {
    assert (s + t)[..|prefix|] == s[..|prefix|];
  }

  lemma {:induction false} ExtendsTransitive(a: string, b: string, c: string)
    requires Extends(a, b) && Extends(b, c)
    ensures Extends(a, c)
  {
    assert c[..|a|] == c[..|b|][..|a|];
  }

  /** `acc` followed by one cell per text, left to right. */
  function CellsAfter(acc: string, cells: seq<string>): string {
    if cells == [] then acc else CellsAfter(acc, cells[..|cells| - 1]) + Td(cells[|cells| - 1])
  }

  /** `acc` followed by one heading cell per name, left to right. */
  function HeadersAfter(acc: string, names: seq<string>): string {
    if names == [] then acc else HeadersAfter(acc, names[..|names| - 1]) + Th(names[|names| - 1])
  }

  /** `acc` followed by one table row holding the given cells. */
  function RowAfter(acc: string, cells: seq<string>): string {
    CellsAfter(acc + "<tr>", cells) + "</tr>"
  }

  /** `acc` followed by the given rows, top to bottom. */
  function RowsAfter(acc: string, rows: seq<seq<string>>): string {
    if rows == [] then acc else RowAfter(RowsAfter(acc, rows[..|rows| - 1]), rows[|rows| - 1])
  }

  /** The opening of a titled table, up to its heading cells. */
  function TableOpen(acc: string, title: string): string {
    acc + ("<h3>" + title + "</h3>") + "<table width = \"100%\">" + "<tr>"
  }

  /** `acc` followed by a titled table: its heading row, then its rows. */
  function TableAfter(acc: string, title: string, headers: seq<string>, rows: seq<seq<string>>): string {
    RowsAfter(HeadersAfter(TableOpen(acc, title), headers) + "</tr>", rows) + "</table>"
  }

  // Each piece only adds to the text before it.

  lemma {:induction false} CellsAfterExtends(acc: string, cells: seq<string>)
    ensures Extends(acc, CellsAfter(acc, cells))
  {
    if cells != [] {
      CellsAfterExtends(acc, cells[..|cells| - 1]);
      ExtendsAppend(acc, CellsAfter(acc, cells[..|cells| - 1]), Td(cells[|cells| - 1]));
    }
  }

  lemma {:induction false} HeadersAfterExtends(acc: string, names: seq<string>)
    ensures Extends(acc, HeadersAfter(acc, names))
  {
    if names != [] {
      HeadersAfterExtends(acc, names[..|names| - 1]);
      ExtendsAppend(acc, HeadersAfter(acc, names[..|names| - 1]), Th(names[|names| - 1]));
    }
  }

  lemma {:induction false} RowAfterExtends(acc: string, cells: seq<string>)
    ensures Extends(acc, RowAfter(acc, cells))
  {
    ExtendsAppend(acc, acc, "<tr>");
    CellsAfterExtends(acc + "<tr>", cells);
    ExtendsTransitive(acc, acc + "<tr>", CellsAfter(acc + "<tr>", cells));
    ExtendsAppend(acc, CellsAfter(acc + "<tr>", cells), "</tr>");
  }

  lemma {:induction false} RowsAfterExtends(acc: string, rows: seq<seq<string>>)
    ensures Extends(acc, RowsAfter(acc, rows))
  {
    if rows != [] {
      var front := RowsAfter(acc, rows[..|rows| - 1]);
      RowsAfterExtends(acc, rows[..|rows| - 1]);
      RowAfterExtends(front, rows[|rows| - 1]);
      ExtendsTransitive(acc, front, RowAfter(front, rows[|rows| - 1]));
    }
  }

  lemma {:induction false} TableAfterExtends(acc: string, title: string, headers: seq<string>, rows: seq<seq<string>>)
    ensures Extends(acc, TableAfter(acc, title, headers, rows))
  {
    var openTag := TableOpen(acc, title);
    assert openTag == acc + (openTag[|acc|..]);
    HeadersAfterExtends(openTag, headers);
    var head := HeadersAfter(openTag, headers) + "</tr>";
    ExtendsAppend(openTag, HeadersAfter(openTag, headers), "</tr>");
    ExtendsTransitive(acc, openTag, head);
    RowsAfterExtends(head, rows);
    ExtendsTransitive(acc, head, RowsAfter(head, rows));
    ExtendsAppend(acc, RowsAfter(head, rows), "</table>");
  }

  function ProcedureCells(p: ProcedureRecord): seq<string> {
    [IntText(p.no), p.name, EuroText(p.cost)]
  }

  function PaymentCells(p: PaymentRecord, dateText: Date -> string): seq<string> {
    [IntText(p.no), DoubleText(p.amount), dateText(p.date), BoolText(p.paid)]
  }

  function ProcedureRows(ps: seq<ProcedureRecord>): (rows: seq<seq<string>>)
    ensures |rows| == |ps| && forall i :: 0 <= i < |ps| ==> rows[i] == ProcedureCells(ps[i])
  {
    seq(|ps|, i requires 0 <= i < |ps| => ProcedureCells(ps[i]))
  }

  function PaymentRows(ps: seq<PaymentRecord>, dateText: Date -> string): (rows: seq<seq<string>>)
    ensures |rows| == |ps| && forall i :: 0 <= i < |ps| ==> rows[i] == PaymentCells(ps[i], dateText)
  {
    seq(|ps|, i requires 0 <= i < |ps| => PaymentCells(ps[i], dateText))
  }

  /** The rows of the procedure table: one per procedure, or the N/A row
      when the patient has none. */
  function ProcedureTableRows(ps: seq<ProcedureRecord>): seq<seq<string>> {
    if ps == [] then [NoProcedures] else ProcedureRows(ps)
  }

  /** The rows of the payment table: one per payment, or the N/A row when
      the patient has none. */
  function PaymentTableRows(ps: seq<PaymentRecord>, dateText: Date -> string): seq<seq<string>> {
    if ps == [] then [NoPayments] else PaymentRows(ps, dateText)
  }

  /** The heading: the patient's name. */
  function Heading(r: PatientRecord): string {
    "<h2>" + r.name + "</h2>"
  }

  /** The heading and the contact details. */
  function Intro(r: PatientRecord): string {
    "" + Heading(r) + "<ul>"
    + ("<li><b>ID:</b> " + IntText(r.no) + "</li>")
    + ("<li><b>Address:</b> " + r.address + "</li>")
    + ("<li><b>Phone:</b> " + r.phone + "</li>")
    + "</ul>"
  }

  lemma {:induction false} IntroExtends(r: PatientRecord)
    ensures Extends(Heading(r), Intro(r))
  {
    var h := Heading(r);
    var a := "<li><b>ID:</b> " + IntText(r.no) + "</li>";
    var b := "<li><b>Address:</b> " + r.address + "</li>";
    var c := "<li><b>Phone:</b> " + r.phone + "</li>";
    assert "" + h == h;
    assert Extends(h, "" + h);
    ExtendsAppend(h, "" + h, "<ul>");
    ExtendsAppend(h, "" + h + "<ul>", a);
    ExtendsAppend(h, "" + h + "<ul>" + a, b);
    ExtendsAppend(h, "" + h + "<ul>" + a + b, c);
    ExtendsAppend(h, "" + h + "<ul>" + a + b + c, "</ul>");
  }

  /** The whole block for one patient; dates are rendered by `dateText`
      (Date.toString). */
  function Html(r: PatientRecord, dateText: Date -> string): string {
    var procedures := TableAfter(Intro(r), "Procedures", ProcedureHeaders,
                                 ProcedureTableRows(r.procedures));
    TableAfter(procedures, "Payments", PaymentHeaders,
               PaymentTableRows(r.payments, dateText))
    + Trailer
  }

  /** Every block opens with the patient's name as a heading and closes with
      the separating rule, and the contact details come before both tables. */
  lemma {:induction false} HtmlFrame(r: PatientRecord, dateText: Date -> string)
    ensures Extends(Intro(r), Html(r, dateText))
    ensures Extends(Heading(r), Html(r, dateText))
    ensures |Html(r, dateText)| >= |Trailer|
    ensures Html(r, dateText)[|Html(r, dateText)| - |Trailer|..] == Trailer
  {
    var procedures := TableAfter(Intro(r), "Procedures", ProcedureHeaders,
                                 ProcedureTableRows(r.procedures));
    var payments := TableAfter(procedures, "Payments", PaymentHeaders,
                               PaymentTableRows(r.payments, dateText));
    TableAfterExtends(Intro(r), "Procedures", ProcedureHeaders,
                      ProcedureTableRows(r.procedures));
    TableAfterExtends(procedures, "Payments", PaymentHeaders,
                      PaymentTableRows(r.payments, dateText));
    ExtendsTransitive(Intro(r), procedures, payments);
    ExtendsAppend(Intro(r), payments, Trailer);
    IntroExtends(r);
    ExtendsTransitive(Heading(r), Intro(r), Html(r, dateText));
  }

  /** A table shows the N/A row exactly when its list is empty: no procedure
      or payment row can be mistaken for it, since its id cell is a number. */
  lemma {:induction false} NotAvailableOnlyWhenEmpty(r: PatientRecord, dateText: Date -> string)
    ensures ProcedureTableRows(r.procedures)[0] == NoProcedures <==> r.procedures == []
    ensures PaymentTableRows(r.payments, dateText)[0] == NoPayments <==> r.payments == []
  {
    if r.procedures != [] {
      IdCellIsNotNotAvailable(r.procedures[0].no);
      assert ProcedureRows(r.procedures)[0][0] != NoProcedures[0];
    }
    if r.payments != [] {
      IdCellIsNotNotAvailable(r.payments[0].no);
      assert PaymentRows(r.payments, dateText)[0][0] != NoPayments[0];
    }
  }

  lemma {:induction false} IdCellIsNotNotAvailable(no: int)
    ensures IntText(no) != NotAvailable
  {
    var t := IntText(no);
    assert NotAvailable[0] == ' ';
    if no >= 0 {
      assert IsDigit(t[0]);
    } else {
      assert t[0] == '-';
    }
  }

  lemma {:induction false} CellsAfter3(acc: string, a: string, b: string, c: string)
    ensures CellsAfter(acc, [a, b, c]) == acc + Td(a) + Td(b) + Td(c)
  {
    assert [a, b, c][..2] == [a, b];
    assert [a, b][..1] == [a];
    assert [a][..0] == [];
    assert CellsAfter(acc, [a]) == acc + Td(a);
    assert CellsAfter(acc, [a, b]) == acc + Td(a) + Td(b);
  }

  lemma {:induction false} RowAfter3(acc: string, a: string, b: string, c: string)
    ensures RowAfter(acc, [a, b, c]) == acc + "<tr>" + Td(a) + Td(b) + Td(c) + "</tr>"
  {
    CellsAfter3(acc + "<tr>", a, b, c);
  }

  lemma {:induction false} RowAfter4(acc: string, a: string, b: string, c: string, d: string)
    ensures RowAfter(acc, [a, b, c, d]) == acc + "<tr>" + Td(a) + Td(b) + Td(c) + Td(d) + "</tr>"
  {
    assert [a, b, c, d][..3] == [a, b, c];
    CellsAfter3(acc + "<tr>", a, b, c);
  }

  lemma {:induction false} HeadersAfter3(acc: string, a: string, b: string, c: string)
    ensures HeadersAfter(acc, [a, b, c]) == acc + Th(a) + Th(b) + Th(c)
  {
    assert [a, b, c][..2] == [a, b];
    assert [a, b][..1] == [a];
    assert [a][..0] == [];
    assert HeadersAfter(acc, [a]) == acc + Th(a);
    assert HeadersAfter(acc, [a, b]) == acc + Th(a) + Th(b);
  }

  lemma {:induction false} HeadersAfter4(acc: string, a: string, b: string, c: string, d: string)
    ensures HeadersAfter(acc, [a, b, c, d]) == acc + Th(a) + Th(b) + Th(c) + Th(d)
  {
    assert [a, b, c, d][..3] == [a, b, c];
    HeadersAfter3(acc, a, b, c);
  }

  lemma {:induction false} TableAfterParts(acc: string, title: string, headers: seq<string>, rows: seq<seq<string>>)
    ensures TableAfter(acc, title, headers, rows)
      == RowsAfter(HeadersAfter(acc + ("<h3>" + title + "</h3>") + "<table width = \"100%\">" + "<tr>", headers)
                   + "</tr>", rows) + "</table>"
  {
  }

  lemma {:induction false} RowsAfterOneMore(acc: string, rows: seq<seq<string>>, i: nat)
    requires i < |rows|
    ensures RowsAfter(acc, rows[..i + 1]) == RowAfter(RowsAfter(acc, rows[..i]), rows[i])
  {
    assert rows[..i + 1][..i] == rows[..i];
  }

  /** The procedure section of patientToHTML: the heading row, then one row
      per procedure, or the N/A row when there are none. */
  method AppendProcedureTable(start: string, procedures: seq<ProcedureRecord>) returns (html: string)
    ensures html == TableAfter(start, "Procedures", ProcedureHeaders, ProcedureTableRows(procedures))
  {
    html := start;
    html := html + ("<h3>" + "Procedures" + "</h3>");
    html := html + "<table width = \"100%\">";
    html := html + "<tr>";
    ghost var openTag := html;
    html := html + Th("ID");
    html := html + Th("Name");
    html := html + Th("Cost");
    HeadersAfter3(openTag, "ID", "Name", "Cost");
    html := html + "</tr>";

    ghost var rows := ProcedureTableRows(procedures);
    ghost var rowsStart := html;
    if |procedures| == 0 {
      html := html + "<tr>";
      html := html + Td(NotAvailable);
      html := html + Td(NotAvailable);
      html := html + Td(NotAvailable);
      html := html + "</tr>";
      RowAfter3(rowsStart, NotAvailable, NotAvailable, NotAvailable);
      RowsAfterOneMore(rowsStart, rows, 0);
      assert rows[..1] == rows;
    } else {
      var i := 0;
      while i < |procedures|
        invariant 0 <= i <= |procedures|
        invariant html == RowsAfter(rowsStart, rows[..i])
      {
        var pro := procedures[i];
        assert rows[i] == [IntText(pro.no), pro.name, EuroText(pro.cost)];
        html := html + "<tr>";
        html := html + Td(IntText(pro.no));
        html := html + Td(pro.name);
        html := html + Td(EuroText(pro.cost));
        html := html + "</tr>";
        RowAfter3(RowsAfter(rowsStart, rows[..i]), IntText(pro.no), pro.name, EuroText(pro.cost));
        RowsAfterOneMore(rowsStart, rows, i);
        i := i + 1;
      }
      assert rows[..i] == rows;
    }
    html := html + "</table>";
    TableAfterParts(start, "Procedures", ProcedureHeaders, rows);
  }

  /** The payment section of patientToHTML: the heading row, then one row
      per payment, or the N/A row when there are none. */
  method AppendPaymentTable(start: string, payments: seq<PaymentRecord>, dateText: Date -> string) returns (html: string)
    ensures html == TableAfter(start, "Payments", PaymentHeaders, PaymentTableRows(payments, dateText))
  {
    html := start;
    html := html + ("<h3>" + "Payments" + "</h3>");
    html := html + "<table width = \"100%\">";
    html := html + "<tr>";
    ghost var openTag := html;
    html := html + Th("ID");
    html := html + Th("Amount");
    html := html + Th("Date");
    html := html + Th("Status");
    HeadersAfter4(openTag, "ID", "Amount", "Date", "Status");
    html := html + "</tr>";

    ghost var rows := PaymentTableRows(payments, dateText);
    ghost var rowsStart := html;
    if |payments| == 0 {
      html := html + "<tr>";
      html := html + Td(NotAvailable);
      html := html + Td(NotAvailable);
      html := html + Td(NotAvailable);
      html := html + Td(NotAvailable);
      html := html + "</tr>";
      RowAfter4(rowsStart, NotAvailable, NotAvailable, NotAvailable, NotAvailable);
      RowsAfterOneMore(rowsStart, rows, 0);
      assert rows[..1] == rows;
    } else {
      var j := 0;
      while j < |payments|
        invariant 0 <= j <= |payments|
        invariant html == RowsAfter(rowsStart, rows[..j])
      {
        var pay := payments[j];
        assert rows[j] == [IntText(pay.no), DoubleText(pay.amount), dateText(pay.date), BoolText(pay.paid)];
        html := html + "<tr>";
        html := html + Td(IntText(pay.no));
        html := html + Td(DoubleText(pay.amount));
        html := html + Td(dateText(pay.date));
        html := html + Td(BoolText(pay.paid));
        html := html + "</tr>";
        RowAfter4(RowsAfter(rowsStart, rows[..j]), IntText(pay.no), DoubleText(pay.amount),
                  dateText(pay.date), BoolText(pay.paid));
        RowsAfterOneMore(rowsStart, rows, j);
        j := j + 1;
      }
      assert rows[..j] == rows;
    }
    html := html + "</table>";
    TableAfterParts(start, "Payments", PaymentHeaders, rows);
  }

  /** patientToHTML: the block is built by appending piece after piece, with
      a loop over each list; the result is the block Html describes. The
      patient is read through its getters, which nothing changes while the
      block is built, so the method is given those values as a record. */
  method PatientToHtml(patient: PatientRecord, dateText: Date -> string) returns (html: string)
    ensures html == Html(patient, dateText)
  {
    html := "";
    html := html + ("<h2>" + patient.name + "</h2>");
    html := html + "<ul>";
    html := html + ("<li><b>ID:</b> " + IntText(patient.no) + "</li>");
    html := html + ("<li><b>Address:</b> " + patient.address + "</li>");
    html := html + ("<li><b>Phone:</b> " + patient.phone + "</li>");
    html := html + "</ul>";
    html := AppendProcedureTable(html, patient.procedures);
    html := AppendPaymentTable(html, patient.payments, dateText);
    html := html + Trailer;
  }
}
