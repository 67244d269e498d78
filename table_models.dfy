/** The Swing table models of the patients, procedures and payments. Each
    holds an ArrayList by reference and forwards the list operations of
    CustomAbstractTableModel (add, get, set, find, remove, clear, setData) to
    it; each also maps a row and column to the value shown in that cell. */
module TableModels {
  import opened Calendar
  import opened Ids
  import opened Lists
  import opened Outcomes
  import opened Patients
  import opened Payments
  import opened Procedures

  /** The class a table reports for a column (getColumnClass). */
  datatype ColumnClass = IntegerClass | StringClass | DoubleClass | BooleanClass | ObjectClass

  /** The value getValueAt returns for a cell. */
  datatype Cell =
    | IntegerCell(i: int)
    | StringCell(s: string)
    | DoubleCell(cents: int)
    | DateCell(d: Date)
    | BooleanCell(b: bool)
    | NullCell

  /** A cell value is an instance of the column's class; null belongs to
      every class. */
  predicate Fits(c: Cell, k: ColumnClass) {
    match k
    case ObjectClass => true
    case IntegerClass => c.IntegerCell? || c.NullCell?
    case StringClass => c.StringCell? || c.NullCell?
    case DoubleClass => c.DoubleCell? || c.NullCell?
    case BooleanClass => c.BooleanCell? || c.NullCell?
  }

  const PatientHeaders: seq<string> := ["#", "Name", "Address", "Phone #"]
  const ProcedureHeaders: seq<string> := ["#", "Name", "Price"]
  const PaymentHeaders: seq<string> := ["#", "Amount Due", "Date", "Paid"]

  /** getColumnName: the header of the column, read from the headers array,
      so a column outside it throws. */
  function ColumnName(headers: seq<string>, column: int): (r: Result<string>)
    ensures r.Returned? <==> 0 <= column < |headers|
    ensures r.Returned? ==> r.value == headers[column]
    ensures r.Raised? ==> r.error == IndexOutOfBounds
  {
    if 0 <= column < |headers| then Returned(headers[column]) else Raised(IndexOutOfBounds)
  }

  // ---------------------------------------------------------------------

  class PatientTableModel {
    var patientList: ArrayList<Patient>

    /** The default constructor: a new, empty list. */
    constructor ()
      ensures fresh(patientList) && patientList.elems == []
    {
      patientList := new ArrayList();
    }

    /** The constructor that installs the given list itself. */
    constructor Of(data: ArrayList<Patient>)
      ensures patientList == data
    {
      patientList := data;
    }

    /** getColumnCount: one column per header, and exactly the columns for
        which getValueAt yields a value. */
    function GetColumnCount(): (n: nat)
      ensures n == |PatientHeaders| == 4
    {
      |PatientHeaders|
    }

    /** getColumnName: exactly the counted columns have a name. */
    function GetColumnName(column: int): (r: Result<string>)
      ensures r.Returned? <==> 0 <= column < GetColumnCount()
      ensures r.Returned? ==> r.value == PatientHeaders[column]
    {
      ColumnName(PatientHeaders, column)
    }

    /** getColumnClass: Integer for the id column, String for every other. */
    function GetColumnClass(column: int): (k: ColumnClass)
      ensures k == IntegerClass <==> column == 0
      ensures k != IntegerClass ==> k == StringClass
    {
      if column == 0 then IntegerClass else StringClass
    }

    /** getRowCount: the rows that get and getValueAt accept. */
    function GetRowCount(): (n: nat)
      reads this, patientList
      ensures forall row :: 0 <= row < n <==> Get(row).Returned?
    {
      patientList.Size()
    }

    function Get(index: int): (r: Result<Patient>)
      reads this, patientList
      ensures r.Returned? <==> 0 <= index < |patientList.elems|
      ensures r.Returned? ==> r.value == patientList.elems[index]
      ensures r.Raised? ==> r.error == IndexOutOfBounds
    {
      patientList.Get(index)
    }

    /** getValueAt: the id, name, address or phone of the row's patient for
        columns 0 to 3 and null for any other column; a row outside the list
        throws, whatever the column. The value fits the column's class. */
    function GetValueAt(row: int, column: int): (r: Result<Cell>)
      reads this, patientList, patientList.elems
      ensures r.Raised? <==> !(0 <= row < |patientList.elems|)
      ensures r.Raised? ==> r.error == IndexOutOfBounds
      ensures r.Returned? ==> Fits(r.value, GetColumnClass(column))
      ensures r.Returned? ==> (r.value != NullCell <==> 0 <= column < GetColumnCount())
      ensures r.Returned? && column == 0 ==> r.value == IntegerCell(patientList.elems[row].patientNo)
      ensures r.Returned? && column == 1 ==> r.value == StringCell(patientList.elems[row].patientName)
      ensures r.Returned? && column == 2 ==> r.value == StringCell(patientList.elems[row].patientAddress)
      ensures r.Returned? && column == 3 ==> r.value == StringCell(patientList.elems[row].patientPhone)
    {
      match Get(row)
      case Raised(e) => Raised(e)
      case Returned(patient) =>
        Returned(
          if column == 0 then IntegerCell(patient.patientNo)
          else if column == 1 then StringCell(patient.patientName)
          else if column == 2 then StringCell(patient.patientAddress)
          else if column == 3 then StringCell(patient.patientPhone)
          else NullCell)
    }

    method Add(value: Patient)
      modifies patientList
      ensures patientList == old(patientList)
      ensures patientList.elems == old(patientList.elems) + [value]
    {
      patientList.Add(value);
    }

    method Set(index: int, value: Patient) returns (s: Status)
      modifies patientList
      ensures patientList == old(patientList)
      ensures s == if 0 <= index < |old(patientList.elems)| then Completed else Threw(IndexOutOfBounds)
      ensures patientList.elems == if s.Completed? then old(patientList.elems)[index := value] else old(patientList.elems)
    {
      s := patientList.Set(index, value);
    }

    /** find: the first row holding a patient that Patient.equals matches,
        that is one with the same id, or -1 when there is none. */
    function Find(patient: Patient): (r: int)
      reads this, patientList, patientList.elems, patient
      ensures -1 <= r < |patientList.elems|
      ensures r >= 0 ==> patient.Equals(patientList.elems[r])
      ensures forall j :: 0 <= j < |patientList.elems| && (r == -1 || j < r) ==>
        !patient.Equals(patientList.elems[j])
    {
      var ps := patientList.elems;
      var nos := seq(|ps|, j requires 0 <= j < |ps| reads ps => ps[j].patientNo);
      var r := IndexOf(nos, patient.patientNo);
      assert forall j :: 0 <= j < |ps| && (r == -1 || j < r) ==> !patient.Equals(ps[j]) by {
        forall j | 0 <= j < |ps| && (r == -1 || j < r)
          ensures !patient.Equals(ps[j])
        {
          if r >= 0 {
            assert nos[j] in nos[..r];
          }
        }
      }
      r
    }

    method Remove(index: int) returns (s: Status)
      modifies patientList
      ensures patientList == old(patientList)
      ensures s == if 0 <= index < |old(patientList.elems)| then Completed else Threw(IndexOutOfBounds)
      ensures patientList.elems == if s.Completed? then RemovedAt(old(patientList.elems), index) else old(patientList.elems)
    {
      s := patientList.RemoveAt(index);
    }

    method Clear()
      modifies patientList
      ensures patientList == old(patientList) && patientList.elems == []
    {
      patientList.Clear();
    }

    /** setData: installs the given list object itself, not a copy. */
    method SetData(data: ArrayList<Patient>)
      modifies this
      ensures patientList == data
    {
      patientList := data;
    }
  }

  // ---------------------------------------------------------------------

  class ProcedureTableModel {
    var procedureList: ArrayList<Procedure>

    constructor ()
      ensures fresh(procedureList) && procedureList.elems == []
    {
      procedureList := new ArrayList();
    }

    constructor Of(data: ArrayList<Procedure>)
      ensures procedureList == data
    {
      procedureList := data;
    }

    function GetColumnCount(): (n: nat)
      ensures n == |ProcedureHeaders| == 3
    {
      |ProcedureHeaders|
    }

    /** getColumnName: exactly the counted columns have a name. */
    function GetColumnName(column: int): (r: Result<string>)
      ensures r.Returned? <==> 0 <= column < GetColumnCount()
      ensures r.Returned? ==> r.value == ProcedureHeaders[column]
    {
      ColumnName(ProcedureHeaders, column)
    }

    /** getColumnClass: Integer for the id, Double for the cost, String for
        every other column. */
    function GetColumnClass(column: int): (k: ColumnClass)
      ensures k == IntegerClass <==> column == 0
      ensures k == DoubleClass <==> column == 2
      ensures k != IntegerClass && k != DoubleClass ==> k == StringClass
    {
      if column == 0 then IntegerClass
      else if column == 2 then DoubleClass
      else StringClass
    }

    function GetRowCount(): (n: nat)
      reads this, procedureList
      ensures forall row :: 0 <= row < n <==> Get(row).Returned?
    {
      procedureList.Size()
    }

    function Get(index: int): (r: Result<Procedure>)
      reads this, procedureList
      ensures r.Returned? <==> 0 <= index < |procedureList.elems|
      ensures r.Returned? ==> r.value == procedureList.elems[index]
      ensures r.Raised? ==> r.error == IndexOutOfBounds
    {
      procedureList.Get(index)
    }

    /** getValueAt: the id, name or cost of the row's procedure for columns 0
        to 2 and null otherwise; a row outside the list throws. */
    function GetValueAt(row: int, column: int): (r: Result<Cell>)
      reads this, procedureList, procedureList.elems
      ensures r.Raised? <==> !(0 <= row < |procedureList.elems|)
      ensures r.Raised? ==> r.error == IndexOutOfBounds
      ensures r.Returned? ==> Fits(r.value, GetColumnClass(column))
      ensures r.Returned? ==> (r.value != NullCell <==> 0 <= column < GetColumnCount())
      ensures r.Returned? && column == 0 ==> r.value == IntegerCell(procedureList.elems[row].procedureNo)
      ensures r.Returned? && column == 1 ==> r.value == StringCell(procedureList.elems[row].procedureName)
      ensures r.Returned? && column == 2 ==> r.value == DoubleCell(procedureList.elems[row].procedureCost)
    {
      match Get(row)
      case Raised(e) => Raised(e)
      case Returned(procedure) =>
        Returned(
          if column == 0 then IntegerCell(procedure.procedureNo)
          else if column == 1 then StringCell(procedure.procedureName)
          else if column == 2 then DoubleCell(procedure.procedureCost)
          else NullCell)
    }

    method Add(value: Procedure)
      modifies procedureList
      ensures procedureList == old(procedureList)
      ensures procedureList.elems == old(procedureList.elems) + [value]
    {
      procedureList.Add(value);
    }

    method Set(row: int, procedure: Procedure) returns (s: Status)
      modifies procedureList
      ensures procedureList == old(procedureList)
      ensures s == if 0 <= row < |old(procedureList.elems)| then Completed else Threw(IndexOutOfBounds)
      ensures procedureList.elems == if s.Completed? then old(procedureList.elems)[row := procedure] else old(procedureList.elems)
    {
      s := procedureList.Set(row, procedure);
    }

    /** find: the first row holding a procedure that Procedure.equals
        matches, that is one with the same name whatever its id and cost, or
        -1 when there is none. */
    function Find(procedure: Procedure): (r: int)
      reads this, procedureList, procedureList.elems, procedure
      ensures -1 <= r < |procedureList.elems|
      ensures r >= 0 ==> procedure.Equals(procedureList.elems[r])
      ensures forall j :: 0 <= j < |procedureList.elems| && (r == -1 || j < r) ==>
        !procedure.Equals(procedureList.elems[j])
    {
      var ps := procedureList.elems;
      var names := seq(|ps|, j requires 0 <= j < |ps| reads ps => ps[j].procedureName);
      var r := IndexOf(names, procedure.procedureName);
      assert forall j :: 0 <= j < |ps| && (r == -1 || j < r) ==> !procedure.Equals(ps[j]) by {
        forall j | 0 <= j < |ps| && (r == -1 || j < r)
          ensures !procedure.Equals(ps[j])
        {
          if r >= 0 {
            assert names[j] in names[..r];
          }
        }
      }
      r
    }

    method Remove(index: int) returns (s: Status)
      modifies procedureList
      ensures procedureList == old(procedureList)
      ensures s == if 0 <= index < |old(procedureList.elems)| then Completed else Threw(IndexOutOfBounds)
      ensures procedureList.elems == if s.Completed? then RemovedAt(old(procedureList.elems), index) else old(procedureList.elems)
    {
      s := procedureList.RemoveAt(index);
    }

    method Clear()
      modifies procedureList
      ensures procedureList == old(procedureList) && procedureList.elems == []
    {
      procedureList.Clear();
    }

    method SetData(data: ArrayList<Procedure>)
      modifies this
      ensures procedureList == data
    {
      procedureList := data;
    }

    /** getModel: the installed list object itself. */
    function GetModel(): (r: ArrayList<Procedure>)
      reads this
      ensures r == procedureList
    {
      procedureList
    }
  }

  // ---------------------------------------------------------------------

  class PaymentTableModel {
    var paymentList: ArrayList<Payment>

    constructor ()
      ensures fresh(paymentList) && paymentList.elems == []
    {
      paymentList := new ArrayList();
    }

    constructor Of(data: ArrayList<Payment>)
      ensures paymentList == data
    {
      paymentList := data;
    }

    function GetColumnCount(): (n: nat)
      ensures n == |PaymentHeaders| == 4
    {
      |PaymentHeaders|
    }

    /** getColumnName: exactly the counted columns have a name. */
    function GetColumnName(column: int): (r: Result<string>)
      ensures r.Returned? <==> 0 <= column < GetColumnCount()
      ensures r.Returned? ==> r.value == PaymentHeaders[column]
    {
      ColumnName(PaymentHeaders, column)
    }

    /** getColumnClass: Boolean for the status column, Object for every
        other. */
    function GetColumnClass(column: int): (k: ColumnClass)
      ensures k == BooleanClass <==> column == 3
      ensures k != BooleanClass ==> k == ObjectClass
    {
      if column == 3 then BooleanClass else ObjectClass
    }

    function GetRowCount(): (n: nat)
      reads this, paymentList
      ensures forall row :: 0 <= row < n <==> Get(row).Returned?
    {
      paymentList.Size()
    }

    function Get(index: int): (r: Result<Payment>)
      reads this, paymentList
      ensures r.Returned? <==> 0 <= index < |paymentList.elems|
      ensures r.Returned? ==> r.value == paymentList.elems[index]
      ensures r.Raised? ==> r.error == IndexOutOfBounds
    {
      paymentList.Get(index)
    }

    /** getValueAt: the id, amount, date or status of the row's payment for
        columns 0 to 3 and null otherwise; a row outside the list throws. */
    function GetValueAt(row: int, column: int): (r: Result<Cell>)
      reads this, paymentList, paymentList.elems
      ensures r.Raised? <==> !(0 <= row < |paymentList.elems|)
      ensures r.Raised? ==> r.error == IndexOutOfBounds
      ensures r.Returned? ==> Fits(r.value, GetColumnClass(column))
      ensures r.Returned? ==> (r.value != NullCell <==> 0 <= column < GetColumnCount())
      ensures r.Returned? && column == 0 ==> r.value == IntegerCell(paymentList.elems[row].paymentNo)
      ensures r.Returned? && column == 1 ==> r.value == DoubleCell(paymentList.elems[row].paymentAmount)
      ensures r.Returned? && column == 2 ==> r.value == DateCell(paymentList.elems[row].paymentDate)
      ensures r.Returned? && column == 3 ==> r.value == BooleanCell(paymentList.elems[row].paymentStatus)
    {
      match Get(row)
      case Raised(e) => Raised(e)
      case Returned(payment) =>
        Returned(
          if column == 0 then IntegerCell(payment.paymentNo)
          else if column == 1 then DoubleCell(payment.paymentAmount)
          else if column == 2 then DateCell(payment.paymentDate)
          else if column == 3 then BooleanCell(payment.paymentStatus)
          else NullCell)
    }

    /** isCellEditable: every cell reports itself editable. */
    predicate IsCellEditable(rowIndex: int, columnIndex: int)
      ensures IsCellEditable(rowIndex, columnIndex)
    {
      true
    }

    method Add(value: Payment)
      modifies paymentList
      ensures paymentList == old(paymentList)
      ensures paymentList.elems == old(paymentList.elems) + [value]
    {
      paymentList.Add(value);
    }

    method Set(index: int, payment: Payment) returns (s: Status)
      modifies paymentList
      ensures paymentList == old(paymentList)
      ensures s == if 0 <= index < |old(paymentList.elems)| then Completed else Threw(IndexOutOfBounds)
      ensures paymentList.elems == if s.Completed? then old(paymentList.elems)[index := payment] else old(paymentList.elems)
    {
      s := paymentList.Set(index, payment);
    }

    /** find: Payment does not override equals, so the search is for the very
        same object; a payment with equal fields is not found. */
    function Find(payment: Payment): (r: int)
      reads this, paymentList
      ensures -1 <= r < |paymentList.elems|
      ensures r >= 0 ==> paymentList.elems[r] == payment
      ensures forall j :: 0 <= j < |paymentList.elems| && (r == -1 || j < r) ==> paymentList.elems[j] != payment
    {
      var r := IndexOf(paymentList.elems, payment);
      assert forall j :: 0 <= j < |paymentList.elems| && (r == -1 || j < r) ==> paymentList.elems[j] != payment by {
        if r >= 0 {
          forall j | 0 <= j < r
            ensures paymentList.elems[j] != payment
          {
            assert paymentList.elems[j] in paymentList.elems[..r];
          }
        }
      }
      r
    }

    method Remove(index: int) returns (s: Status)
      modifies paymentList
      ensures paymentList == old(paymentList)
      ensures s == if 0 <= index < |old(paymentList.elems)| then Completed else Threw(IndexOutOfBounds)
      ensures paymentList.elems == if s.Completed? then RemovedAt(old(paymentList.elems), index) else old(paymentList.elems)
    {
      s := paymentList.RemoveAt(index);
    }

    method Clear()
      modifies paymentList
      ensures paymentList == old(paymentList) && paymentList.elems == []
    {
      paymentList.Clear();
    }

    method SetData(data: ArrayList<Payment>)
      modifies this
      ensures paymentList == data
    {
      paymentList := data;
    }

    function GetModel(): (r: ArrayList<Payment>)
      reads this
      ensures r == paymentList
    {
      paymentList
    }
  }

  /** A list installed with setData stays shared: a payment added to it
      afterwards, by any holder, is the table's last row, and getModel hands
      back that same list. */
  method InstalledListIsShared(model: PaymentTableModel, data: ArrayList<Payment>, payment: Payment)
    modifies model, data
    ensures model.GetModel() == data
    ensures model.GetRowCount() == |old(data.elems)| + 1
    ensures model.Get(|old(data.elems)|) == Returned(payment)
  {
    model.SetData(data);
    data.Add(payment);
  }

  /** A payment with the same field values as a listed one, but a different
      object, is not found. */
  method EqualCopyNotFound(model: PaymentTableModel, listed: Payment, copy: Payment)
    requires model.paymentList.elems == [listed] && copy != listed
    requires copy.Record() == listed.Record()
    ensures model.Find(copy) == -1
  {
  }
}
