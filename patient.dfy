/** model.Patient: a patient with an id, name, address and phone number, and
    the patient's own lists of procedures and payments, edited in place. */
module Patients {
  import opened Ids
  import opened JavaText
  import opened Lists
  import opened Outcomes
  import opened Payments
  import opened Procedures

  /** The value of a patient, with the values of its procedures and payments,
      at one moment. */
  datatype PatientRecord = PatientRecord(
    no: Int32, name: string, address: string, phone: string,
    procedures: seq<ProcedureRecord>, payments: seq<PaymentRecord>)

  function ProcedureRecords(ps: seq<Procedure>): (r: seq<ProcedureRecord>)
    reads ps
    ensures |r| == |ps| && forall i :: 0 <= i < |ps| ==> r[i] == ps[i].Record()
  {
    seq(|ps|, i requires 0 <= i < |ps| reads ps => ps[i].Record())
  }

  function PaymentRecords(ps: seq<Payment>): (r: seq<PaymentRecord>)
    reads ps
    ensures |r| == |ps| && forall i :: 0 <= i < |ps| ==> r[i] == ps[i].Record()
  {
    seq(|ps|, i requires 0 <= i < |ps| reads ps => ps[i].Record())
  }

  // ---------------------------------------------------------------------
  // The balance

  /** The sum of the procedure costs. */
  function TotalCost(ps: seq<ProcedureRecord>): int {
    if ps == [] then 0 else TotalCost(ps[..|ps| - 1]) + ps[|ps| - 1].cost
  }

  /** The sum of the amounts of the payments whose status is paid. */
  function TotalPaid(ps: seq<PaymentRecord>): int {
    if ps == [] then 0
    else TotalPaid(ps[..|ps| - 1]) + (if ps[|ps| - 1].paid then ps[|ps| - 1].amount else 0)
  }

  /** The amount a patient owes: every procedure's cost less every paid
      payment, not clamped at zero. */
  function Owed(r: PatientRecord): int {
    TotalCost(r.procedures) - TotalPaid(r.payments)
  }

  lemma {:induction false} TotalPaidAppend(a: seq<PaymentRecord>, b: seq<PaymentRecord>)
    ensures TotalPaid(a + b) == TotalPaid(a) + TotalPaid(b)
    decreases |b|
  {
    if b == [] {
      assert a + b == a;
    } else {
      assert (a + b)[..|a + b| - 1] == a + b[..|b| - 1];
      TotalPaidAppend(a, b[..|b| - 1]);
    }
  }

  lemma {:induction false} TotalCostAppend(a: seq<ProcedureRecord>, b: seq<ProcedureRecord>)
    ensures TotalCost(a + b) == TotalCost(a) + TotalCost(b)
    decreases |b|
  {
    if b == [] {
      assert a + b == a;
    } else {
      assert (a + b)[..|a + b| - 1] == a + b[..|b| - 1];
      TotalCostAppend(a, b[..|b| - 1]);
    }
  }

  /** What has been paid does not depend on the order of the payments. */
  lemma {:induction false} TotalPaidPermutation(a: seq<PaymentRecord>, b: seq<PaymentRecord>)
    requires multiset(a) == multiset(b)
    ensures TotalPaid(a) == TotalPaid(b)
    decreases |a|
  {
    if a != [] {
      var x := a[|a| - 1];
      assert x in multiset(b);
      var k :| 0 <= k < |b| && b[k] == x;
      var rest := b[..k] + b[k + 1..];
      assert b == b[..k] + [x] + b[k + 1..];
      assert a == a[..|a| - 1] + [x];
      assert multiset(a) == multiset(a[..|a| - 1]) + multiset{x};
      assert multiset(b) == multiset(b[..k]) + multiset{x} + multiset(b[k + 1..]);
      assert multiset(rest) == multiset(b[..k]) + multiset(b[k + 1..]);
      assert multiset(a[..|a| - 1]) == multiset(a) - multiset{x};
      assert multiset(rest) == multiset(b) - multiset{x};
      TotalPaidPermutation(a[..|a| - 1], rest);
      TotalPaidAppend(b[..k] + [x], b[k + 1..]);
      TotalPaidAppend(b[..k], [x]);
      TotalPaidAppend(b[..k], b[k + 1..]);
      assert TotalPaid([x]) == TotalPaid(a) - TotalPaid(a[..|a| - 1]) by {
        assert [x][..0] == [];
      }
    }
  }

  /** What the procedures cost does not depend on their order. */
  lemma {:induction false} TotalCostPermutation(a: seq<ProcedureRecord>, b: seq<ProcedureRecord>)
    requires multiset(a) == multiset(b)
    ensures TotalCost(a) == TotalCost(b)
    decreases |a|
  {
    if a != [] {
      var x := a[|a| - 1];
      assert x in multiset(b);
      var k :| 0 <= k < |b| && b[k] == x;
      var rest := b[..k] + b[k + 1..];
      assert b == b[..k] + [x] + b[k + 1..];
      assert a == a[..|a| - 1] + [x];
      assert multiset(a) == multiset(a[..|a| - 1]) + multiset{x};
      assert multiset(b) == multiset(b[..k]) + multiset{x} + multiset(b[k + 1..]);
      assert multiset(rest) == multiset(b[..k]) + multiset(b[k + 1..]);
      assert multiset(a[..|a| - 1]) == multiset(a) - multiset{x};
      assert multiset(rest) == multiset(b) - multiset{x};
      TotalCostPermutation(a[..|a| - 1], rest);
      TotalCostAppend(b[..k] + [x], b[k + 1..]);
      TotalCostAppend(b[..k], [x]);
      TotalCostAppend(b[..k], b[k + 1..]);
      assert TotalCost([x]) == x.cost by {
        assert [x][..0] == [];
      }
    }
  }

  /** An unpaid payment does not count: removing one leaves the total paid. */
  lemma {:induction false} UnpaidIgnored(ps: seq<PaymentRecord>, i: nat)
    requires i < |ps| && !ps[i].paid
    ensures TotalPaid(RemovedAt(ps, i)) == TotalPaid(ps)
  {
    assert ps == ps[..i] + [ps[i]] + ps[i + 1..];
    TotalPaidAppend(ps[..i] + [ps[i]], ps[i + 1..]);
    TotalPaidAppend(ps[..i], [ps[i]]);
    TotalPaidAppend(ps[..i], ps[i + 1..]);
    assert TotalPaid([ps[i]]) == 0 by {
      assert [ps[i]][..0] == [];
    }
  }

  /** With no negative amounts, the total paid is never negative, and it is
      positive once some paid payment has a positive amount. */
  lemma {:induction false} TotalPaidPositive(ps: seq<PaymentRecord>)
    requires forall i :: 0 <= i < |ps| ==> ps[i].amount >= 0
    ensures TotalPaid(ps) >= 0
    ensures (exists i :: 0 <= i < |ps| && ps[i].paid && ps[i].amount > 0) ==> TotalPaid(ps) > 0
    decreases |ps|
  {
    if ps != [] {
      var init := ps[..|ps| - 1];
      TotalPaidPositive(init);
      if exists i :: 0 <= i < |ps| && ps[i].paid && ps[i].amount > 0 {
        var i :| 0 <= i < |ps| && ps[i].paid && ps[i].amount > 0;
        if i < |ps| - 1 {
          assert init[i] == ps[i];
        }
      }
    }
  }

  /** The balance is not clamped at zero: it is negative exactly when the
      paid payments exceed the procedures' costs, in particular whenever a
      paid payment of a positive amount stands against no procedure at all. */
  lemma {:induction false} OwedNegative(r: PatientRecord)
    ensures Owed(r) < 0 <==> TotalPaid(r.payments) > TotalCost(r.procedures)
    ensures r.procedures == []
      && (forall i :: 0 <= i < |r.payments| ==> r.payments[i].amount >= 0)
      && (exists i :: 0 <= i < |r.payments| && r.payments[i].paid && r.payments[i].amount > 0)
      ==> Owed(r) < 0
  {
    if r.procedures == [] && forall i :: 0 <= i < |r.payments| ==> r.payments[i].amount >= 0 {
      TotalPaidPositive(r.payments);
    }
  }

  // ---------------------------------------------------------------------
  // The class

  class Patient {
    var patientNo: Int32
    var patientName: string
    var patientAddress: string
    var patientPhone: string
    var patientProcedureList: seq<Procedure>
    var patientPaymentList: seq<Payment>

    function Record(): PatientRecord
      reads this, patientProcedureList, patientPaymentList
    {
      PatientRecord(patientNo, patientName, patientAddress, patientPhone,
                    ProcedureRecords(patientProcedureList), PaymentRecords(patientPaymentList))
    }

    /** The id, name, address and phone. */
    function Details(): (Int32, string, string, string)
      reads this
    {
      (patientNo, patientName, patientAddress, patientPhone)
    }

    /** The auto-id constructor: the id is the counter's current value, the
        counter moves on by one, and both lists start empty. */
    constructor (ids: IdCounter, name: string, address: string, phone: string)
      modifies ids
      ensures Details() == (old(ids.next), name, address, phone)
      ensures patientProcedureList == [] && patientPaymentList == []
      ensures ids.next == Inc32(old(ids.next))
    {
      patientName := name;
      patientAddress := address;
      patientPhone := phone;
      patientNo := ids.next;
      patientPaymentList := [];
      patientProcedureList := [];
      new;
      ids.next := Inc32(ids.next);
    }

    /** The constructor with an explicit id; the counter is not used. */
    constructor WithId(id: Int32, name: string, address: string, phone: string)
      ensures Details() == (id, name, address, phone)
      ensures patientProcedureList == [] && patientPaymentList == []
    {
      patientName := name;
      patientAddress := address;
      patientPhone := phone;
      patientNo := id;
      patientPaymentList := [];
      patientProcedureList := [];
    }

    method SetPatientName(name: string)
      modifies this
      ensures Details() == old(Details()).(1 := name)
      ensures patientProcedureList == old(patientProcedureList)
      ensures patientPaymentList == old(patientPaymentList)
    {
      patientName := name;
    }

    method SetPatientAddress(address: string)
      modifies this
      ensures Details() == old(Details()).(2 := address)
      ensures patientProcedureList == old(patientProcedureList)
      ensures patientPaymentList == old(patientPaymentList)
    {
      patientAddress := address;
    }

    method SetPatientPhone(phone: string)
      modifies this
      ensures Details() == old(Details()).(3 := phone)
      ensures patientProcedureList == old(patientProcedureList)
      ensures patientPaymentList == old(patientPaymentList)
    {
      patientPhone := phone;
    }

    /** addProcedure: appends at the end; nothing else changes. */
    method AddProcedure(procedure: Procedure)
      modifies this
      ensures patientProcedureList == old(patientProcedureList) + [procedure]
      ensures Details() == old(Details()) && patientPaymentList == old(patientPaymentList)
    {
      patientProcedureList := patientProcedureList + [procedure];
    }

    /** removeProcedure: deletes the entry at `index`, later entries moving
        down, or throws when there is no such entry. */
    method RemoveProcedure(index: int) returns (s: Status)
      modifies this
      ensures s == if 0 <= index < |old(patientProcedureList)| then Completed else Threw(IndexOutOfBounds)
      ensures patientProcedureList ==
        if s.Completed? then RemovedAt(old(patientProcedureList), index) else old(patientProcedureList)
      ensures Details() == old(Details()) && patientPaymentList == old(patientPaymentList)
    {
      if 0 <= index < |patientProcedureList| {
        patientProcedureList := RemovedAt(patientProcedureList, index);
        s := Completed;
      } else {
        s := Threw(IndexOutOfBounds);
      }
    }

    /** setProcedure: throws when index >= size (and, through ArrayList.set,
        when it is negative); otherwise replaces only that entry. */
    method SetProcedure(index: int, procedure: Procedure) returns (s: Status)
      modifies this
      ensures s == if 0 <= index < |old(patientProcedureList)| then Completed else Threw(IndexOutOfBounds)
      ensures patientProcedureList ==
        if s.Completed? then old(patientProcedureList)[index := procedure] else old(patientProcedureList)
      ensures Details() == old(Details()) && patientPaymentList == old(patientPaymentList)
    {
      if index >= |patientProcedureList| {
        return Threw(IndexOutOfBounds);
      }
      if index < 0 {
        return Threw(IndexOutOfBounds);
      }
      patientProcedureList := patientProcedureList[index := procedure];
      s := Completed;
    }

    /** addPayment: appends at the end; nothing else changes. */
    method AddPayment(payment: Payment)
      modifies this
      ensures patientPaymentList == old(patientPaymentList) + [payment]
      ensures Details() == old(Details()) && patientProcedureList == old(patientProcedureList)
    {
      patientPaymentList := patientPaymentList + [payment];
    }

    /** removePayment: deletes the entry at `index`, later entries moving
        down, or throws when there is no such entry. */
    method RemovePayment(index: int) returns (s: Status)
      modifies this
      ensures s == if 0 <= index < |old(patientPaymentList)| then Completed else Threw(IndexOutOfBounds)
      ensures patientPaymentList ==
        if s.Completed? then RemovedAt(old(patientPaymentList), index) else old(patientPaymentList)
      ensures Details() == old(Details()) && patientProcedureList == old(patientProcedureList)
    {
      if 0 <= index < |patientPaymentList| {
        patientPaymentList := RemovedAt(patientPaymentList, index);
        s := Completed;
      } else {
        s := Threw(IndexOutOfBounds);
      }
    }

    /** setPayment: throws when index >= size (and, through ArrayList.set,
        when it is negative); otherwise replaces only that entry. */
    method SetPayment(index: int, payment: Payment) returns (s: Status)
      modifies this
      ensures s == if 0 <= index < |old(patientPaymentList)| then Completed else Threw(IndexOutOfBounds)
      ensures patientPaymentList ==
        if s.Completed? then old(patientPaymentList)[index := payment] else old(patientPaymentList)
      ensures Details() == old(Details()) && patientProcedureList == old(patientProcedureList)
    {
      if index >= |patientPaymentList| {
        return Threw(IndexOutOfBounds);
      }
      if index < 0 {
        return Threw(IndexOutOfBounds);
      }
      patientPaymentList := patientPaymentList[index := payment];
      s := Completed;
    }

    /** getAmountOwed: the two accumulating loops compute the balance. */
    method GetAmountOwed() returns (owed: int)
      ensures owed == Owed(Record())
    {
      owed := 0;
      var payed := 0;
      ghost var procs := ProcedureRecords(patientProcedureList);
      ghost var pays := PaymentRecords(patientPaymentList);
      var i := 0;
      while i < |patientProcedureList|
        invariant 0 <= i <= |patientProcedureList|
        invariant owed == TotalCost(procs[..i])
      {
        assert procs[..i + 1][..i] == procs[..i];
        owed := owed + patientProcedureList[i].procedureCost;
        i := i + 1;
      }
      assert procs[..i] == procs;
      var j := 0;
      while j < |patientPaymentList|
        invariant 0 <= j <= |patientPaymentList|
        invariant payed == TotalPaid(pays[..j])
      {
        assert pays[..j + 1][..j] == pays[..j];
        if patientPaymentList[j].paymentStatus {
          payed := payed + patientPaymentList[j].paymentAmount;
        }
        j := j + 1;
      }
      assert pays[..j] == pays;
      owed := owed - payed;
    }

    /** compareTo: the String.compareTo order of the names. */
    function CompareTo(patient: Patient): int
      reads this, patient
    {
      CompareStrings(patientName, patient.patientName)
    }

    /** equals: true exactly for a Patient with the same id. */
    predicate Equals(obj: object?)
      reads this, obj
    {
      obj is Patient && (obj as Patient).patientNo == patientNo
    }

    /** toString: id, name, address and phone separated by tabs; when no
        field holds a tab the four can be read back. */
    function ToString(): (s: string)
      reads this
      ensures NoneHolds([patientName, patientAddress, patientPhone], '\t') ==>
        SplitOn(s, '\t') == [IntText(patientNo), patientName, patientAddress, patientPhone]
    {
      var fields := [IntText(patientNo), patientName, patientAddress, patientPhone];
      if NoneHolds(fields, '\t') then
        SplitJoin(fields, '\t');
        JoinOn(fields, '\t')
      else JoinOn(fields, '\t')
    }
  }

  /** Patient.compareTo is a total order on names: zero exactly for equal
      names, reversed by swapping the patients, and transitive. */
  lemma {:induction false} CompareToOrdersNames(a: Patient, b: Patient, c: Patient)
    ensures a.CompareTo(b) == 0 <==> a.patientName == b.patientName
    ensures b.CompareTo(a) == -a.CompareTo(b)
    ensures a.CompareTo(b) <= 0 && b.CompareTo(c) <= 0 ==> a.CompareTo(c) <= 0
  {
    CompareStringsZero(a.patientName, b.patientName);
    CompareStringsAntisymmetric(a.patientName, b.patientName);
    if a.CompareTo(b) <= 0 && b.CompareTo(c) <= 0 {
      CompareStringsTransitive(a.patientName, b.patientName, c.patientName);
    }
  }

  /** Patient.equals is an equivalence on patients that looks at the id alone:
      two patients with different ids are never equal, even with the same
      name, address and phone, while compareTo calls any two patients with
      the same name level. */
  lemma {:induction false} EqualsById(a: Patient, b: Patient, c: Patient)
    ensures a.Equals(a)
    ensures a.Equals(b) <==> b.Equals(a)
    ensures a.Equals(b) && b.Equals(c) ==> a.Equals(c)
    ensures a.Equals(b) <==> a.patientNo == b.patientNo
    ensures !a.Equals(null)
  {
  }

  /** Patient.CompareByAmountOwed.compare: -1, 0 or 1 as the first patient
      owes less than, the same as or more than the second
      (Double.compareTo of the two balances). */
  method CompareByAmountOwed(first: Patient, second: Patient) returns (r: int)
    ensures r < 0 <==> Owed(first.Record()) < Owed(second.Record())
    ensures r == 0 <==> Owed(first.Record()) == Owed(second.Record())
    ensures -1 <= r <= 1
  {
    var d1 := first.GetAmountOwed();
    var d2 := second.GetAmountOwed();
    r := if d1 < d2 then -1 else if d1 == d2 then 0 else 1;
  }
}
