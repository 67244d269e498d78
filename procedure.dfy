/** model.Procedure: a treatment with an id, a name and a cost. The cost is
    held as a whole number of cents, rounded HALF_UP when it is set. */
module Procedures {
  import opened Ids
  import opened JavaText
  import opened Money
  import opened Outcomes

  /** The value of a procedure at one moment. */
  datatype ProcedureRecord = ProcedureRecord(no: Int32, name: string, cost: int)

  class Procedure {
    var procedureNo: Int32
    var procedureName: string
    var procedureCost: int  // cents

    function Record(): ProcedureRecord
      reads this
    {
      ProcedureRecord(procedureNo, procedureName, procedureCost)
    }

    /** The constructor that takes an explicit id; the counter is not used. */
    constructor WithId(id: Int32, name: string, price: real)
      ensures Record() == ProcedureRecord(id, name, RoundHalfUp(price))
    {
      procedureNo := id;
      procedureName := name;
      procedureCost := RoundHalfUp(price);
    }

    /** The auto-id constructor: the id is the counter's current value, and the
        counter then moves on by one. */
    constructor (ids: IdCounter, name: string, price: real)
      modifies ids
      ensures Record() == ProcedureRecord(old(ids.next), name, RoundHalfUp(price))
      ensures ids.next == Inc32(old(ids.next))
    {
      procedureName := name;
      procedureCost := RoundHalfUp(price);
      procedureNo := ids.next;
      new;
      ids.next := Inc32(ids.next);
    }

    method SetProcedureNo(id: Int32)
      modifies this
      ensures Record() == old(Record()).(no := id)
    {
      procedureNo := id;
    }

    method SetProcedureName(name: string)
      modifies this
      ensures Record() == old(Record()).(name := name)
    {
      procedureName := name;
    }

    /** setProcedureCost: stores the cost rounded to whole cents, HALF_UP. */
    method SetProcedureCost(price: real)
      modifies this
      ensures Record() == old(Record()).(cost := RoundHalfUp(price))
    {
      procedureCost := RoundHalfUp(price);
    }

    /** equals: two procedures are equal exactly when their names are. */
    predicate Equals(other: Procedure)
      reads this, other
    {
      procedureName == other.procedureName
    }

    /** toString: id, name and cost separated by tabs; a name without a tab
        can be read back as the middle field. */
    function ToString(): (s: string)
      reads this
      ensures '\t' !in procedureName ==>
        SplitOn(s, '\t') == [IntText(procedureNo), procedureName, DoubleText(procedureCost)]
    {
      var fields := [IntText(procedureNo), procedureName, DoubleText(procedureCost)];
      if '\t' in procedureName then JoinOn(fields, '\t')
      else
        DoubleTextOneField(procedureCost);
        SplitJoin(fields, '\t');
        JoinOn(fields, '\t')
    }

    /** getProcedureCostInEuro: the "€###,###.00" text of the cost: sign,
        euro sign, the whole euros' digits with a comma before every group of
        three, a point and two cent digits; the cost can be read back exactly. */
    function CostInEuro(): (s: string)
      reads this
      ensures EuroValue(s) == Some(procedureCost)
      ensures procedureCost >= 0 ==>
        (|s| >= 4 && s[0] == '€' && s[|s| - 3] == '.'
         && GroupedInThrees(s[1..|s| - 3]) && Ungrouped(s[1..|s| - 3]) == NatDigits(procedureCost / 100))
      ensures procedureCost < 0 ==>
        (|s| >= 5 && s[..2] == "-€" && s[|s| - 3] == '.'
         && GroupedInThrees(s[2..|s| - 3]) && Ungrouped(s[2..|s| - 3]) == NatDigits(-procedureCost / 100))
    {
      EuroTextShape(procedureCost);
      EuroText(procedureCost)
    }
  }

  /** Procedure.equals is an equivalence that looks at the name alone: the id
      and the cost never matter. */
  lemma {:induction false} EqualsByNameOnly(a: Procedure, b: Procedure, c: Procedure)
    ensures a.Equals(a)
    ensures a.Equals(b) <==> b.Equals(a)
    ensures a.Equals(b) && b.Equals(c) ==> a.Equals(c)
    ensures a.procedureName == b.procedureName ==> a.Equals(b)
  {
  }

  /** After setUniqueID(n), the next procedure made by the auto-id
      constructor gets id n. */
  method SetUniqueIdThenCreate(ids: IdCounter, n: Int32, name: string, price: real)
    returns (p: Procedure)
    modifies ids
    ensures p.procedureNo == n && ids.next == Inc32(n)
  {
    ids.SetUniqueID(n);
    p := new Procedure(ids, name, price);
  }
}
