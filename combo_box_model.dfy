/** model.CustomComboBoxModel: the procedure drop-down, a view over the
    ProcedureList instance it is given. Until setData is called the list
    field is null and every other operation throws NullPointerException. */
module ComboBox {
  import opened Lists
  import opened Outcomes
  import opened ProcedureCatalog
  import opened Procedures

  class CustomComboBoxModel {
    var procedureList: ArrayList?<Procedure>

    constructor ()
      ensures procedureList == null
    {
      procedureList := null;
    }

    /** getElementAt: element `index` of the shared list. */
    function GetElementAt(index: int): (r: Result<Procedure>)
      reads this, procedureList
      ensures procedureList == null ==> r == Raised(NullPointer)
      ensures procedureList != null ==>
        (r.Returned? <==> 0 <= index < |procedureList.elems|)
      ensures procedureList != null && r.Returned? ==> r.value == procedureList.elems[index]
      ensures procedureList != null && r.Raised? ==> r.error == IndexOutOfBounds
    {
      if procedureList == null then Raised(NullPointer) else procedureList.Get(index)
    }

    /** getSize: the size of the shared list; exactly the indices below it
        are accepted by getElementAt. */
    function GetSize(): (r: Result<nat>)
      reads this, procedureList
      ensures r.Raised? <==> procedureList == null
      ensures r.Raised? ==> r.error == NullPointer
      ensures r.Returned? ==> forall i :: 0 <= i < r.value <==> GetElementAt(i).Returned?
    {
      if procedureList == null then Raised(NullPointer) else Returned(procedureList.Size())
    }

    /** addProcedure: appends to the shared list. */
    method AddProcedure(procedure: Procedure) returns (s: Status)
      modifies procedureList
      ensures procedureList == old(procedureList)
      ensures s == if procedureList == null then Threw(NullPointer) else Completed
      ensures procedureList != null ==> procedureList.elems == old(procedureList.elems) + [procedure]
    {
      if procedureList == null {
        return Threw(NullPointer);
      }
      procedureList.Add(procedure);
      s := Completed;
    }

    /** removeProcedure: deletes entry `index` of the shared list. */
    method RemoveProcedure(index: int) returns (s: Status)
      modifies procedureList
      ensures procedureList == old(procedureList)
      ensures procedureList == null ==> s == Threw(NullPointer)
      ensures procedureList != null ==>
        s == (if 0 <= index < |old(procedureList.elems)| then Completed else Threw(IndexOutOfBounds))
      ensures procedureList != null ==>
        procedureList.elems == if s.Completed? then RemovedAt(old(procedureList.elems), index) else old(procedureList.elems)
    {
      if procedureList == null {
        return Threw(NullPointer);
      }
      s := procedureList.RemoveAt(index);
    }

    /** clear: empties the shared list. */
    method Clear() returns (s: Status)
      modifies procedureList
      ensures procedureList == old(procedureList)
      ensures s == if procedureList == null then Threw(NullPointer) else Completed
      ensures procedureList != null ==> procedureList.elems == []
    {
      if procedureList == null {
        return Threw(NullPointer);
      }
      procedureList.Clear();
      s := Completed;
    }

    /** setData: keeps a reference to the given list, not a copy. */
    method SetData(procedureList: ArrayList<Procedure>)
      modifies this
      ensures this.procedureList == procedureList
    {
      this.procedureList := procedureList;
    }
  }

  /** The drop-down shows the catalog itself: after setData with the
      ProcedureList instance, refilling the catalog is what the drop-down
      lists. */
  method ShowsCatalogChanges(box: CustomComboBoxModel, catalog: ProcedureList, source: ArrayList<Procedure>)
    requires source != catalog.list
    modifies box, catalog.list
    ensures box.GetSize() == Returned(|old(source.elems)|)
    ensures forall i :: 0 <= i < |old(source.elems)| ==> box.GetElementAt(i) == Returned(old(source.elems)[i])
  {
    box.SetData(catalog.GetInstance());
    catalog.SetProcedureList(source);
  }
}
