/** model.ProcedureList: the single list of every procedure the practice
    offers. The class's static field holds the one instance; it is never
    replaced, only cleared and refilled. */
module ProcedureCatalog {
  import opened JavaText
  import opened Lists
  import opened Money
  import opened Procedures

  /** The procedures' toString texts in list order. */
  function Texts(ps: seq<Procedure>): (r: seq<string>)
    reads ps
    ensures |r| == |ps| && forall i :: 0 <= i < |ps| ==> r[i] == ps[i].ToString()
  {
    seq(|ps|, i requires 0 <= i < |ps| reads ps => ps[i].ToString())
  }

  /** ProcedureList.toString: every text followed by a line break. */
  function Lines(texts: seq<string>): string {
    if texts == [] then "" else texts[0] + "\n" + Lines(texts[1..])
  }

  lemma {:induction false} LinesAppend(texts: seq<string>, t: string)
    ensures Lines(texts + [t]) == Lines(texts) + t + "\n"
  {
    if texts == [] {
      assert [t][1..] == [];
    } else {
      assert (texts + [t])[1..] == texts[1..] + [t];
      LinesAppend(texts[1..], t);
    }
  }

  /** The text cut at its line breaks gives back each line in order, then the
      empty remainder after the last break, provided no line holds a break. */
  lemma {:induction false} LinesSplit(texts: seq<string>)
    requires NoneHolds(texts, '\n')
    ensures SplitOn(Lines(texts), '\n') == texts + [""]
  {
    if texts != [] {
      LinesSplit(texts[1..]);
      SplitOnAfterField(texts[0], '\n', Lines(texts[1..]));
      assert texts == [texts[0]] + texts[1..];
    }
  }

  /** A procedure whose name holds no line break has a one-line text. */
  lemma {:induction false} ProcedureTextOneLine(p: Procedure)
    requires '\n' !in p.procedureName
    ensures '\n' !in p.ToString()
  {
    var fields := [IntText(p.procedureNo), p.procedureName, DoubleText(p.procedureCost)];
    DoubleTextOneField(p.procedureCost);
    JoinOnAvoids(fields, '\t', '\n');
  }

  /** The catalog text read back line by line yields each procedure's
      toString in list order. */
  lemma {:induction false} CatalogTextLines(ps: seq<Procedure>)
    requires forall i :: 0 <= i < |ps| ==> '\n' !in ps[i].procedureName
    ensures SplitOn(Lines(Texts(ps)), '\n') == Texts(ps) + [""]
  {
    forall i | 0 <= i < |ps|
      ensures '\n' !in Texts(ps)[i]
    {
      ProcedureTextOneLine(ps[i]);
    }
    LinesSplit(Texts(ps));
  }

  /** The static side of ProcedureList: the one instance. */
  class ProcedureList {
    const list: ArrayList<Procedure>

    /** The class initialiser: the instance starts empty. */
    constructor ()
      ensures fresh(list) && list.elems == []
    {
      list := new ArrayList();
    }

    /** getInstance: every call yields the same list object. */
    function GetInstance(): (r: ArrayList<Procedure>)
      ensures r == list
    {
      list
    }

    /** setProcedureList: the instance is emptied and then refilled, one
        element at a time, from the given list; the instance object itself
        stays in place. When the given list is the instance, the clearing
        empties it before anything is copied. */
    method SetProcedureList(procedureList: ArrayList<Procedure>)
      modifies list
      ensures list.elems == if procedureList == list then [] else old(procedureList.elems)
      ensures procedureList != list ==> procedureList.elems == old(procedureList.elems)
    {
      list.Clear();
      var i := 0;
      while i < |procedureList.elems|
        invariant 0 <= i <= |procedureList.elems|
        invariant procedureList == list ==> list.elems == []
        invariant procedureList != list ==>
          procedureList.elems == old(procedureList.elems) && list.elems == procedureList.elems[..i]
      {
        list.Add(procedureList.elems[i]);
        i := i + 1;
      }
      if procedureList != list {
        assert procedureList.elems[..i] == procedureList.elems;
      }
    }

    /** toString: the lines of the catalog, built by appending each
        procedure's text and a line break in turn. */
    method ToString() returns (details: string)
      ensures details == Lines(Texts(list.elems))
    {
      details := "";
      ghost var texts := Texts(list.elems);
      ghost var done: seq<string> := [];
      var i := 0;
      while i < |list.elems|
        invariant 0 <= i <= |list.elems| && |done| == i
        invariant done == texts[..i]
        invariant details == Lines(done)
      {
        LinesAppend(done, texts[i]);
        PrefixGrows(texts, done, texts[i]);
        done := done + [texts[i]];
        details := details + list.elems[i].ToString() + "\n";
        i := i + 1;
      }
      PrefixWhole(texts, done);
    }
  }

  /** The instance receives copies of the references, not the given list
      object: adding to the given list afterwards leaves the catalog as it
      was. */
  method CopiedNotShared(catalog: ProcedureList, source: ArrayList<Procedure>, extra: Procedure)
    requires source != catalog.list
    modifies catalog.list, source
    ensures catalog.list.elems == old(source.elems)
    ensures source.elems == old(source.elems) + [extra]
  {
    catalog.SetProcedureList(source);
    source.Add(extra);
  }
}
