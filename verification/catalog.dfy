/**
 * The global lookups the dashboard computes once from the whole table: the module list,
 * the module -> item titles index and the total number of students.
 */
module Catalog {
  import opened Collections
  import opened Events

  /** The `module_name` column. */
  function ModuleNames(rows: seq<Event>): seq<string>
  {
    seq(|rows|, i requires 0 <= i < |rows| => rows[i].moduleName)
  }

  /** The `items_title` column. */
  function Titles(rows: seq<Event>): seq<string>
  {
    seq(|rows|, i requires 0 <= i < |rows| => rows[i].itemTitle)
  }

  /** The module names that occur in the table. */
  function ModuleNameSet(data: seq<Event>): set<string> {
    set e | e in data :: e.moduleName
  }

  /** The item titles that occur in rows of module `m`. */
  function TitleSet(data: seq<Event>, m: string): set<string> {
    set e | e in data && e.moduleName == m :: e.itemTitle
  }

  /** The global module list: each module name of the table once, in order of first appearance. */
  function Modules(data: seq<Event>): (r: seq<string>)
    ensures NoDup(r)
    ensures forall m :: m in r <==> m in ModuleNameSet(data)
    ensures forall m :: m in r <==> m in ModuleNames(data)
    ensures forall i, j :: 0 <= i < j < |r| ==>
              FirstIndex(ModuleNames(data), r[i]) < FirstIndex(ModuleNames(data), r[j])
  {
    var names := ModuleNames(data);
    forall m | m in ModuleNameSet(data)
      ensures m in names
    {
      var e :| e in data && e.moduleName == m;
      var i :| 0 <= i < |data| && data[i] == e;
      assert names[i] == m;
    }
    Unique(names)
  }

  /** A module of the list has at least one row, hence at least one student. */
  lemma ModuleHasStudents(data: seq<Event>, m: string)
    requires m in Modules(data)
    ensures ModuleStudents(data, m) != {}
    ensures |StudentSet(data)| > 0
  {
    var e :| e in data && e.moduleName == m;
    assert e.studentId in ModuleStudents(data, m);
    assert e.studentId in StudentSet(data);
  }

  /** The item list of module `m`: each title seen in the module's rows once, in order of first appearance. */
  function ItemsOf(data: seq<Event>, m: string): (r: seq<string>)
    ensures NoDup(r)
    ensures forall t :: t in r <==> t in TitleSet(data, m)
    ensures forall t :: t in r <==> t in Titles(RowsOfModule(data, m))
    ensures forall i, j :: 0 <= i < j < |r| ==>
              FirstIndex(Titles(RowsOfModule(data, m)), r[i]) < FirstIndex(Titles(RowsOfModule(data, m)), r[j])
  {
    ModuleTitles(data, m);
    Unique(Titles(RowsOfModule(data, m)))
  }

  /** The title column of a module's rows holds exactly the titles seen under that module. */
  lemma ModuleTitles(data: seq<Event>, m: string)
    ensures forall t :: t in Titles(RowsOfModule(data, m)) <==> t in TitleSet(data, m)
  {
    var rows := RowsOfModule(data, m);
    var titles := Titles(rows);
    forall t | t in TitleSet(data, m)
      ensures t in titles
    {
      var e :| e in data && e.moduleName == m && e.itemTitle == t;
      var i :| 0 <= i < |rows| && rows[i] == e;
      assert titles[i] == t;
    }
  }

  /**
   * The `item_dict` built at load time: one entry per module of the table, listing each
   * title seen under it exactly once, in order of first appearance.
   */
  function ItemIndex(data: seq<Event>): (r: map<string, seq<string>>)
    ensures r.Keys == ModuleNameSet(data)
    ensures forall m :: m in r ==> r[m] == ItemsOf(data, m)
  {
    map m | m in Modules(data) :: ItemsOf(data, m)
  }

  /** The global student count: the number of distinct student ids of the whole table. */
  function TotalStudents(data: seq<Event>): (n: nat)
    ensures n == |StudentSet(data)|
    ensures data != [] ==> n > 0
  {
    DistinctStudentIds(data);
    assert data != [] ==> data[0].studentId in StudentSet(data);
    CountDistinct(StudentIds(data))
  }
}
