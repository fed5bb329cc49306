/**
 * Item completion behind the per-module bar charts: for every module of the table and every
 * item title of that module (in index order), its 1-based position and the share of ALL
 * students of the table whose rows in `df` satisfy the item's completion requirement.
 */
module Items {
  import opened Collections
  import opened Events
  import opened Percentages
  import opened Catalog

  /** One row of `student_completion_per_item`. */
  datatype ItemRow = ItemRow(moduleName: string, item: string, percentage: real, position: nat)

  /** Distinct students with a row of item `t` in module `m` whose requirement is satisfied. */
  function SatisfiedStudents(df: seq<Event>, m: string, t: string): set<string> {
    set e | e in df && e.moduleName == m && e.itemTitle == t && e.requirementSatisfied :: e.studentId
  }

  /** The rows of item `t` in module `m` whose completion requirement is satisfied. */
  function SatisfiedRows(df: seq<Event>, m: string, t: string): (r: seq<Event>)
    ensures forall e :: e in r <==> e in df && e.moduleName == m && e.itemTitle == t && e.requirementSatisfied
    ensures forall e :: multiset(r)[e] ==
              if e.moduleName == m && e.itemTitle == t && e.requirementSatisfied then multiset(df)[e] else 0
  {
    Filter(Filter(RowsOfModule(df, m), (e: Event) => e.itemTitle == t), (e: Event) => e.requirementSatisfied)
  }

  /** Reference definition: satisfied students of the item in `df`, x 100, over all students of `data`. */
  function ItemRate(data: seq<Event>, df: seq<Event>, m: string, t: string): real {
    Share(100 * |SatisfiedStudents(df, m, t)|, |StudentSet(data)|)
  }

  /** An item's percentage: its satisfied distinct students, x 100, over the global student count. */
  function ItemPercentage(data: seq<Event>, df: seq<Event>, m: string, t: string): (r: real)
    requires data != []
    ensures r == ItemRate(data, df, m, t)
  {
    var rows := SatisfiedRows(df, m, t);
    DistinctStudentIds(rows);
    assert StudentSet(rows) == SatisfiedStudents(df, m, t);
    var satisfied := CountDistinct(StudentIds(rows));
    var total := TotalStudents(data);
    assert 100 * |SatisfiedStudents(df, m, t)| == satisfied * 100;
    assert total == |StudentSet(data)| && total != 0;
    (satisfied * 100) as real / total as real
  }

  /** What every item row states: position `p` of its module's index holds its title, and its rate. */
  predicate ItemRowOf(data: seq<Event>, df: seq<Event>, row: ItemRow) {
    && row.moduleName in ItemIndex(data)
    && 1 <= row.position <= |ItemIndex(data)[row.moduleName]|
    && ItemIndex(data)[row.moduleName][row.position - 1] == row.item
    && row.percentage == ItemRate(data, df, row.moduleName, row.item)
  }

  /** The rows of one module: each title of its item list, numbered from 1, with its rate. */
  function ItemBlock(data: seq<Event>, df: seq<Event>, m: string): (r: seq<ItemRow>)
    requires m in ItemIndex(data)
    ensures |r| == |ItemIndex(data)[m]|
    ensures forall i :: 0 <= i < |r| ==>
              r[i].moduleName == m && r[i].position == i + 1 && r[i].item == ItemIndex(data)[m][i]
    ensures forall row :: row in r ==> ItemRowOf(data, df, row)
  {
    assert data != [];
    RatedItems(data, df, m, ItemIndex(data)[m])
  }

  /** Each title of `items`, numbered from 1, with its rate in module `m`. */
  function RatedItems(data: seq<Event>, df: seq<Event>, m: string, items: seq<string>): (r: seq<ItemRow>)
    requires data != []
    ensures |r| == |items|
    ensures forall i :: 0 <= i < |items| ==> r[i] == ItemRow(m, items[i], ItemRate(data, df, m, items[i]), i + 1)
  {
    seq(|items|, i requires 0 <= i < |items| => ItemRow(m, items[i], ItemPercentage(data, df, m, items[i]), i + 1))
  }

  /** The (module, position) key of each row. */
  function ItemKeys(rows: seq<ItemRow>): seq<(string, nat)>
  {
    seq(|rows|, i requires 0 <= i < |rows| => (rows[i].moduleName, rows[i].position))
  }

  /** Row `a` precedes row `b` in a table over `modules`: an earlier module, or the same module at an earlier position. */
  predicate RowBefore(modules: seq<string>, a: ItemRow, b: ItemRow) {
    && a.moduleName in modules && b.moduleName in modules
    && (|| FirstIndex(modules, a.moduleName) < FirstIndex(modules, b.moduleName)
        || (a.moduleName == b.moduleName && a.position < b.position))
  }

  /** The rows come module by module, in list order, each module's rows by ascending position. */
  predicate InTableOrder(modules: seq<string>, rows: seq<ItemRow>) {
    forall i, j :: 0 <= i < j < |rows| ==> RowBefore(modules, rows[i], rows[j])
  }

  /** The outer loop over `modules`, concatenating each module's rows. */
  function ItemTable(data: seq<Event>, df: seq<Event>, modules: seq<string>): (r: seq<ItemRow>)
    requires forall m :: m in modules ==> m in ItemIndex(data)
    ensures forall row :: row in r ==> row.moduleName in modules && ItemRowOf(data, df, row)
    ensures forall m, p :: m in modules && 1 <= p <= |ItemIndex(data)[m]| ==> (m, p) in ItemKeys(r)
    ensures NoDup(modules) ==> NoDup(ItemKeys(r))
    ensures NoDup(modules) ==> InTableOrder(modules, r)
  {
    if |modules| == 0 then []
    else
      var head := ItemBlock(data, df, modules[0]);
      var rest := ItemTable(data, df, modules[1..]);
      ItemTableStep(data, df, modules, head, rest);
      ItemOrderStep(modules, head, rest);
      head + rest
  }

  /** Putting the first module's rows, by position, before the others' keeps the table order. */
  lemma ItemOrderStep(modules: seq<string>, head: seq<ItemRow>, rest: seq<ItemRow>)
    requires |modules| > 0
    requires forall i :: 0 <= i < |head| ==> head[i].moduleName == modules[0] && head[i].position == i + 1
    requires forall row :: row in rest ==> row.moduleName in modules[1..]
    requires NoDup(modules[1..]) ==> InTableOrder(modules[1..], rest)
    ensures NoDup(modules) ==> InTableOrder(modules, head + rest)
  {
    var all := head + rest;
    if NoDup(modules) {
      assert NoDup(modules[1..]);
      forall x | x in modules[1..]
        ensures x != modules[0] && FirstIndex(modules, x) == 1 + FirstIndex(modules[1..], x)
      {
        var k :| 0 <= k < |modules[1..]| && modules[1..][k] == x;
        assert modules[k + 1] == x;
      }
      forall i, j | 0 <= i < j < |all|
        ensures RowBefore(modules, all[i], all[j])
      {
        if j < |head| {
        } else if i < |head| {
          assert all[j] in rest;
        } else {
          assert all[i] == rest[i - |head|] && all[j] == rest[j - |head|];
          assert RowBefore(modules[1..], all[i], all[j]);
        }
      }
    }
  }

  /** The inductive step of `ItemTable`: prepending the first module's rows keeps its contract. */
  lemma ItemTableStep(data: seq<Event>, df: seq<Event>, modules: seq<string>, head: seq<ItemRow>, rest: seq<ItemRow>)
    requires |modules| > 0
    requires forall m :: m in modules ==> m in ItemIndex(data)
    requires |head| == |ItemIndex(data)[modules[0]]|
    requires forall i :: 0 <= i < |head| ==> head[i].moduleName == modules[0] && head[i].position == i + 1
    requires forall row :: row in head ==> ItemRowOf(data, df, row)
    requires forall row :: row in rest ==> row.moduleName in modules[1..] && ItemRowOf(data, df, row)
    requires forall m, p :: m in modules[1..] && 1 <= p <= |ItemIndex(data)[m]| ==> (m, p) in ItemKeys(rest)
    requires NoDup(modules[1..]) ==> NoDup(ItemKeys(rest))
    ensures forall row :: row in head + rest ==> row.moduleName in modules && ItemRowOf(data, df, row)
    ensures forall m, p :: m in modules && 1 <= p <= |ItemIndex(data)[m]| ==> (m, p) in ItemKeys(head + rest)
    ensures NoDup(modules) ==> NoDup(ItemKeys(head + rest))
  {
    ItemRowsConcat(data, df, modules, head, rest);
    ItemKeysCovered(ItemIndex(data), modules, head, rest);
    ItemKeysDistinct(modules, head, rest);
  }

  /** Every row of the concatenation is an indexed row of one of the listed modules. */
  lemma ItemRowsConcat(data: seq<Event>, df: seq<Event>, modules: seq<string>, head: seq<ItemRow>, rest: seq<ItemRow>)
    requires |modules| > 0
    requires forall i :: 0 <= i < |head| ==> head[i].moduleName == modules[0]
    requires forall row :: row in head ==> ItemRowOf(data, df, row)
    requires forall row :: row in rest ==> row.moduleName in modules[1..] && ItemRowOf(data, df, row)
    ensures forall row :: row in head + rest ==> row.moduleName in modules && ItemRowOf(data, df, row)
  {
    forall row | row in head + rest
      ensures row.moduleName in modules && ItemRowOf(data, df, row)
    {
      if row in head {
        var i :| 0 <= i < |head| && head[i] == row;
      } else {
        assert row in rest;
      }
    }
  }

  /** Every (module, position) of an index keys some row of the concatenation. */
  lemma ItemKeysCovered(index: map<string, seq<string>>, modules: seq<string>, head: seq<ItemRow>, rest: seq<ItemRow>)
    requires |modules| > 0
    requires forall m :: m in modules ==> m in index
    requires |head| == |index[modules[0]]|
    requires forall i :: 0 <= i < |head| ==> head[i].moduleName == modules[0] && head[i].position == i + 1
    requires forall m, p :: m in modules[1..] && 1 <= p <= |index[m]| ==> (m, p) in ItemKeys(rest)
    ensures forall m, p :: m in modules && 1 <= p <= |index[m]| ==> (m, p) in ItemKeys(head + rest)
  {
    assert ItemKeys(head + rest) == ItemKeys(head) + ItemKeys(rest);
    forall m, p | m in modules && 1 <= p <= |index[m]|
      ensures (m, p) in ItemKeys(head + rest)
    {
      if m == modules[0] {
        assert ItemKeys(head)[p - 1] == (m, p);
      } else {
        assert m in modules[1..];
      }
    }
  }

  /** Keys stay distinct when the first module's rows are put before the others'. */
  lemma ItemKeysDistinct(modules: seq<string>, head: seq<ItemRow>, rest: seq<ItemRow>)
    requires |modules| > 0
    requires forall i :: 0 <= i < |head| ==> head[i].moduleName == modules[0] && head[i].position == i + 1
    requires forall row :: row in rest ==> row.moduleName in modules[1..]
    requires NoDup(modules[1..]) ==> NoDup(ItemKeys(rest))
    ensures NoDup(modules) ==> NoDup(ItemKeys(head + rest))
  {
    var all := head + rest;
    if NoDup(modules) {
      assert NoDup(modules[1..]);
      forall i, j | 0 <= i < j < |all|
        ensures ItemKeys(all)[i] != ItemKeys(all)[j]
      {
        if j < |head| {
        } else if i < |head| {
          assert all[j] in rest;
          assert all[j].moduleName != modules[0];
        } else {
          assert ItemKeys(all)[i] == ItemKeys(rest)[i - |head|];
          assert ItemKeys(all)[j] == ItemKeys(rest)[j - |head|];
        }
      }
    }
  }

  /**
   * `item_completion_barplot(df)` up to the figure: for every module of the whole table
   * (`data`) and every title of its index entry, one row with the title's 1-based position
   * and its rate; exactly one row per (module, position).
   */
  function ItemCompletion(data: seq<Event>, df: seq<Event>): (r: seq<ItemRow>)
    ensures forall row :: row in r ==> ItemRowOf(data, df, row)
    ensures forall m, p :: m in ItemIndex(data) && 1 <= p <= |ItemIndex(data)[m]| ==> (m, p) in ItemKeys(r)
    ensures NoDup(ItemKeys(r))
    ensures InTableOrder(Modules(data), r)
  {
    IndexCoversModules(data);
    ItemTable(data, df, Modules(data))
  }

  /** The module list and the index keys are the same modules. */
  lemma IndexCoversModules(data: seq<Event>)
    ensures forall m :: m in Modules(data) <==> m in ItemIndex(data)
  {
  }

  /** Two item tables over the same module list differ at most in their percentages. */
  predicate SameShape(a: seq<ItemRow>, b: seq<ItemRow>) {
    && |a| == |b|
    && forall i :: 0 <= i < |a| ==>
         a[i].moduleName == b[i].moduleName && a[i].item == b[i].item && a[i].position == b[i].position
  }

  /** Which rows exist depends only on `data`: `df` only changes percentages. */
  lemma {:induction false} ItemTableShape(data: seq<Event>, df1: seq<Event>, df2: seq<Event>, modules: seq<string>)
    requires forall m :: m in modules ==> m in ItemIndex(data)
    ensures SameShape(ItemTable(data, df1, modules), ItemTable(data, df2, modules))
  {
    if |modules| > 0 {
      ItemTableShape(data, df1, df2, modules[1..]);
      var h1 := ItemBlock(data, df1, modules[0]);
      var h2 := ItemBlock(data, df2, modules[0]);
      assert SameShape(h1, h2);
      ConcatShape(h1, h2, ItemTable(data, df1, modules[1..]), ItemTable(data, df2, modules[1..]));
    }
  }

  /** Concatenating tables of the same shape gives tables of the same shape. */
  lemma ConcatShape(h1: seq<ItemRow>, h2: seq<ItemRow>, r1: seq<ItemRow>, r2: seq<ItemRow>)
    requires SameShape(h1, h2) && SameShape(r1, r2)
    ensures SameShape(h1 + r1, h2 + r2)
  {
    forall i | |h1| <= i < |h1| + |r1|
      ensures (h1 + r1)[i] == r1[i - |h1|] && (h2 + r2)[i] == r2[i - |h1|]
    {
    }
  }

  /** The rows, titles and positions of the item table do not depend on `df`. */
  lemma ItemShapeIgnoresSelection(data: seq<Event>, df1: seq<Event>, df2: seq<Event>)
    ensures SameShape(ItemCompletion(data, df1), ItemCompletion(data, df2))
  {
    IndexCoversModules(data);
    ItemTableShape(data, df1, df2, Modules(data));
  }

  /** Keeping only module `m`'s rows of `df` leaves the satisfied students of `m`'s items unchanged. */
  lemma SatisfiedWithinModule(df: seq<Event>, m: string, t: string)
    ensures SatisfiedStudents(RowsOfModule(df, m), m, t) == SatisfiedStudents(df, m, t)
  {
  }

  /**
   * The denominator is global: selecting only module `m`'s rows as `df` gives every item
   * row of `m` the same percentage as the unfiltered table, and every other module's rows 0.
   */
  lemma ItemRatesOfSelectedModule(data: seq<Event>, df: seq<Event>, m: string)
    ensures SameShape(ItemCompletion(data, RowsOfModule(df, m)), ItemCompletion(data, df))
    ensures forall i :: 0 <= i < |ItemCompletion(data, df)| ==>
              ItemCompletion(data, df)[i].moduleName == m ==>
                ItemCompletion(data, RowsOfModule(df, m))[i] == ItemCompletion(data, df)[i]
    ensures forall i :: 0 <= i < |ItemCompletion(data, df)| ==>
              ItemCompletion(data, df)[i].moduleName != m ==>
                ItemCompletion(data, RowsOfModule(df, m))[i].percentage == 0.0
  {
    var a := ItemCompletion(data, RowsOfModule(df, m));
    var b := ItemCompletion(data, df);
    ItemShapeIgnoresSelection(data, RowsOfModule(df, m), df);
    forall i | 0 <= i < |b|
      ensures b[i].moduleName == m ==> a[i] == b[i]
      ensures b[i].moduleName != m ==> a[i].percentage == 0.0
    {
      assert a[i] in a && b[i] in b;
      SelectedRow(data, df, m, a[i], b[i]);
    }
  }

  /** One row of the table over module `m`'s rows against the same row of the unfiltered table. */
  lemma SelectedRow(data: seq<Event>, df: seq<Event>, m: string, ra: ItemRow, rb: ItemRow)
    requires ra.percentage == ItemRate(data, RowsOfModule(df, m), ra.moduleName, ra.item)
    requires rb.percentage == ItemRate(data, df, rb.moduleName, rb.item)
    requires ra.moduleName == rb.moduleName && ra.item == rb.item && ra.position == rb.position
    ensures rb.moduleName == m ==> ra == rb
    ensures rb.moduleName != m ==> ra.percentage == 0.0
  {
    if rb.moduleName == m {
      SatisfiedWithinModule(df, m, rb.item);
    } else {
      assert SatisfiedStudents(RowsOfModule(df, m), ra.moduleName, ra.item) == {};
      if |StudentSet(data)| > 0 {
        RatioOfNone(|StudentSet(data)|);
      }
    }
  }

  /** When `df` is a selection of the table's rows, every item percentage lies in [0, 100]. */
  lemma ItemRatesBounded(data: seq<Event>, df: seq<Event>)
    requires forall e :: e in df ==> e in data
    ensures forall row :: row in ItemCompletion(data, df) ==> 0.0 <= row.percentage <= 100.0
  {
    forall row | row in ItemCompletion(data, df)
      ensures 0.0 <= row.percentage <= 100.0
    {
      var sat := SatisfiedStudents(df, row.moduleName, row.item);
      SubsetCardinality(sat, StudentSet(data));
      ShareOfPart(100 * |sat|, |StudentSet(data)|, 100);
    }
  }
}
