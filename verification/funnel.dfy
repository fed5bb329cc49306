/**
 * The module funnel behind the first bar chart: for every module of the table, the
 * unlocked / started / completed shares (x 100), first as a wide table with one row per
 * module, then melted to one row per (module, status).
 */
module Funnel {
  import opened Wrappers
  import opened Collections
  import opened Events
  import opened Percentages
  import opened Catalog

  /** One row of the wide table: a module and its three percentages. */
  datatype WideRow = WideRow(moduleName: string, unlocked: real, started: real, completed: real)

  /** One row of the melted table: columns `Module`, `Status`, `Percentage Completion`. */
  datatype FunnelRow = FunnelRow(moduleName: string, status: State, percentage: real)

  /** The wide-table column holding state `st`. */
  function Column(w: WideRow, st: State): real {
    match st
    case Unlocked => w.unlocked
    case Started => w.started
    case Completed => w.completed
  }

  /** `w` is the wide row of module `m`: its three shares in `df`, x 100, each within [0, 100]. */
  predicate WideRowOf(df: seq<Event>, m: string, w: WideRow) {
    && w.moduleName == m
    && w.unlocked == 100.0 * StateRatio(df, m, Unlocked) && 0.0 <= w.unlocked <= 100.0
    && w.started == 100.0 * StateRatio(df, m, Started) && 0.0 <= w.started <= 100.0
    && w.completed == 100.0 * StateRatio(df, m, Completed) && 0.0 <= w.completed <= 100.0
  }

  /** The wide row of a module with rows: its unlocked, started and completed shares, x 100. */
  function FunnelTriple(df: seq<Event>, m: string): (w: WideRow)
    requires ModuleStudents(df, m) != {}
    ensures WideRowOf(df, m, w)
  {
    StatePercentageDefined(df, m, Unlocked);
    StatePercentageDefined(df, m, Started);
    StatePercentageDefined(df, m, Completed);
    WideRow(m, StatePercentage(df, m, Unlocked).value * 100.0,
               StatePercentage(df, m, Started).value * 100.0,
               StatePercentage(df, m, Completed).value * 100.0)
  }

  /** Some module of the list has no rows in `df`, so computing its share divides 0 by 0. */
  predicate SomeModuleMissing(df: seq<Event>, modules: seq<string>) {
    exists i :: 0 <= i < |modules| && ModuleStudents(df, modules[i]) == {}
  }

  /** The loop over `modules` filling `result`, for a list whose every module has rows. */
  function WideTable(df: seq<Event>, modules: seq<string>): (r: seq<WideRow>)
    requires !SomeModuleMissing(df, modules)
    ensures |r| == |modules|
    ensures forall i :: 0 <= i < |modules| ==> WideRowOf(df, modules[i], r[i])
  {
    seq(|modules|, i requires 0 <= i < |modules| => FunnelTriple(df, modules[i]))
  }

  /** One `value_vars` column of the melt: every module with the value of state `st`. */
  function MeltColumn(wide: seq<WideRow>, st: State): seq<FunnelRow>
  {
    seq(|wide|, i requires 0 <= i < |wide| => FunnelRow(wide[i].moduleName, st, Column(wide[i], st)))
  }

  /**
   * The wide table melted on its three status columns: all modules under `unlocked`, then
   * all under `started`, then all under `completed`.
   */
  function Melt(wide: seq<WideRow>): (r: seq<FunnelRow>)
    ensures |r| == 3 * |wide|
    ensures forall i :: 0 <= i < |wide| ==>
              && r[i] == FunnelRow(wide[i].moduleName, Unlocked, wide[i].unlocked)
              && r[|wide| + i] == FunnelRow(wide[i].moduleName, Started, wide[i].started)
              && r[2 * |wide| + i] == FunnelRow(wide[i].moduleName, Completed, wide[i].completed)
  {
    MeltColumn(wide, Unlocked) + MeltColumn(wide, Started) + MeltColumn(wide, Completed)
  }

  /** The inverse reshaping: read the three status blocks back into one wide row per module. */
  function Pivot(long: seq<FunnelRow>): (r: seq<WideRow>)
    requires |long| % 3 == 0
    ensures 3 * |r| == |long|
  {
    var n := |long| / 3;
    seq(n, i requires 0 <= i < n =>
      WideRow(long[i].moduleName, long[i].percentage, long[n + i].percentage, long[2 * n + i].percentage))
  }

  /** A long table laid out as `Melt` lays it out: three status blocks over the same modules. */
  predicate MeltShaped(long: seq<FunnelRow>) {
    && |long| % 3 == 0
    && forall i :: 0 <= i < |long| / 3 ==> Stacked(long, long[i].moduleName, i)
  }

  /** Rows `i`, `n + i` and `2n + i` of a long table with `3n` rows are module `m` under the three statuses. */
  predicate Stacked(long: seq<FunnelRow>, m: string, i: nat)
    requires |long| % 3 == 0 && i < |long| / 3
  {
    var n := |long| / 3;
    && long[i].moduleName == m && long[i].status == Unlocked
    && long[n + i].moduleName == m && long[n + i].status == Started
    && long[2 * n + i].moduleName == m && long[2 * n + i].status == Completed
  }

  /** Melting loses nothing: pivoting the melted table gives back the wide table. */
  lemma PivotOfMelt(wide: seq<WideRow>)
    ensures MeltShaped(Melt(wide))
    ensures Pivot(Melt(wide)) == wide
  {
    var long := Melt(wide);
    assert |long| / 3 == |wide|;
  }

  /** And every melt-shaped long table is the melt of its pivot. */
  lemma MeltOfPivot(long: seq<FunnelRow>)
    requires MeltShaped(long)
    ensures Melt(Pivot(long)) == long
  {
    var n := |long| / 3;
    var back := Melt(Pivot(long));
    forall k | 0 <= k < |long|
      ensures back[k] == long[k]
    {
      if k < n {
      } else if k < 2 * n {
        assert back[n + (k - n)] == long[n + (k - n)];
      } else {
        assert back[2 * n + (k - 2 * n)] == long[2 * n + (k - 2 * n)];
      }
    }
  }

  /** Melting wide rows of the listed modules stacks the three status blocks over the module list. */
  lemma MeltStacked(modules: seq<string>, wide: seq<WideRow>)
    requires |wide| == |modules|
    requires forall i :: 0 <= i < |modules| ==> wide[i].moduleName == modules[i]
    ensures forall i :: 0 <= i < |modules| ==> Stacked(Melt(wide), modules[i], i)
  {
  }

  /** Every melted row of the listed modules holds its module's share for its status. */
  lemma MeltValues(df: seq<Event>, modules: seq<string>, wide: seq<WideRow>)
    requires |wide| == |modules|
    requires forall i :: 0 <= i < |modules| ==> WideRowOf(df, modules[i], wide[i])
    ensures forall k :: 0 <= k < 3 * |modules| ==>
              Melt(wide)[k].moduleName in modules && FunnelValue(df, Melt(wide)[k])
  {
    var n := |modules|;
    forall k | 0 <= k < 3 * n
      ensures Melt(wide)[k].moduleName in modules && FunnelValue(df, Melt(wide)[k])
    {
      if k < n {
        MeltedRow(df, modules, wide, k, Unlocked, k);
      } else if k < 2 * n {
        MeltedRow(df, modules, wide, k, Started, k - n);
      } else {
        MeltedRow(df, modules, wide, k, Completed, k - 2 * n);
      }
    }
  }

  /** Row `k` of the melt, taken from wide row `i` under status `st`, holds that module's share. */
  lemma MeltedRow(df: seq<Event>, modules: seq<string>, wide: seq<WideRow>, k: nat, st: State, i: nat)
    requires |wide| == |modules| && i < |modules|
    requires WideRowOf(df, modules[i], wide[i])
    requires k < |Melt(wide)| && Melt(wide)[k] == FunnelRow(wide[i].moduleName, st, Column(wide[i], st))
    ensures Melt(wide)[k].moduleName in modules
    ensures FunnelValue(df, Melt(wide)[k])
  {
  }

  /** A melted row holds its module's share for its status, x 100, within [0, 100]. */
  predicate FunnelValue(df: seq<Event>, row: FunnelRow) {
    && row.percentage == 100.0 * StateRatio(df, row.moduleName, row.status)
    && 0.0 <= row.percentage <= 100.0
  }

  /**
   * `module_completion_barplot(df)` up to the figure: for every module of the whole table
   * (`data`), its three shares in `df`, x 100, melted. A module of `data` without rows in
   * `df` makes the source divide 0 by 0.
   */
  function ModuleFunnel(data: seq<Event>, df: seq<Event>): (r: Result<seq<FunnelRow>, Error>)
    ensures r.Failure? <==> SomeModuleMissing(df, Modules(data))
    ensures r.Success? ==> |r.value| == 3 * |Modules(data)|
    ensures r.Success? ==> forall i :: 0 <= i < |Modules(data)| ==> Stacked(r.value, Modules(data)[i], i)
    ensures r.Success? ==> forall k :: 0 <= k < |r.value| ==>
              r.value[k].moduleName in Modules(data) && FunnelValue(df, r.value[k])
  {
    var modules := Modules(data);
    if SomeModuleMissing(df, modules) then Failure(ZeroDivision)
    else
      var wide := WideTable(df, modules);
      assert forall i :: 0 <= i < |modules| ==> WideRowOf(df, modules[i], wide[i]);
      MeltStacked(modules, wide);
      MeltValues(df, modules, wide);
      Success(Melt(wide))
  }

  /** On the unfiltered table every module has rows, so the funnel never divides by zero. */
  lemma FunnelOnWholeTable(data: seq<Event>)
    ensures ModuleFunnel(data, data).Success?
  {
    var modules := Modules(data);
    forall i | 0 <= i < |modules|
      ensures ModuleStudents(data, modules[i]) != {}
    {
      ModuleHasStudents(data, modules[i]);
    }
  }
}
