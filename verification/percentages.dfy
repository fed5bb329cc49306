/**
 * The two ratio functions of the dashboard: the share of a module's students that
 * reached a state, and the share that completed the module on or before a day.
 */
module Percentages {
  import opened Wrappers
  import opened Collections
  import opened Events

  /** The error Python raises for `0 / 0`. */
  datatype Error = ZeroDivision

  /** `a / b` for a count over a count, read as 0 when there is nothing to divide by. */
  function Share(a: nat, b: nat): real {
    if b == 0 then 0.0 else a as real / b as real
  }

  /** A part of at most `k` times the whole gives a share of at most `k`. */
  lemma ShareOfPart(a: nat, b: nat, k: nat)
    requires a <= k * b
    ensures 0.0 <= Share(a, b) <= k as real
  {
    if b > 0 {
      assert a as real <= k as real * b as real;
    }
  }

  /** Reference definition: distinct students of `m` in state `st` over distinct students of `m`. */
  function StateRatio(df: seq<Event>, m: string, st: State): real {
    Share(|StateStudents(df, m, st)|, |ModuleStudents(df, m)|)
  }

  /** Reference definition: distinct students of `m` completed by `d` over distinct students of `m`. */
  function AsOfRatio(df: seq<Event>, m: string, d: Date): real {
    Share(|CompletedByStudents(df, m, d)|, |ModuleStudents(df, m)|)
  }

  /** A count of a subset over the count of the whole lies in [0, 1]. */
  lemma RatioInUnit(a: nat, b: nat)
    requires 0 < b && a <= b
    ensures 0.0 <= a as real / b as real <= 1.0
  {
  }

  /** No students reached over some students is a share of zero. */
  lemma RatioOfNone(b: nat)
    requires 0 < b
    ensures 0 as real / b as real == 0.0
  {
  }

  /** A larger numerator over the same denominator gives a larger ratio. */
  lemma RatioMonotone(a1: nat, a2: nat, b: nat)
    requires 0 < b && a1 <= a2
    ensures a1 as real / b as real <= a2 as real / b as real
  {
  }

  /**
   * `get_completed_percentage(df, module, state)`: distinct students of the module with a
   * row in `st`, over distinct students of the module. A module without rows divides 0 by 0.
   */
  function StatePercentage(df: seq<Event>, m: string, st: State): (r: Result<real, Error>)
    ensures r.Failure? <==> ModuleStudents(df, m) == {}
    ensures r.Success? ==> r.value == StateRatio(df, m, st)
    ensures r.Success? ==> 0.0 <= r.value <= 1.0
  {
    var rows := RowsOfModule(df, m);
    var total := CountDistinct(StudentIds(rows));
    ModuleCount(df, m);
    if total == 0 then Failure(ZeroDivision)
    else
      var reached := CountDistinct(StudentIds(RowsInState(rows, st)));
      StateCount(df, m, st);
      StateWithinModule(df, m, st);
      RatioInUnit(reached, total);
      Success(reached as real / total as real)
  }

  /** The division by zero happens exactly when no row of `df` belongs to module `m`. */
  lemma StatePercentageFailsWithoutRows(df: seq<Event>, m: string, st: State)
    ensures StatePercentage(df, m, st).Failure? <==> forall e :: e in df ==> e.moduleName != m
  {
    ModuleStudentsEmpty(df, m);
  }

  /** For a module with rows, the share is defined and equals the reference ratio. */
  lemma StatePercentageDefined(df: seq<Event>, m: string, st: State)
    requires ModuleStudents(df, m) != {}
    ensures StatePercentage(df, m, st) == Success(StateRatio(df, m, st))
    ensures 0.0 <= StateRatio(df, m, st) <= 1.0
  {
  }

  /**
   * `get_completed_percentage_date(df, module, date)`: 0 when the module has no `completed`
   * row at all (which covers a module absent from `df`); otherwise distinct students with a
   * `completed` row dated on or before `d`, over distinct students of the module.
   */
  function AsOfPercentage(df: seq<Event>, m: string, d: Date): (r: real)
    ensures StateStudents(df, m, Completed) == {} ==> r == 0.0
    ensures StateStudents(df, m, Completed) != {} ==>
              ModuleStudents(df, m) != {} && r == AsOfRatio(df, m, d)
    ensures 0.0 <= r <= 1.0
  {
    var rows := RowsOfModule(df, m);
    var completed := RowsInState(rows, Completed);
    StateCount(df, m, Completed);
    if |completed| == 0 then 0.0
    else
      var total := CountDistinct(StudentIds(rows));
      var reached := CountDistinct(StudentIds(RowsCompletedBy(rows, d)));
      ModuleCount(df, m);
      StateWithinModule(df, m, Completed);
      CompletedByCount(df, m, d);
      CompletedByWithinCompleted(df, m, d);
      RatioInUnit(reached, total);
      reached as real / total as real
  }

  /** A student with many rows in a state counts once: repeating an existing row changes nothing. */
  lemma RepeatedRowCountsOnce(df: seq<Event>, e: Event, m: string, st: State, d: Date)
    requires e in df
    ensures StatePercentage(df + [e], m, st) == StatePercentage(df, m, st)
    ensures AsOfPercentage(df + [e], m, d) == AsOfPercentage(df, m, d)
  {
    assert ModuleStudents(df + [e], m) == ModuleStudents(df, m);
    assert StateStudents(df + [e], m, st) == StateStudents(df, m, st);
    assert StateStudents(df + [e], m, Completed) == StateStudents(df, m, Completed);
    assert CompletedByStudents(df + [e], m, d) == CompletedByStudents(df, m, d);
  }

  /** The as-of-date share never decreases as the day moves forward. */
  lemma AsOfMonotone(df: seq<Event>, m: string, d1: Date, d2: Date)
    requires d1 <= d2
    ensures AsOfPercentage(df, m, d1) <= AsOfPercentage(df, m, d2)
  {
    if StateStudents(df, m, Completed) != {} {
      CompletedByGrows(df, m, d1, d2);
      RatioMonotone(|CompletedByStudents(df, m, d1)|, |CompletedByStudents(df, m, d2)|, |ModuleStudents(df, m)|);
    }
  }

  /** The as-of-date share never exceeds the overall `completed` share of the same module. */
  lemma AsOfAtMostCompleted(df: seq<Event>, m: string, d: Date)
    requires ModuleStudents(df, m) != {}
    ensures AsOfPercentage(df, m, d) <= StatePercentage(df, m, Completed).value
  {
    if StateStudents(df, m, Completed) != {} {
      CompletedByWithinCompleted(df, m, d);
      RatioMonotone(|CompletedByStudents(df, m, d)|, |StateStudents(df, m, Completed)|, |ModuleStudents(df, m)|);
    }
  }

  /** Once every `completed` row of the module is dated on or before `d`, the two shares agree. */
  lemma AsOfReachesCompleted(df: seq<Event>, m: string, d: Date)
    requires ModuleStudents(df, m) != {}
    requires forall e :: e in df && e.moduleName == m && e.state == Completed ==> CompletedBy(e, d)
    ensures AsOfPercentage(df, m, d) == StatePercentage(df, m, Completed).value
  {
    forall s | s in StateStudents(df, m, Completed)
      ensures s in CompletedByStudents(df, m, d)
    {
      var e :| e in df && e.moduleName == m && e.state == Completed && e.studentId == s;
      assert CompletedBy(e, d);
    }
    CompletedByWithinCompleted(df, m, d);
    assert CompletedByStudents(df, m, d) == StateStudents(df, m, Completed);
    if StateStudents(df, m, Completed) == {} {
      assert |StateStudents(df, m, Completed)| == 0;
      RatioOfNone(|ModuleStudents(df, m)|);
    } else {
      assert AsOfRatio(df, m, d) == StateRatio(df, m, Completed);
    }
  }
}
