/**
 * The event table: one row per student, module item and progress state, as loaded
 * from the module-progress CSV (dates already parsed and truncated to a day).
 */
module Events {
  import opened Wrappers
  import opened Collections

  /** A calendar day as an ordinal; `completed_at` compared through `.dt.date`. */
  type Date = int

  /** The `state` column. */
  datatype State = Unlocked | Started | Completed

  /** One row of the input table; categorical columns are plain strings here. */
  datatype Event = Event(
    courseId: string,
    courseName: string,
    moduleId: string,
    moduleName: string,
    state: State,
    studentId: string,
    studentName: string,
    itemId: string,
    itemTitle: string,
    itemType: string,
    itemModuleId: string,
    requirementType: string,
    requirementSatisfied: bool,
    completedAt: Option<Date>)

  /** The rows of module `m`, in table order. */
  function RowsOfModule(df: seq<Event>, m: string): (r: seq<Event>)
    ensures forall e :: e in r <==> e in df && e.moduleName == m
    ensures forall e :: multiset(r)[e] == if e.moduleName == m then multiset(df)[e] else 0
  {
    Filter(df, (e: Event) => e.moduleName == m)
  }

  /** The rows in state `st`, in table order. */
  function RowsInState(rows: seq<Event>, st: State): (r: seq<Event>)
    ensures forall e :: e in r <==> e in rows && e.state == st
    ensures forall e :: multiset(r)[e] == if e.state == st then multiset(rows)[e] else 0
  {
    Filter(rows, (e: Event) => e.state == st)
  }

  /** A `completed` row whose completion day is known and not after `d`. */
  predicate CompletedBy(e: Event, d: Date) {
    e.state == Completed && e.completedAt.Some? && e.completedAt.value <= d
  }

  /** The completed rows whose completion day is on or before `d`; a row without a completion date never qualifies. */
  function RowsCompletedBy(rows: seq<Event>, d: Date): (r: seq<Event>)
    ensures forall e :: e in r <==> e in rows && CompletedBy(e, d)
    ensures forall e :: multiset(r)[e] == if CompletedBy(e, d) then multiset(rows)[e] else 0
  {
    Filter(rows, (e: Event) => CompletedBy(e, d))
  }

  /** The `student_id` column of some rows. */
  function StudentIds(rows: seq<Event>): seq<string>
  {
    seq(|rows|, i requires 0 <= i < |rows| => rows[i].studentId)
  }

  /** The distinct students appearing in some rows. */
  function StudentSet(rows: seq<Event>): set<string> {
    set e | e in rows :: e.studentId
  }

  /** The distinct-count of the `student_id` column is the number of distinct students. */
  lemma DistinctStudentIds(rows: seq<Event>)
    ensures CountDistinct(StudentIds(rows)) == |StudentSet(rows)|
  {
    var ids := StudentIds(rows);
    forall s | s in StudentSet(rows)
      ensures s in ToSet(ids)
    {
      var e :| e in rows && e.studentId == s;
      var i :| 0 <= i < |rows| && rows[i] == e;
      assert ids[i] == s;
    }
    assert ToSet(ids) == StudentSet(rows);
  }

  /** Distinct students with at least one row of module `m`. */
  function ModuleStudents(df: seq<Event>, m: string): set<string> {
    set e | e in df && e.moduleName == m :: e.studentId
  }

  /** Distinct students with a row of module `m` in state `st`. */
  function StateStudents(df: seq<Event>, m: string, st: State): set<string> {
    set e | e in df && e.moduleName == m && e.state == st :: e.studentId
  }

  /** Distinct students with a `completed` row of module `m` dated on or before `d`. */
  function CompletedByStudents(df: seq<Event>, m: string, d: Date): set<string> {
    set e | e in df && e.moduleName == m && CompletedBy(e, d) :: e.studentId
  }

  /** A module has students exactly when it has rows. */
  lemma ModuleStudentsEmpty(df: seq<Event>, m: string)
    ensures ModuleStudents(df, m) == {} <==> forall e :: e in df ==> e.moduleName != m
  {
    if e :| e in df && e.moduleName == m {
      assert e.studentId in ModuleStudents(df, m);
    }
  }

  /** The distinct-count of a module's `student_id` column is its number of students. */
  lemma ModuleCount(df: seq<Event>, m: string)
    ensures CountDistinct(StudentIds(RowsOfModule(df, m))) == |ModuleStudents(df, m)|
  {
    var rows := RowsOfModule(df, m);
    DistinctStudentIds(rows);
    assert StudentSet(rows) == ModuleStudents(df, m);
  }

  /** The same count after also selecting the rows in state `st`. */
  lemma StateCount(df: seq<Event>, m: string, st: State)
    ensures CountDistinct(StudentIds(RowsInState(RowsOfModule(df, m), st))) == |StateStudents(df, m, st)|
  {
    var rows := RowsInState(RowsOfModule(df, m), st);
    DistinctStudentIds(rows);
    assert StudentSet(rows) == StateStudents(df, m, st);
  }

  /** The same count after selecting the rows completed by day `d`. */
  lemma CompletedByCount(df: seq<Event>, m: string, d: Date)
    ensures CountDistinct(StudentIds(RowsCompletedBy(RowsOfModule(df, m), d))) == |CompletedByStudents(df, m, d)|
  {
    var rows := RowsCompletedBy(RowsOfModule(df, m), d);
    DistinctStudentIds(rows);
    assert StudentSet(rows) == CompletedByStudents(df, m, d);
  }

  /** Students in a state are students of the module. */
  lemma StateWithinModule(df: seq<Event>, m: string, st: State)
    ensures StateStudents(df, m, st) <= ModuleStudents(df, m)
    ensures |StateStudents(df, m, st)| <= |ModuleStudents(df, m)|
  {
    SubsetCardinality(StateStudents(df, m, st), ModuleStudents(df, m));
  }

  /** Students completed by a day are students with a `completed` row. */
  lemma CompletedByWithinCompleted(df: seq<Event>, m: string, d: Date)
    ensures CompletedByStudents(df, m, d) <= StateStudents(df, m, Completed)
    ensures |CompletedByStudents(df, m, d)| <= |StateStudents(df, m, Completed)|
  {
    SubsetCardinality(CompletedByStudents(df, m, d), StateStudents(df, m, Completed));
  }

  /** Moving the day forward only adds students. */
  lemma CompletedByGrows(df: seq<Event>, m: string, d1: Date, d2: Date)
    requires d1 <= d2
    ensures CompletedByStudents(df, m, d1) <= CompletedByStudents(df, m, d2)
    ensures |CompletedByStudents(df, m, d1)| <= |CompletedByStudents(df, m, d2)|
  {
    SubsetCardinality(CompletedByStudents(df, m, d1), CompletedByStudents(df, m, d2));
  }
}
