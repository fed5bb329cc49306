/**
 * The id -> name dictionaries built at startup (`course_dict`) and in the checklist callback
 * (`module_dict`, `item_dict`, `student_dict`): each is a `defaultdict(str)` filled by one
 * assignment per row of the table, so the last row carrying an id decides its name, while
 * the id keeps the place in the key order where it was first inserted.
 */
module Lookups {
  import opened Collections
  import opened Events
  import opened Text

  /** A Python dict from strings to strings, as its (key, value) entries in insertion order. */
  type Entries = seq<(string, string)>

  /** The keys of a dict, in insertion order; also the key column of a list of assignments. */
  function KeysOf(d: Entries): seq<string>
  {
    seq(|d|, i requires 0 <= i < |d| => d[i].0)
  }

  /** A well-formed dict holds each key once. */
  predicate IsDict(d: Entries) {
    NoDup(KeysOf(d))
  }

  /** `d[k]` on a `defaultdict(str)` that is only read: the value stored under `k`, or "". */
  function Get(d: Entries, k: string): string {
    if k in KeysOf(d) then d[FirstIndex(KeysOf(d), k)].1 else ""
  }

  /** `d[k] = v`: an existing key keeps its place and takes the new value; a new key goes last. */
  function Put(d: Entries, k: string, v: string): (r: Entries)
    requires IsDict(d)
    ensures IsDict(r)
    ensures KeysOf(r) == if k in KeysOf(d) then KeysOf(d) else KeysOf(d) + [k]
    ensures Get(r, k) == v
    ensures forall k' :: k' != k ==> Get(r, k') == Get(d, k')
  {
    var keys := KeysOf(d);
    if k in keys then
      var p := FirstIndex(keys, k);
      var r := d[p := (k, v)];
      assert KeysOf(r) == keys;
      r
    else
      var r := d + [(k, v)];
      assert KeysOf(r) == keys + [k];
      forall k' | k' in keys
        ensures FirstIndex(keys + [k], k') == FirstIndex(keys, k')
      {
        FirstIndexInPrefix(keys, [k], k');
      }
      r
  }

  /** Assignment `i` is the last one to its key. */
  predicate IsLastFor(pairs: seq<(string, string)>, i: nat)
    requires i < |pairs|
  {
    forall j :: i < j < |pairs| ==> pairs[j].0 != pairs[i].0
  }

  /**
   * `for k, v in pairs: d[k] = v` on an empty dict: the keys are the distinct keys in order
   * of first assignment, and each holds the value of its last assignment.
   */
  function Assign(pairs: seq<(string, string)>): (r: Entries)
    ensures IsDict(r)
    ensures KeysOf(r) == Unique(KeysOf(pairs))
    ensures forall i :: 0 <= i < |pairs| && IsLastFor(pairs, i) ==> Get(r, pairs[i].0) == pairs[i].1
  {
    if |pairs| == 0 then []
    else
      var n := |pairs| - 1;
      var prev := Assign(pairs[..n]);
      assert KeysOf(pairs[..n]) == KeysOf(pairs)[..n];
      AssignStep(pairs, prev);
      Put(prev, pairs[n].0, pairs[n].1)
  }

  /** The last assignment overrides only its own key, so earlier last assignments keep their values. */
  lemma AssignStep(pairs: seq<(string, string)>, prev: Entries)
    requires |pairs| > 0 && IsDict(prev)
    requires forall i :: 0 <= i < |pairs| - 1 && IsLastFor(pairs[..|pairs| - 1], i) ==>
               Get(prev, pairs[i].0) == pairs[i].1
    ensures forall i :: 0 <= i < |pairs| && IsLastFor(pairs, i) ==>
              Get(Put(prev, pairs[|pairs| - 1].0, pairs[|pairs| - 1].1), pairs[i].0) == pairs[i].1
  {
    var n := |pairs| - 1;
    var r := Put(prev, pairs[n].0, pairs[n].1);
    forall i | 0 <= i < |pairs| && IsLastFor(pairs, i)
      ensures Get(r, pairs[i].0) == pairs[i].1
    {
      if i < n {
        assert pairs[i].0 != pairs[n].0;
        assert IsLastFor(pairs[..n], i);
      }
    }
  }

  /** A key's value is the value of its last assignment, wherever that is in the list. */
  lemma {:induction false} AssignLastWins(pairs: seq<(string, string)>, k: string)
    requires k in KeysOf(pairs)
    ensures exists i :: 0 <= i < |pairs| && pairs[i].0 == k && IsLastFor(pairs, i) && Get(Assign(pairs), k) == pairs[i].1
  {
    var i := LastIndex(pairs, k);
    assert pairs[i].0 == k && IsLastFor(pairs, i);
  }

  /** The position of the last assignment to `k`. */
  function LastIndex(pairs: seq<(string, string)>, k: string): (i: nat)
    requires k in KeysOf(pairs)
    ensures i < |pairs| && pairs[i].0 == k
    ensures IsLastFor(pairs, i)
  {
    var n := |pairs| - 1;
    if pairs[n].0 == k then n
    else
      assert KeysOf(pairs[..n]) == KeysOf(pairs)[..n];
      assert k in KeysOf(pairs[..n]) by {
        var j := FirstIndex(KeysOf(pairs), k);
        assert KeysOf(pairs[..n])[j] == k;
      }
      var i := LastIndex(pairs[..n], k);
      assert IsLastFor(pairs[..n], i);
      i
  }

  /** One (key, value) assignment per row, in row order. */
  function RowPairs(data: seq<Event>, key: Event -> string, value: Event -> string): (r: seq<(string, string)>)
    ensures |r| == |data|
    ensures forall i :: 0 <= i < |data| ==> r[i] == (key(data[i]), value(data[i]))
  {
    seq(|data|, i requires 0 <= i < |data| => (key(data[i]), value(data[i])))
  }

  /** Row `i` is the last row whose `key` is its key. */
  predicate IsLastRow(data: seq<Event>, key: Event -> string, i: nat)
    requires i < |data|
  {
    forall j :: i < j < |data| ==> key(data[j]) != key(data[i])
  }

  /** The dict filled by `d[key(row)] = value(row)` for every row, stated in terms of the rows. */
  lemma RowDict(data: seq<Event>, key: Event -> string, value: Event -> string)
    ensures forall k :: k in KeysOf(Assign(RowPairs(data, key, value))) <==>
              exists i :: 0 <= i < |data| && key(data[i]) == k
    ensures forall i :: 0 <= i < |data| && IsLastRow(data, key, i) ==>
              Get(Assign(RowPairs(data, key, value)), key(data[i])) == value(data[i])
  {
    var pairs := RowPairs(data, key, value);
    RowKeys(data, key, value);
    assert forall k :: k in KeysOf(Assign(pairs)) <==> k in KeysOf(pairs);
    forall i | 0 <= i < |data| && IsLastRow(data, key, i)
      ensures Get(Assign(pairs), key(data[i])) == value(data[i])
    {
      assert IsLastFor(pairs, i);
    }
  }

  /** The keys assigned from the rows are exactly the rows' keys. */
  lemma RowKeys(data: seq<Event>, key: Event -> string, value: Event -> string)
    ensures forall k :: k in KeysOf(RowPairs(data, key, value)) <==> exists i :: 0 <= i < |data| && key(data[i]) == k
  {
    var keys := KeysOf(RowPairs(data, key, value));
    forall k
      ensures k in keys <==> exists i :: 0 <= i < |data| && key(data[i]) == k
    {
      if k in keys {
        var i := FirstIndex(keys, k);
        assert key(data[i]) == k;
      }
      if exists i :: 0 <= i < |data| && key(data[i]) == k {
        var i :| 0 <= i < |data| && key(data[i]) == k;
        assert keys[i] == k;
      }
    }
  }

  /** The key and value columns the four dicts are built from. */
  function CourseKey(e: Event): string { e.courseId }
  function CleanCourseName(e: Event): string { RemoveSpecialCharacters(e.courseName) }
  function ModuleKey(e: Event): string { e.moduleId }
  function ShortModuleName(e: Event): string { StripModulePrefix(e.moduleName) }
  function ItemModuleKey(e: Event): string { e.itemModuleId }
  function ItemTitleOf(e: Event): string { e.itemTitle }
  function StudentKey(e: Event): string { e.studentId }
  function StudentNameOf(e: Event): string { e.studentName }

  /**
   * The course dictionary: every course id of the table, mapped to the course name of its
   * last row, with that name reduced to ASCII letters and digits.
   */
  function CourseDict(data: seq<Event>): (r: Entries)
    ensures IsDict(r)
    ensures forall k :: k in KeysOf(r) <==> exists i :: 0 <= i < |data| && data[i].courseId == k
    ensures forall i :: 0 <= i < |data| && IsLastRow(data, CourseKey, i) ==>
              Get(r, data[i].courseId) == RemoveSpecialCharacters(data[i].courseName)
    ensures forall k :: k in KeysOf(r) ==> AllAlnum(Get(r, k))
  {
    var key := CourseKey;
    var value := CleanCourseName;
    RowDict(data, key, value);
    var r := Assign(RowPairs(data, key, value));
    forall k | k in KeysOf(r)
      ensures AllAlnum(Get(r, k))
    {
      var i :| 0 <= i < |data| && key(data[i]) == k;
      var last := LastIndex(RowPairs(data, key, value), k);
      assert IsLastRow(data, key, last);
    }
    r
  }

  /** The module dictionary: every module id, mapped to its last row's module name without the leading label. */
  function ModuleDict(data: seq<Event>): (r: Entries)
    ensures IsDict(r)
    ensures forall k :: k in KeysOf(r) <==> exists i :: 0 <= i < |data| && data[i].moduleId == k
    ensures forall i :: 0 <= i < |data| && IsLastRow(data, ModuleKey, i) ==>
              Get(r, data[i].moduleId) == StripModulePrefix(data[i].moduleName)
  {
    var key := ModuleKey;
    var value := ShortModuleName;
    RowDict(data, key, value);
    Assign(RowPairs(data, key, value))
  }

  /** The checklist's item dictionary: every item-module id, mapped to its last row's item title. */
  function ItemTitleDict(data: seq<Event>): (r: Entries)
    ensures IsDict(r)
    ensures forall k :: k in KeysOf(r) <==> exists i :: 0 <= i < |data| && data[i].itemModuleId == k
    ensures forall i :: 0 <= i < |data| && IsLastRow(data, ItemModuleKey, i) ==>
              Get(r, data[i].itemModuleId) == data[i].itemTitle
  {
    var key := ItemModuleKey;
    var value := ItemTitleOf;
    RowDict(data, key, value);
    Assign(RowPairs(data, key, value))
  }

  /** The student dictionary: every student id, mapped to its last row's student name. */
  function StudentDict(data: seq<Event>): (r: Entries)
    ensures IsDict(r)
    ensures forall k :: k in KeysOf(r) <==> exists i :: 0 <= i < |data| && data[i].studentId == k
    ensures forall i :: 0 <= i < |data| && IsLastRow(data, StudentKey, i) ==>
              Get(r, data[i].studentId) == data[i].studentName
  {
    var key := StudentKey;
    var value := StudentNameOf;
    RowDict(data, key, value);
    Assign(RowPairs(data, key, value))
  }
}
