/**
 * The `sorted(self.tasks.values(), key=...)` expressions of `sort_tasks`
 * (task_scheduler.py lines 75-79): Python's sort is stable, compares keys with
 * `<`, and raises `TypeError` when two keys it compares have no order.
 */
module Ordering {
  import opened Dates
  import opened Text
  import opened Tasks

  /** The two sort options `sort_tasks` accepts. */
  datatype SortField = ByDueDate | ByCompletion

  /** A key as Python sees it: `None`, a `bool`, a `datetime` or a `str`. */
  datatype SortKey = NoKey | BoolKey(flag: bool) | DateKey(date: Date) | TextKey(text: string)

  /** `lambda x: x.due_date` and `lambda x: x.is_completed`. */
  function KeyOf(field: SortField, t: TaskRecord): (r: SortKey)
    ensures r.BoolKey? <==> field == ByCompletion
    ensures r.NoKey? <==> field == ByDueDate && t.dueDate.NoDate?
    ensures r.TextKey? <==> field == ByDueDate && t.dueDate.Raw?
    ensures field == ByDueDate && t.dueDate.Parsed? ==> r.DateKey? && r.date == t.dueDate.date
  {
    match field
    case ByCompletion => BoolKey(t.isCompleted)
    case ByDueDate =>
      match t.dueDate
      case NoDate => NoKey
      case Raw(text) => TextKey(text)
      case Parsed(d) => DateKey(d)
  }

  function Kind(k: SortKey): int {
    match k
    case NoKey => 0
    case BoolKey(_) => 1
    case DateKey(_) => 2
    case TextKey(_) => 3
  }

  /** Python can evaluate `a < b`: same type, and not `None`. */
  predicate Comparable(a: SortKey, b: SortKey) {
    Kind(a) == Kind(b) && !a.NoKey?
  }

  /**
   * `a <= b` on keys: `False` before `True`, dates by calendar order, strings
   * by code point. Keys of different kinds get a fixed arbitrary order so
   * that the relation is total; a sort that would compare them raises
   * instead (SortsWithoutError).
   */
  predicate KeyLe(a: SortKey, b: SortKey) {
    if Kind(a) != Kind(b) then Kind(a) < Kind(b)
    else match a
      case NoKey => true
      case BoolKey(x) => !x || b.flag
      case DateKey(x) => DateLe(x, b.date)
      case TextKey(x) => StrLe(x, b.text)
  }

  /**
   * `sorted` returns instead of raising `TypeError`: a list of fewer than two
   * tasks is never compared, and in a longer one every key meets another.
   */
  predicate SortsWithoutError(ts: seq<TaskRecord>, field: SortField)
    ensures |ts| <= 1 || field == ByCompletion ==> SortsWithoutError(ts, field)
    ensures field == ByDueDate && |ts| >= 2 && (exists i | 0 <= i < |ts| :: ts[i].dueDate.NoDate?)
            ==> !SortsWithoutError(ts, field)
    ensures field == ByDueDate && |ts| >= 2 ==>
      (SortsWithoutError(ts, field) <==>
         (forall i | 0 <= i < |ts| :: ts[i].dueDate.Parsed?) || (forall i | 0 <= i < |ts| :: ts[i].dueDate.Raw?))
  {
    |ts| <= 1
    || forall i, j | 0 <= i < |ts| && 0 <= j < |ts| :: Comparable(KeyOf(field, ts[i]), KeyOf(field, ts[j]))
  }

  /** Insert `x` before the first element whose key is not below its own. */
  function Insert(x: TaskRecord, s: seq<TaskRecord>, field: SortField): (r: seq<TaskRecord>)
    ensures |r| == |s| + 1
  {
    if s == [] then [x]
    else if KeyLe(KeyOf(field, x), KeyOf(field, s[0])) then [x] + s
    else [s[0]] + Insert(x, s[1..], field)
  }

  /** The stable sort of `ts` by the key of `field` (an insertion sort). */
  function Sort(ts: seq<TaskRecord>, field: SortField): (r: seq<TaskRecord>)
    ensures |r| == |ts|
  {
    if ts == [] then [] else Insert(ts[0], Sort(ts[1..], field), field)
  }

  predicate Sorted(r: seq<TaskRecord>, field: SortField) {
    forall i, j | 0 <= i < j < |r| :: KeyLe(KeyOf(field, r[i]), KeyOf(field, r[j]))
  }

  /** The tasks of `ts`, in order, whose key ties with `k`. */
  function Tied(ts: seq<TaskRecord>, field: SortField, k: SortKey): seq<TaskRecord> {
    if ts == [] then []
    else
      var rest := Tied(ts[1..], field, k);
      if KeyLe(KeyOf(field, ts[0]), k) && KeyLe(k, KeyOf(field, ts[0])) then [ts[0]] + rest else rest
  }

  // ---------------------------------------------------------------------------
  // The key order is a total preorder

  lemma KeyLeTotal(a: SortKey, b: SortKey)
    ensures KeyLe(a, b) || KeyLe(b, a)
  {
    if a.TextKey? && b.TextKey? {
      StrLeTotal(a.text, b.text);
    }
  }

  lemma KeyLeTransitive(a: SortKey, b: SortKey, c: SortKey)
    requires KeyLe(a, b) && KeyLe(b, c)
    ensures KeyLe(a, c)
  {
    if a.TextKey? && b.TextKey? && c.TextKey? {
      StrLeTransitive(a.text, b.text, c.text);
    }
  }

  // ---------------------------------------------------------------------------
  // Permutation

  lemma {:induction false} InsertPermutes(x: TaskRecord, s: seq<TaskRecord>, field: SortField)
    ensures multiset(Insert(x, s, field)) == multiset(s) + multiset{x}
  {
    if s != [] && !KeyLe(KeyOf(field, x), KeyOf(field, s[0])) {
      InsertPermutes(x, s[1..], field);
      assert s == [s[0]] + s[1..];
    }
  }

  lemma {:induction false} SortPermutes(ts: seq<TaskRecord>, field: SortField)
    ensures multiset(Sort(ts, field)) == multiset(ts)
  {
    if ts != [] {
      SortPermutes(ts[1..], field);
      InsertPermutes(ts[0], Sort(ts[1..], field), field);
      assert ts == [ts[0]] + ts[1..];
    }
  }

  // ---------------------------------------------------------------------------
  // Order

  /** Every key in `s` is at least `k`. */
  predicate AllAtLeast(k: SortKey, s: seq<TaskRecord>, field: SortField) {
    forall j | 0 <= j < |s| :: KeyLe(k, KeyOf(field, s[j]))
  }

  lemma ConsSorted(y: TaskRecord, r: seq<TaskRecord>, field: SortField)
    requires Sorted(r, field) && AllAtLeast(KeyOf(field, y), r, field)
    ensures Sorted([y] + r, field)
  {
    var yr := [y] + r;
    forall i, j | 0 <= i < j < |yr|
      ensures KeyLe(KeyOf(field, yr[i]), KeyOf(field, yr[j]))
    {
      assert yr[j] == r[j - 1];
      if i > 0 {
        assert yr[i] == r[i - 1];
      }
    }
  }

  lemma {:induction false} InsertAtLeast(x: TaskRecord, s: seq<TaskRecord>, field: SortField, k: SortKey)
    requires AllAtLeast(k, s, field) && KeyLe(k, KeyOf(field, x))
    ensures AllAtLeast(k, Insert(x, s, field), field)
  {
    if s != [] && !KeyLe(KeyOf(field, x), KeyOf(field, s[0])) {
      InsertAtLeast(x, s[1..], field, k);
      var r := [s[0]] + Insert(x, s[1..], field);
      assert forall j | 0 < j < |r| :: r[j] == Insert(x, s[1..], field)[j - 1];
    }
  }

  lemma {:induction false} InsertSorted(x: TaskRecord, s: seq<TaskRecord>, field: SortField)
    requires Sorted(s, field)
    ensures Sorted(Insert(x, s, field), field)
  {
    var kx := KeyOf(field, x);
    if s == [] {
    } else if KeyLe(kx, KeyOf(field, s[0])) {
      forall j | 0 <= j < |s|
        ensures KeyLe(kx, KeyOf(field, s[j]))
      {
        if j > 0 {
          KeyLeTransitive(kx, KeyOf(field, s[0]), KeyOf(field, s[j]));
        }
      }
      ConsSorted(x, s, field);
    } else {
      var k0 := KeyOf(field, s[0]);
      InsertSorted(x, s[1..], field);
      KeyLeTotal(kx, k0);
      assert AllAtLeast(k0, s[1..], field) by {
        forall j | 0 <= j < |s[1..]|
          ensures KeyLe(k0, KeyOf(field, s[1..][j]))
        {
          assert s[1..][j] == s[j + 1];
        }
      }
      InsertAtLeast(x, s[1..], field, k0);
      ConsSorted(s[0], Insert(x, s[1..], field), field);
    }
  }

  lemma {:induction false} SortSorted(ts: seq<TaskRecord>, field: SortField)
    ensures Sorted(Sort(ts, field), field)
  {
    if ts != [] {
      SortSorted(ts[1..], field);
      InsertSorted(ts[0], Sort(ts[1..], field), field);
    }
  }

  // ---------------------------------------------------------------------------
  // Stability

  lemma TiedCons(y: TaskRecord, s: seq<TaskRecord>, field: SortField, k: SortKey)
    ensures Tied([y] + s, field, k) == Tied([y], field, k) + Tied(s, field, k)
  {
    assert ([y] + s)[1..] == s;
    assert [y][1..] == [];
  }

  lemma {:induction false} InsertTied(x: TaskRecord, s: seq<TaskRecord>, field: SortField, k: SortKey)
    ensures Tied(Insert(x, s, field), field, k) == Tied([x], field, k) + Tied(s, field, k)
  {
    var kx := KeyOf(field, x);
    if s == [] {
    } else if KeyLe(kx, KeyOf(field, s[0])) {
      TiedCons(x, s, field, k);
    } else {
      var tail := Insert(x, s[1..], field);
      InsertTied(x, s[1..], field, k);
      TiedCons(s[0], tail, field, k);
      assert s == [s[0]] + s[1..];
      TiedCons(s[0], s[1..], field, k);
      var k0 := KeyOf(field, s[0]);
      if KeyLe(kx, k) && KeyLe(k, kx) && KeyLe(k0, k) && KeyLe(k, k0) {
        KeyLeTransitive(kx, k, k0);
        assert false;
      }
    }
  }

  lemma {:induction false} SortTied(ts: seq<TaskRecord>, field: SortField, k: SortKey)
    ensures Tied(Sort(ts, field), field, k) == Tied(ts, field, k)
  {
    if ts != [] {
      SortTied(ts[1..], field, k);
      InsertTied(ts[0], Sort(ts[1..], field), field, k);
    }
  }

  /**
   * What `sorted(..., key=...)` returns: a permutation of its input, in
   * non-decreasing key order, in which tasks with tying keys keep their
   * relative order.
   */
  lemma SortIsStableSort(ts: seq<TaskRecord>, field: SortField)
    ensures multiset(Sort(ts, field)) == multiset(ts)
    ensures Sorted(Sort(ts, field), field)
    ensures forall k :: Tied(Sort(ts, field), field, k) == Tied(ts, field, k)
  {
    SortPermutes(ts, field);
    SortSorted(ts, field);
    forall k
      ensures Tied(Sort(ts, field), field, k) == Tied(ts, field, k)
    {
      SortTied(ts, field, k);
    }
  }

  /** Sorting by completion status puts every pending task before every completed one. */
  lemma PendingBeforeCompleted(ts: seq<TaskRecord>)
    ensures forall i, j | 0 <= i < j < |Sort(ts, ByCompletion)| ::
      !(Sort(ts, ByCompletion)[i].isCompleted && !Sort(ts, ByCompletion)[j].isCompleted)
  {
    SortSorted(ts, ByCompletion);
  }

  /**
   * Sorting tasks that all hold a parsed date never raises, and puts them in
   * calendar order of their due dates.
   */
  lemma DueDateSortOrdersDates(ts: seq<TaskRecord>)
    requires forall i | 0 <= i < |ts| :: ts[i].dueDate.Parsed?
    ensures SortsWithoutError(ts, ByDueDate)
    ensures forall i | 0 <= i < |Sort(ts, ByDueDate)| :: Sort(ts, ByDueDate)[i].dueDate.Parsed?
    ensures forall i, j | 0 <= i < j < |Sort(ts, ByDueDate)| ::
      DateLe(Sort(ts, ByDueDate)[i].dueDate.date, Sort(ts, ByDueDate)[j].dueDate.date)
  {
    var r := Sort(ts, ByDueDate);
    SortPermutes(ts, ByDueDate);
    SortSorted(ts, ByDueDate);
    forall i | 0 <= i < |r|
      ensures r[i].dueDate.Parsed?
    {
      assert r[i] in multiset(r);
      assert r[i] in ts;
    }
  }

  /** The due-date sort on two dated tasks, given 15 May before 5 May. */
  lemma DueDateSortExample()
    ensures
      var may15 := TaskRecord("2", "Test Task 2", "This is a test task 2", Parsed(Date(2024, 5, 15)), false);
      var may5 := TaskRecord("3", "Test Task 3", "This is a test task 3", Parsed(Date(2024, 5, 5)), false);
      SortsWithoutError([may15, may5], ByDueDate) && Sort([may15, may5], ByDueDate) == [may5, may15]
  {
    var may15 := TaskRecord("2", "Test Task 2", "This is a test task 2", Parsed(Date(2024, 5, 15)), false);
    var may5 := TaskRecord("3", "Test Task 3", "This is a test task 3", Parsed(Date(2024, 5, 5)), false);
    assert [may15, may5][1..] == [may5];
    assert Sort([may5], ByDueDate) == [may5];
    assert !KeyLe(KeyOf(ByDueDate, may15), KeyOf(ByDueDate, may5));
    assert [may5][1..] == [];
    assert Insert(may15, [may5], ByDueDate) == [may5] + Insert(may15, [], ByDueDate);
  }
}
