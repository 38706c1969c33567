/**
  The report (`lambda/daily_summary.py`): one pass over the scanned items
  groups them by department into a dictionary that keeps the order in which
  departments are first seen, counting items and adding up salaries; then a
  header row and one row per department, in that order, are written out
  under the key `daily_summary_<date>.csv`.
*/
module DailySummary {
  import opened Wrappers
  import opened Employees

  /** The two counters kept for each department. */
  datatype Stats = Stats(count: int, totalSalary: int)

  // ---------------------------------------------------------------------
  // Specification of the aggregation
  // ---------------------------------------------------------------------

  /** How many items belong to `dept`. */
  function CountOf(dept: string, items: seq<Record>): nat {
    if items == [] then 0
    else CountOf(dept, items[..|items| - 1]) + (if items[|items| - 1].department == dept then 1 else 0)
  }

  /** The sum of the salaries of the items of `dept`. */
  function SumOf(dept: string, items: seq<Record>): int {
    if items == [] then 0
    else SumOf(dept, items[..|items| - 1]) + (if items[|items| - 1].department == dept then items[|items| - 1].salary else 0)
  }

  /** The sum of all salaries. */
  function TotalSalary(items: seq<Record>): int {
    if items == [] then 0 else TotalSalary(items[..|items| - 1]) + items[|items| - 1].salary
  }

  /** The departments that occur among the items. */
  function DepartmentSet(items: seq<Record>): set<string> {
    set r | r in items :: r.department
  }

  predicate Distinct(s: seq<string>) {
    forall i, j | 0 <= i < j < |s| :: s[i] != s[j]
  }

  /** The departments in the order in which each first occurs among the items. */
  function Departments(items: seq<Record>): (order: seq<string>)
    ensures forall d :: d in order <==> d in DepartmentSet(items)
    ensures Distinct(order)
  {
    if items == [] then []
    else
      var init := items[..|items| - 1];
      var d := items[|items| - 1].department;
      assert DepartmentSet(items) == DepartmentSet(init) + {d} by {
        assert items == init + [items[|items| - 1]];
      }
      if d in Departments(init) then Departments(init) else Departments(init) + [d]
  }

  /** What the dictionary holds once every item has been counted. */
  function Tally(items: seq<Record>): map<string, Stats> {
    map d | d in DepartmentSet(items) :: Stats(CountOf(d, items), SumOf(d, items))
  }

  // ---------------------------------------------------------------------
  // The dictionary `dept_summary`, updated in place
  // ---------------------------------------------------------------------

  /**
    `dept_summary`: a dictionary from department to its counters. `order`
    lists its keys in insertion order, as a Python dictionary iterates them.
  */
  class DeptSummary {
    var order: seq<string>
    var stats: map<string, Stats>

    ghost predicate Valid()
      reads this
    {
      && (forall d :: d in order <==> d in stats)
      && Distinct(order)
    }

    constructor ()
      ensures Valid() && order == [] && stats == map[]
    {
      order := [];
      stats := map[];
    }

    /** `dept_summary[dept] = {'count': 0, 'total_salary': 0}` for a new key. */
    method Insert(dept: string)
      requires Valid() && dept !in stats
      modifies this
      ensures Valid()
      ensures order == old(order) + [dept]
      ensures stats == old(stats)[dept := Stats(0, 0)]
    {
      order := order + [dept];
      stats := stats[dept := Stats(0, 0)];
    }

    /** `dept_summary[dept]['count'] += 1`. */
    method IncrementCount(dept: string)
      requires Valid() && dept in stats
      modifies this
      ensures Valid() && order == old(order)
      ensures stats == old(stats)[dept := old(stats)[dept].(count := old(stats)[dept].count + 1)]
    {
      stats := stats[dept := stats[dept].(count := stats[dept].count + 1)];
    }

    /** `dept_summary[dept]['total_salary'] += salary`. */
    method AddSalary(dept: string, salary: int)
      requires Valid() && dept in stats
      modifies this
      ensures Valid() && order == old(order)
      ensures stats == old(stats)[dept := old(stats)[dept].(totalSalary := old(stats)[dept].totalSalary + salary)]
    {
      stats := stats[dept := stats[dept].(totalSalary := stats[dept].totalSalary + salary)];
    }

    /** The body of the loop: one more item of `dept` earning `salary`. */
    method Count(dept: string, salary: int)
      requires Valid()
      modifies this
      ensures Valid()
      ensures stats == Counted(old(stats), dept, salary)
      ensures order == if dept in old(order) then old(order) else old(order) + [dept]
    {
      if dept !in stats {
        Insert(dept);
      }
      IncrementCount(dept);
      AddSalary(dept, salary);
    }
  }

  /** The loop that fills `dept_summary` from the scanned items. */
  method Aggregate(items: seq<Record>) returns (summary: DeptSummary)
    ensures fresh(summary) && summary.Valid()
    ensures summary.order == Departments(items)
    ensures summary.stats == Tally(items)
  {
    summary := new DeptSummary();
    for i := 0 to |items|
      invariant summary.Valid()
      invariant summary.order == Departments(items[..i])
      invariant summary.stats == Tally(items[..i])
    {
      var dept := items[i].department;
      var salary := items[i].salary;
      summary.Count(dept, salary);
      TallyStep(items[..i], items[i]);
      assert items[..i + 1] == items[..i] + [items[i]];
    }
    assert items[..|items|] == items;
  }

  /** The counters after one more item of department `d` with salary `salary`. */
  function Counted(stats: map<string, Stats>, d: string, salary: int): map<string, Stats> {
    var seen := if d in stats then stats[d] else Stats(0, 0);
    stats[d := Stats(seen.count + 1, seen.totalSalary + salary)]
  }

  /** Counting one more item changes the counters as the loop body does. */
  lemma TallyStep(items: seq<Record>, x: Record)
    ensures Tally(items + [x]) == Counted(Tally(items), x.department, x.salary)
    ensures Departments(items + [x]) ==
      if x.department in Departments(items) then Departments(items) else Departments(items) + [x.department]
  {
    var s := items + [x];
    assert s[..|s| - 1] == items;
    var d := x.department;
    var expected := Counted(Tally(items), d, x.salary);
    assert DepartmentSet(s) == DepartmentSet(items) + {d};
    if d !in DepartmentSet(items) {
      CountAbsent(d, items);
    }
    assert Tally(s) == expected;
  }

  /** A department that does not occur has no items and no salary. */
  lemma {:induction false} CountAbsent(d: string, items: seq<Record>)
    requires d !in DepartmentSet(items)
    ensures CountOf(d, items) == 0 && SumOf(d, items) == 0
  {
    if items != [] {
      var init := items[..|items| - 1];
      assert items == init + [items[|items| - 1]];
      assert DepartmentSet(init) <= DepartmentSet(items);
      CountAbsent(d, init);
    }
  }

  // ---------------------------------------------------------------------
  // Properties of the aggregation
  // ---------------------------------------------------------------------

  /** A department has a positive count exactly when it occurs among the items. */
  lemma {:induction false} CountPositiveIffPresent(d: string, items: seq<Record>)
    ensures CountOf(d, items) > 0 <==> d in DepartmentSet(items)
  {
    if items != [] {
      var init := items[..|items| - 1];
      assert items == init + [items[|items| - 1]];
      assert DepartmentSet(items) == DepartmentSet(init) + {items[|items| - 1].department};
      CountPositiveIffPresent(d, init);
    }
  }

  /** The position of the first item of department `d`. */
  function FirstIndex(d: string, items: seq<Record>): (k: nat)
    requires d in DepartmentSet(items)
    ensures k < |items| && items[k].department == d
    ensures forall m | 0 <= m < k :: items[m].department != d
  {
    var init := items[..|items| - 1];
    assert items == init + [items[|items| - 1]];
    if d in DepartmentSet(init) then FirstIndex(d, init) else |items| - 1
  }

  /**
    Departments come out in first-seen order: a department listed before
    another first occurs earlier among the items.
  */
  lemma {:induction false} FirstSeenOrder(items: seq<Record>, i: nat, j: nat)
    requires i < j < |Departments(items)|
    ensures FirstIndex(Departments(items)[i], items) < FirstIndex(Departments(items)[j], items)
  {
    var init := items[..|items| - 1];
    var x := items[|items| - 1];
    assert items == init + [x];
    TallyStep(init, x);
    var di, dj := Departments(items)[i], Departments(items)[j];
    if j < |Departments(init)| {
      FirstSeenOrder(init, i, j);
      assert di == Departments(init)[i] && dj == Departments(init)[j];
      assert FirstIndex(di, items) == FirstIndex(di, init);
      assert FirstIndex(dj, items) == FirstIndex(dj, init);
    } else {
      assert dj == x.department && dj !in Departments(init);
      assert di == Departments(init)[i];
      assert FirstIndex(dj, items) == |items| - 1;
    }
  }

  /** The per-department counters summed over a list of departments. */
  function SumStats(order: seq<string>, items: seq<Record>): Stats {
    if order == [] then Stats(0, 0)
    else
      var rest := SumStats(order[..|order| - 1], items);
      var d := order[|order| - 1];
      Stats(rest.count + CountOf(d, items), rest.totalSalary + SumOf(d, items))
  }

  /** One more item adds its count and salary to the sum over any list of distinct departments that holds its department. */
  lemma {:induction false} SumStatsStep(order: seq<string>, items: seq<Record>, x: Record)
    requires Distinct(order)
    ensures SumStats(order, items + [x]) ==
      if x.department in order
      then Stats(SumStats(order, items).count + 1, SumStats(order, items).totalSalary + x.salary)
      else SumStats(order, items)
  {
    var s := items + [x];
    assert s[..|s| - 1] == items;
    if order != [] {
      var init := order[..|order| - 1];
      assert order == init + [order[|order| - 1]];
      SumStatsStep(init, items, x);
    }
  }

  /**
    The counts of the report add up to the number of items, and its totals
    to the sum of all salaries.
  */
  lemma {:induction false} CountsAndTotalsAddUp(items: seq<Record>)
    ensures SumStats(Departments(items), items) == Stats(|items|, TotalSalary(items))
  {
    if items != [] {
      var init := items[..|items| - 1];
      var x := items[|items| - 1];
      assert items == init + [x];
      CountsAndTotalsAddUp(init);
      TallyStep(init, x);
      var order := Departments(init);
      SumStatsStep(order, init, x);
      if x.department !in order {
        CountPositiveIffPresent(x.department, init);
        CountAbsent(x.department, init);
        assert (order + [x.department])[..|order|] == order;
      }
    }
  }

  /** Splitting the items splits each department's count and salary sum. */
  lemma {:induction false} CountSplit(d: string, p: seq<Record>, q: seq<Record>)
    ensures CountOf(d, p + q) == CountOf(d, p) + CountOf(d, q)
    ensures SumOf(d, p + q) == SumOf(d, p) + SumOf(d, q)
  {
    if q == [] {
      assert p + q == p;
    } else {
      var init := q[..|q| - 1];
      assert (p + q)[..|p + q| - 1] == p + init;
      CountSplit(d, p, init);
    }
  }

  /**
    The counters do not depend on the order in which the scan returns the
    items: two scans holding the same items give the same dictionary contents.
  */
  lemma {:induction false} TallyIgnoresScanOrder(a: seq<Record>, b: seq<Record>)
    requires multiset(a) == multiset(b)
    ensures DepartmentSet(a) == DepartmentSet(b)
    ensures Tally(a) == Tally(b)
  {
    forall r ensures r in a <==> r in b {
      assert r in a <==> r in multiset(a);
      assert r in b <==> r in multiset(b);
    }
    forall d ensures CountOf(d, a) == CountOf(d, b) && SumOf(d, a) == SumOf(d, b) {
      SameItemsSameCounts(d, a, b);
    }
  }

  lemma {:induction false} SameItemsSameCounts(d: string, a: seq<Record>, b: seq<Record>)
    requires multiset(a) == multiset(b)
    ensures CountOf(d, a) == CountOf(d, b) && SumOf(d, a) == SumOf(d, b)
  {
    if a != [] {
      var init := a[..|a| - 1];
      var x := a[|a| - 1];
      assert a == init + [x];
      assert x in multiset(b);
      var j :| 0 <= j < |b| && b[j] == x;
      var rest := b[..j] + b[j + 1..];
      assert b == b[..j] + [x] + b[j + 1..];
      assert multiset(b) == multiset(b[..j]) + multiset([x]) + multiset(b[j + 1..]);
      assert multiset(a) == multiset(init) + multiset([x]);
      assert multiset(rest) == multiset(b[..j]) + multiset(b[j + 1..]);
      forall y ensures multiset(init)[y] == multiset(rest)[y] {
        assert multiset(a)[y] == multiset(b)[y];
      }
      assert multiset(init) == multiset(rest);
      SameItemsSameCounts(d, init, rest);
      CountSplit(d, init, [x]);
      CountSplit(d, b[..j], [x]);
      CountSplit(d, b[..j] + [x], b[j + 1..]);
      CountSplit(d, b[..j], b[j + 1..]);
    } else {
      assert b == [];
    }
  }

  // ---------------------------------------------------------------------
  // The report
  // ---------------------------------------------------------------------

  /**
    A cell handed to `writer.writerow`: text, an integer, or the average
    `round(total / count, 2)`, kept as its two operands.
  */
  datatype Field = Text(text: string) | Int(value: int) | Average(total: int, count: int)

  const Header: seq<Field> := [Text("Department"), Text("EmployeeCount"), Text("TotalSalary"), Text("AverageSalary")]

  /** The row written for one department. */
  function DeptRow(dept: string, s: Stats): seq<Field> {
    [Text(dept), Int(s.count), Int(s.totalSalary), Average(s.totalSalary, s.count)]
  }

  /** One row per department, in the dictionary's order. */
  function ReportBody(order: seq<string>, stats: map<string, Stats>): seq<seq<Field>>
    requires forall d | d in order :: d in stats
  {
    seq(|order|, k requires 0 <= k < |order| => DeptRow(order[k], stats[order[k]]))
  }

  /** The rows of the report made from the scanned items. */
  function ReportOf(items: seq<Record>): seq<seq<Field>> {
    [Header] + ReportBody(Departments(items), Tally(items))
  }

  /**
    The report is the header followed by one row per department in
    first-seen order; each row carries the department's item count, which is
    at least one, and its salary total, unchanged. No items: header only.
  */
  lemma ReportLayout(items: seq<Record>)
    ensures |ReportOf(items)| == |Departments(items)| + 1
    ensures ReportOf(items)[0] == Header
    ensures forall k | 0 <= k < |Departments(items)| ::
      var d := Departments(items)[k];
      && ReportOf(items)[k + 1] == DeptRow(d, Stats(CountOf(d, items), SumOf(d, items)))
      && CountOf(d, items) >= 1
    ensures items == [] ==> ReportOf(items) == [Header]
  {
  }

  /**
    Each department that occurs among the items heads exactly one data row
    of the report, and no other department heads any.
  */
  lemma OneRowPerDepartment(items: seq<Record>)
    ensures forall d :: d in DepartmentSet(items) <==>
      exists k | 1 <= k < |ReportOf(items)| :: ReportOf(items)[k][0] == Text(d)
    ensures forall k1, k2 | 1 <= k1 < k2 < |ReportOf(items)| :: ReportOf(items)[k1][0] != ReportOf(items)[k2][0]
  {
    var order := Departments(items);
    var report := ReportOf(items);
    var body := ReportBody(order, Tally(items));
    assert report == [Header] + body;
    forall k | 1 <= k < |report| ensures report[k][0] == Text(order[k - 1]) {
      assert report[k] == body[k - 1];
    }
    forall d | d in DepartmentSet(items)
      ensures exists k | 1 <= k < |report| :: report[k][0] == Text(d)
    {
      var i :| 0 <= i < |order| && order[i] == d;
      assert report[i + 1][0] == Text(d);
    }
  }

  /** The `io.StringIO` buffer behind `csv.writer`, as the rows written to it so far. */
  class CsvWriter {
    var rows: seq<seq<Field>>

    constructor ()
      ensures rows == []
    {
      rows := [];
    }

    /** `writer.writerow(row)`: appends one row. */
    method WriteRow(row: seq<Field>)
      modifies this
      ensures rows == old(rows) + [row]
    {
      rows := rows + [row];
    }
  }

  /** Writes the header, then one row per department in the dictionary's order. */
  method WriteReport(summary: DeptSummary, writer: CsvWriter)
    requires summary.Valid()
    modifies writer
    ensures writer.rows == old(writer.rows) + [Header] + ReportBody(summary.order, summary.stats)
  {
    writer.WriteRow(Header);
    for k := 0 to |summary.order|
      invariant writer.rows == old(writer.rows) + [Header] + ReportBody(summary.order[..k], summary.stats)
    {
      var dept := summary.order[k];
      writer.WriteRow(DeptRow(dept, summary.stats[dept]));
      assert ReportBody(summary.order[..k + 1], summary.stats)
        == ReportBody(summary.order[..k], summary.stats) + [DeptRow(dept, summary.stats[dept])];
    }
    assert summary.order[..|summary.order|] == summary.order;
  }

  // ---------------------------------------------------------------------
  // The report key and the handler
  // ---------------------------------------------------------------------

  const KeyPrefix := "daily_summary_"
  const KeySuffix := ".csv"

  /** `f"daily_summary_{date}.csv"`. */
  function ReportKey(date: string): string {
    KeyPrefix + date + KeySuffix
  }

  /** The date a report key names, if it is a report key at all. */
  function DateOfKey(key: string): Option<string> {
    if |key| >= |KeyPrefix| + |KeySuffix|
       && key[..|KeyPrefix|] == KeyPrefix
       && key[|key| - |KeySuffix|..] == KeySuffix
    then Some(key[|KeyPrefix|..|key| - |KeySuffix|])
    else None
  }

  /** The key names the date it was made from. */
  lemma KeyNamesDate(date: string)
    ensures DateOfKey(ReportKey(date)) == Some(date)
  {
  }

  /** Every report key is made from the date it names, so two dates never share a key. */
  lemma KeyFromDate(key: string)
    requires DateOfKey(key).Some?
    ensures ReportKey(DateOfKey(key).value) == key
  {
  }

  /** Two dates never share a report key. */
  lemma {:induction false} KeysDistinguishDates(d1: string, d2: string)
    requires ReportKey(d1) == ReportKey(d2)
    ensures d1 == d2
  {
    KeyNamesDate(d1);
    KeyNamesDate(d2);
  }

  /** The object `put_object` stores: its key and its rows. */
  datatype Upload = Upload(key: string, body: seq<seq<Field>>)

  /** The handler's return value. */
  datatype SummaryResult = SummaryResult(status: string, reportKey: string)

  /**
    `lambda_handler` with the scanned items and today's date given: it
    aggregates, writes the rows, names the object after the date, and
    answers success with the key the report was stored under.
  */
  method LambdaHandler(items: seq<Record>, today: string) returns (result: SummaryResult, upload: Upload)
    ensures upload.body == ReportOf(items)
    ensures upload.key == ReportKey(today)
    ensures DateOfKey(upload.key) == Some(today)
    ensures result == SummaryResult("success", upload.key)
  {
    var summary := Aggregate(items);
    var writer := new CsvWriter();
    WriteReport(summary, writer);
    var key := ReportKey(today);
    KeyNamesDate(today);
    upload := Upload(key, writer.rows);
    result := SummaryResult("success", key);
  }
}
