/**
  The loader (`lambda/process_csv.py`): every parsed CSV row becomes one
  `put_item` into the `Employees` table, in file order, until a row lacks a
  column or carries a salary that `int()` refuses; that row raises, and the
  rows after it are never looked at. Rows already written stay written.
*/
module ProcessCsv {
  import opened Wrappers
  import opened PyInt
  import opened Employees

  /** A row as `csv.DictReader` yields it: column name to field text. */
  type Row = map<string, string>

  /** The exception that ends the loop: KeyError on a column, or ValueError from `int()`. */
  datatype IngestError = MissingColumn(column: string) | BadSalary(text: string)

  /** Whether the row names `id` in its `employee_id` column. */
  predicate Mentions(row: Row, id: string) {
    "employee_id" in row && row["employee_id"] == id
  }

  /**
    The item built from one row: the four columns are read in the order
    employee_id, name, department, salary, and then the salary text is
    converted with `int()`.
  */
  function ToRecord(row: Row): (r: Result<Record, IngestError>)
    ensures r.Success? <==>
      && "employee_id" in row && "name" in row && "department" in row && "salary" in row
      && ParseInt(row["salary"]).Some?
    ensures r.Success? ==>
      && r.value.employeeId == row["employee_id"]
      && r.value.name == row["name"]
      && r.value.department == row["department"]
      && Some(r.value.salary) == ParseInt(row["salary"])
    ensures r.Failure? && r.error.BadSalary? ==>
      && "employee_id" in row && "name" in row && "department" in row && "salary" in row
      && r.error.text == row["salary"]
      && ParseInt(row["salary"]).None?
    ensures r.Failure? && r.error.MissingColumn? ==>
      && r.error.column !in row
      && (|| r.error.column == "employee_id"
          || ("employee_id" in row
              && (|| r.error.column == "name"
                  || ("name" in row
                      && (|| r.error.column == "department"
                          || ("department" in row && r.error.column == "salary"))))))
  {
    if "employee_id" !in row then Failure(MissingColumn("employee_id"))
    else if "name" !in row then Failure(MissingColumn("name"))
    else if "department" !in row then Failure(MissingColumn("department"))
    else if "salary" !in row then Failure(MissingColumn("salary"))
    else match ParseInt(row["salary"])
      case None => Failure(BadSalary(row["salary"]))
      case Some(n) => Success(Record(row["employee_id"], row["name"], row["department"], n))
  }

  /** What a run leaves behind: the table, how many rows were written, and the exception if one was raised. */
  datatype Outcome = Outcome(table: map<string, Record>, written: nat, error: Option<IngestError>)

  /**
    The loop of `lambda_handler` as a fold over the rows, starting from the
    table `t`: each row is upserted in turn, and the first row that raises
    stops the fold with the table as it was.
  */
  function Load(t: map<string, Record>, rows: seq<Row>): Outcome {
    if rows == [] then Outcome(t, 0, None)
    else
      var before := Load(t, rows[..|rows| - 1]);
      if before.error.Some? then before
      else match ToRecord(rows[|rows| - 1])
        case Failure(e) => Outcome(before.table, before.written, Some(e))
        case Success(r) => Outcome(before.table[r.employeeId := r], before.written + 1, None)
  }

  /**
    `lambda_handler`'s loop: for each row, build the item and `put_item` it.
    Answers the exception of the row that stopped it, or else the number of
    rows written; that count is the model's own answer (the handler itself
    returns nothing after the loop).
  */
  method Ingest(table: Table, rows: seq<Row>) returns (result: Result<nat, IngestError>)
    requires table.Valid()
    modifies table
    ensures table.Valid()
    ensures table.items == Load(old(table.items), rows).table
    ensures match Load(old(table.items), rows).error
      case None => result == Success(|rows|)
      case Some(e) => result == Failure(e)
  {
    ghost var t := table.items;
    var i := 0;
    while i < |rows|
      invariant 0 <= i <= |rows|
      invariant table.Valid()
      invariant Load(t, rows[..i]) == Outcome(table.items, i, None)
    {
      assert rows[..i + 1][..i] == rows[..i];
      var item := ToRecord(rows[i]);
      if item.Failure? {
        LoadStopsAtError(t, rows, i + 1);
        return Failure(item.error);
      }
      table.PutItem(item.value);
      i := i + 1;
    }
    assert rows[..i] == rows;
    result := Success(i);
  }

  /** Once a row has raised, the rows after it change nothing. */
  lemma {:induction false} LoadStopsAtError(t: map<string, Record>, rows: seq<Row>, k: nat)
    requires k <= |rows|
    requires Load(t, rows[..k]).error.Some?
    ensures Load(t, rows) == Load(t, rows[..k])
  {
    if k < |rows| {
      var init := rows[..|rows| - 1];
      assert init[..k] == rows[..k];
      LoadStopsAtError(t, init, k);
    } else {
      assert rows[..k] == rows;
    }
  }

  /** Rows are applied strictly in order: loading `a + b` is loading `a`, then `b` on the result. */
  lemma {:induction false} LoadAppend(t: map<string, Record>, a: seq<Row>, b: seq<Row>)
    ensures Load(t, a + b) ==
      var first := Load(t, a);
      if first.error.Some? then first
      else
        var second := Load(first.table, b);
        Outcome(second.table, first.written + second.written, second.error)
  {
    if b == [] {
      assert a + b == a;
    } else {
      var init := b[..|b| - 1];
      assert (a + b)[..|a + b| - 1] == a + init;
      assert (a + b)[|a + b| - 1] == b[|b| - 1];
      LoadAppend(t, a, init);
    }
  }

  /** The item of a row that does not raise. */
  function ItemOf(row: Row): Record
    requires ToRecord(row).Success?
  {
    ToRecord(row).value
  }

  /** The index of the last row that names `id`, or -1 when none does. */
  function LastRowWith(id: string, rows: seq<Row>): (k: int)
    ensures -1 <= k < |rows|
    ensures k >= 0 ==> Mentions(rows[k], id)
    ensures forall j | k < j < |rows| :: !Mentions(rows[j], id)
  {
    if rows == [] then -1
    else if Mentions(rows[|rows| - 1], id) then |rows| - 1
    else LastRowWith(id, rows[..|rows| - 1])
  }

  /**
    Last write wins: when no row raises, every row is written, and each
    `employee_id` holds the item built from the last row that names it;
    an id no row names keeps what the table had, or stays absent.
  */
  lemma {:induction false} LastWriteWins(t: map<string, Record>, rows: seq<Row>, id: string)
    requires forall i | 0 <= i < |rows| :: ToRecord(rows[i]).Success?
    ensures Load(t, rows).error == None && Load(t, rows).written == |rows|
    ensures LastRowWith(id, rows) >= 0 ==>
      && id in Load(t, rows).table
      && Load(t, rows).table[id] == ItemOf(rows[LastRowWith(id, rows)])
    ensures LastRowWith(id, rows) < 0 ==>
      && (id in Load(t, rows).table <==> id in t)
      && (id in t ==> Load(t, rows).table[id] == t[id])
  {
    if rows != [] {
      var init := rows[..|rows| - 1];
      var last := ItemOf(rows[|rows| - 1]);
      forall i | 0 <= i < |init| ensures ToRecord(init[i]).Success? {
        assert init[i] == rows[i];
      }
      LastWriteWins(t, init, id);
      var before := Load(t, init);
      assert Load(t, rows) == Outcome(before.table[last.employeeId := last], before.written + 1, None);
      if Mentions(rows[|rows| - 1], id) {
        assert last.employeeId == id;
      } else {
        assert last.employeeId != id;
        assert LastRowWith(id, rows) == LastRowWith(id, init);
        if LastRowWith(id, init) >= 0 {
          assert init[LastRowWith(id, init)] == rows[LastRowWith(id, rows)];
        }
      }
    }
  }

  /** A key that no row names is left exactly as it was, whether or not the run raised. */
  lemma {:induction false} UnmentionedKeysUnchanged(t: map<string, Record>, rows: seq<Row>, id: string)
    requires forall i | 0 <= i < |rows| :: !Mentions(rows[i], id)
    ensures id in Load(t, rows).table <==> id in t
    ensures id in t ==> Load(t, rows).table[id] == t[id]
  {
    if rows != [] {
      UnmentionedKeysUnchanged(t, rows[..|rows| - 1], id);
    }
  }

  /**
    Fail-fast without rollback: when row `k` is the first that raises, the
    rows before it are all written, the table is what they make of it, and
    neither row `k` nor any later row is written.
  */
  lemma {:induction false} AbortKeepsPrefix(t: map<string, Record>, rows: seq<Row>, k: nat)
    requires k < |rows|
    requires forall i | 0 <= i < k :: ToRecord(rows[i]).Success?
    requires ToRecord(rows[k]).Failure?
    ensures Load(t, rows[..k]).error == None
    ensures Load(t, rows) == Outcome(Load(t, rows[..k]).table, k, Some(ToRecord(rows[k]).error))
  {
    LastWriteWins(t, rows[..k], "");
    assert rows[..k + 1][..k] == rows[..k];
    LoadStopsAtError(t, rows, k + 1);
  }

  /** Nothing is deleted, and each written row adds at most one key. */
  lemma {:induction false} KeysGrowth(t: map<string, Record>, rows: seq<Row>)
    ensures Load(t, rows).written <= |rows|
    ensures t.Keys <= Load(t, rows).table.Keys
    ensures |Load(t, rows).table.Keys| <= |t.Keys| + Load(t, rows).written
  {
    if rows != [] {
      var init := rows[..|rows| - 1];
      KeysGrowth(t, init);
      var before := Load(t, init);
      if before.error.None? && ToRecord(rows[|rows| - 1]).Success? {
        var r := ToRecord(rows[|rows| - 1]).value;
        assert before.table[r.employeeId := r].Keys == before.table.Keys + {r.employeeId};
      }
    }
  }

  /** Every item the loader produces sits under its own `employee_id`. */
  lemma {:induction false} LoadKeepsKeys(t: map<string, Record>, rows: seq<Row>)
    requires forall id | id in t :: t[id].employeeId == id
    ensures forall id | id in Load(t, rows).table :: Load(t, rows).table[id].employeeId == id
  {
    if rows != [] {
      var init := rows[..|rows| - 1];
      LoadKeepsKeys(t, init);
      var before := Load(t, init);
      if before.error.None? && ToRecord(rows[|rows| - 1]).Success? {
        var r := ToRecord(rows[|rows| - 1]).value;
        var after := before.table[r.employeeId := r];
        assert Load(t, rows).table == after;
        forall id | id in after ensures after[id].employeeId == id {
          if id != r.employeeId {
            assert after[id] == before.table[id];
          }
        }
      } else {
        assert Load(t, rows).table == before.table;
      }
    }
  }

  /** Whether the rows all build items and no two of them carry the same `employee_id`. */
  predicate DistinctValidRows(rows: seq<Row>) {
    && (forall i | 0 <= i < |rows| :: ToRecord(rows[i]).Success?)
    && (forall i, j | 0 <= i < j < |rows| :: ItemOf(rows[i]).employeeId != ItemOf(rows[j]).employeeId)
  }

  /**
    N valid rows with N distinct ids, none of them already in the table,
    add exactly N items, each one equal to the item built from its row.
  */
  lemma DistinctRowsAllStored(t: map<string, Record>, rows: seq<Row>)
    requires DistinctValidRows(rows)
    requires forall i | 0 <= i < |rows| :: ItemOf(rows[i]).employeeId !in t
    ensures Load(t, rows).error == None
    ensures |Load(t, rows).table| == |t| + |rows|
    ensures forall i | 0 <= i < |rows| ::
      && ItemOf(rows[i]).employeeId in Load(t, rows).table
      && Load(t, rows).table[ItemOf(rows[i]).employeeId] == ItemOf(rows[i])
  {
    DistinctRowsCount(t, rows);
    forall i | 0 <= i < |rows|
      ensures ItemOf(rows[i]).employeeId in Load(t, rows).table
      ensures Load(t, rows).table[ItemOf(rows[i]).employeeId] == ItemOf(rows[i])
    {
      var id := ItemOf(rows[i]).employeeId;
      assert LastRowWith(id, rows) == i by {
        assert Mentions(rows[i], id);
      }
      LastWriteWins(t, rows, id);
    }
  }

  lemma {:induction false} DistinctRowsCount(t: map<string, Record>, rows: seq<Row>)
    requires DistinctValidRows(rows)
    requires forall i | 0 <= i < |rows| :: ItemOf(rows[i]).employeeId !in t
    ensures Load(t, rows).error == None
    ensures |Load(t, rows).table| == |t| + |rows|
  {
    if rows != [] {
      var init := rows[..|rows| - 1];
      var last := ItemOf(rows[|rows| - 1]);
      assert DistinctValidRows(init) by {
        forall i | 0 <= i < |init| ensures init[i] == rows[i] { }
      }
      DistinctRowsCount(t, init);
      forall i | 0 <= i < |init| ensures !Mentions(init[i], last.employeeId) {
        assert ItemOf(rows[i]).employeeId != last.employeeId;
      }
      UnmentionedKeysUnchanged(t, init, last.employeeId);
      var before := Load(t, init).table;
      assert Load(t, rows).table == before[last.employeeId := last];
      assert before[last.employeeId := last].Keys == before.Keys + {last.employeeId};
    }
  }

}
