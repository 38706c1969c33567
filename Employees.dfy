/** The `Employees` table: one record per employee, keyed by `employee_id`. */
module Employees {

  /** An item of the table as the loader writes it; the salary is a whole number of any sign. */
  datatype Record = Record(employeeId: string, name: string, department: string, salary: int)

  /** A key-value table updated in place by `put_item`; `items` is its current contents. */
  class Table {
    var items: map<string, Record>

    /** Every item is stored under its own `employee_id`. */
    ghost predicate Valid()
      reads this
    {
      forall id | id in items :: items[id].employeeId == id
    }

    constructor (initial: map<string, Record>)
      requires forall id | id in initial :: initial[id].employeeId == id
      ensures Valid() && items == initial
    {
      items := initial;
    }

    /** `put_item`: inserts the record, or replaces the whole item already under its key. */
    method PutItem(r: Record)
      requires Valid()
      modifies this
      ensures Valid()
      ensures items == old(items)[r.employeeId := r]
    {
      items := items[r.employeeId := r];
    }
  }
}
