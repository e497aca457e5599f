/**
  The `students` table: rows keyed by an integer PRIMARY KEY `id`, each
  holding a `name`. An INSERT whose id is already present violates the key
  and raises; the row already there stays as it was.
 */
module StudentStore {

  /** The table after `INSERT INTO students (id, name)`: a new id gains the
      row, a duplicate id leaves the table as it was. */
  function InsertRow(rows: map<int, string>, id: int, name: string): (r: map<int, string>)
    ensures r.Keys == rows.Keys + {id}
    ensures forall k :: k in rows ==> r[k] == rows[k]
    ensures id !in rows ==> r[id] == name
  {
    if id in rows then rows else rows[id := name]
  }

  /** Inserting the same id a second time changes nothing, whatever the name:
      the first insert wins. */
  lemma FirstInsertWins(rows: map<int, string>, id: int, first: string, second: string)
    ensures InsertRow(InsertRow(rows, id, first), id, second) == InsertRow(rows, id, first)
    ensures InsertRow(InsertRow(rows, id, first), id, second)[id]
         == (if id in rows then rows[id] else first)
  {
  }

  /** The persistent table, updated in place by each INSERT. */
  class StudentTable {
    var rows: map<int, string>

    constructor (existing: map<int, string>)
      ensures rows == existing
    {
      rows := existing;
    }

    /** Runs the INSERT; `inserted` is false when the primary key rejected it. */
    method Insert(id: int, name: string) returns (inserted: bool)
      modifies this
      ensures inserted <==> id !in old(rows)
      ensures rows == InsertRow(old(rows), id, name)
      ensures inserted ==> rows == old(rows)[id := name]
      ensures !inserted ==> rows == old(rows)
    {
      if id in rows {
        inserted := false;
      } else {
        rows := rows[id := name];
        inserted := true;
      }
    }
  }
}
