/** The refresh-token table and its statements, each of them atomic. */
module RefreshTable {
  import opened Common

  /** One saved refresh token; the id is the row's key. */
  datatype Row = Row(familyId: string, accessValue: string, idTokenValue: string, iat: int, exp: int, nonce: string)

  datatype DbError = NoRow

  /** `nextId` is the id sequence of the table: ids are handed out once. */
  datatype Table = Table(rows: map<nat, Row>, nextId: nat)

  predicate IdsBelow(t: Table) {
    forall id :: id in t.rows ==> id < t.nextId
  }

  function Insert(t: Table, row: Row): Table {
    Table(t.rows[t.nextId := row], t.nextId + 1)
  }

  function DeleteFamilyRows(t: Table, familyId: string): Table {
    t.(rows := map id | id in t.rows && t.rows[id].familyId != familyId :: t.rows[id])
  }

  /** Delete one row that must exist and insert its successor, or do neither. */
  function Rotate(t: Table, id: nat, row: Row): (Table, Result<nat, DbError>) {
    if id in t.rows then (Insert(t.(rows := t.rows - {id}), row), Ok(t.nextId)) else (t, Err(NoRow))
  }

  class Store {
    var rows: map<nat, Row>
    var nextId: nat

    ghost function Now(): Table
      reads this
    {
      Table(rows, nextId)
    }

    constructor ()
      ensures Now() == Table(map[], 0)
    {
      rows, nextId := map[], 0;
    }

    method RetrieveById(id: nat) returns (row: Option<Row>)
      ensures row == if id in rows then Some(rows[id]) else None
    {
      row := if id in rows then Some(rows[id]) else None;
    }

    /** The count of the rows a delete removed is zero or one, and zero is an error. */
    method DeleteByIdRequired(id: nat) returns (r: Result<(), DbError>)
      modifies this
      ensures r == if id in old(rows) then Ok(()) else Err(NoRow)
      ensures Now() == old(Now()).(rows := old(rows) - {id})
    {
      var count := if id in rows then 1 else 0;
      rows := rows - {id};
      r := if count == 0 then Err(NoRow) else Ok(());
    }

    method InsertReturnId(row: Row) returns (id: nat)
      modifies this
      ensures id == old(nextId) && Now() == Insert(old(Now()), row)
    {
      id := nextId;
      rows := rows[id := row];
      nextId := nextId + 1;
    }

    method DeleteByColumn(familyId: string)
      modifies this
      ensures Now() == DeleteFamilyRows(old(Now()), familyId) && nextId == old(nextId)
      ensures forall id :: id in rows <==> id in old(rows) && old(rows)[id].familyId != familyId
      ensures forall id :: id in rows ==> rows[id] == old(rows)[id]
    {
      rows := map id | id in rows && rows[id].familyId != familyId :: rows[id];
    }

    /** begin, delete, insert, commit; an error leaves the transaction uncommitted. */
    method DeleteInsertReturnIdTransaction(id: nat, row: Row) returns (r: Result<nat, DbError>)
      modifies this
      ensures (Now(), r) == Rotate(old(Now()), id, row)
      ensures id in old(rows) ==> rows == (old(rows) - {id})[old(nextId) := row] && nextId == old(nextId) + 1
      ensures id !in old(rows) ==> Now() == old(Now()) && r == Err(NoRow)
    {
      var begunRows, begunNext := rows, nextId;
      var deleted := DeleteByIdRequired(id);
      if deleted.Err? {
        rows, nextId := begunRows, begunNext;
        return Err(deleted.error);
      }
      var newId := InsertReturnId(row);
      r := Ok(newId);
    }
  }
}
