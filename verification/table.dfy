/** The `messages` table as SQLite keeps it: the rows, and the
    AUTOINCREMENT counter (the table's entry in `sqlite_sequence`), which
    holds the largest id ever assigned and is never lowered, not even by
    `DELETE FROM messages`. */
module Table {
  import opened Messages

  /** SQLite result codes reported in `errno` by the driver. */
  const SQLITE_IOERR: int := 10
  const SQLITE_FULL: int := 13
  const SQLITE_CONSTRAINT: int := 19

  /** What `db.run` resolves to (`lastID`) or rejects with (`errno`). */
  datatype RunResult = Done(lastID: int) | Failed(errno: int)

  class MessageTable {
    var rows: seq<Row>
    /** Largest id ever assigned; 0 before the first insert. */
    var counter: int
    /** Every id ever assigned, including those of rows since deleted. */
    ghost var issued: set<int>

    ghost predicate Valid()
      reads this
    {
      && 0 <= counter <= MaxRowId
      && Ascending(rows)
      && TokensUnique(rows)
      && (forall r :: r in rows ==> r.id in issued)
      && (forall i :: i in issued <==> 1 <= i <= counter)
    }

    /** `CREATE TABLE IF NOT EXISTS messages (...)` on a fresh database. */
    constructor ()
      ensures Valid()
      ensures rows == [] && counter == 0 && issued == {}
    {
      rows := [];
      counter := 0;
      issued := {};
    }

    /** `INSERT INTO messages (content, client_offset) VALUES (?, ?)`.
        `fault` stands for any storage error other than a constraint
        violation (I/O, corruption, a locked database). The new id is one
        more than the largest id ever assigned; once that would pass
        2^63 - 1, SQLite reports SQLITE_FULL. */
    method Insert(content: string, token: Option<string>, fault: bool) returns (res: RunResult)
      requires Valid()
      modifies this
      ensures Valid()
      ensures res.Done? <==> !fault && old(counter) < MaxRowId && !Collides(old(rows), token)
      ensures res.Done? ==>
        && res.lastID == old(counter) + 1
        && (forall i :: i in old(issued) ==> i < res.lastID)
        && rows == old(rows) + [Row(res.lastID, token, content)]
        && counter == res.lastID
        && issued == old(issued) + {res.lastID}
      ensures res.Failed? ==>
        && res.errno == (if fault then SQLITE_IOERR
                         else if old(counter) == MaxRowId then SQLITE_FULL
                         else SQLITE_CONSTRAINT)
        && rows == old(rows) && counter == old(counter) && issued == old(issued)
    {
      if fault {
        return Failed(SQLITE_IOERR);
      }
      if counter == MaxRowId {
        return Failed(SQLITE_FULL);
      }
      if Collides(rows, token) {
        return Failed(SQLITE_CONSTRAINT);
      }
      var id := counter + 1;
      var row := Row(id, token, content);
      forall i, j | 0 <= i < j < |rows + [row]| && (rows + [row])[i].token.Some?
        ensures (rows + [row])[i].token != (rows + [row])[j].token
      {
        if j == |rows| {
          assert rows[i] in rows;
        }
      }
      rows := rows + [row];
      counter := id;
      issued := issued + {id};
      res := Done(id);
    }

    /** `DELETE FROM messages`: every row goes, the AUTOINCREMENT counter
        stays. A failed statement changes nothing. */
    method DeleteAll(fault: bool) returns (ok: bool)
      requires Valid()
      modifies this
      ensures Valid()
      ensures ok == !fault
      ensures rows == (if ok then [] else old(rows))
      ensures counter == old(counter) && issued == old(issued)
    {
      if fault {
        return false;
      }
      rows := [];
      ok := true;
    }
  }
}
