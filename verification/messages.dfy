/** Rows of the `messages` table and the read-only queries over them.

    The table is declared in index.js with three columns:
    `id INTEGER PRIMARY KEY AUTOINCREMENT`, `client_offset TEXT UNIQUE`
    and `content TEXT`. Rows are kept in insertion order, which (because
    AUTOINCREMENT ids only grow) is also ascending id order. */
module Messages {

  datatype Option<+T> = None | Some(value: T)

  /** The largest rowid SQLite can assign: 2^63 - 1. */
  const MaxRowId: int := 0x7FFF_FFFF_FFFF_FFFF

  /** One row of `messages`. `token` is the `client_offset` column, which
      the client may leave NULL (`None`). */
  datatype Row = Row(id: int, token: Option<string>, content: string)

  /** Ids strictly ascending along the sequence. */
  ghost predicate Ascending(rows: seq<Row>) {
    forall i, j :: 0 <= i < j < |rows| ==> rows[i].id < rows[j].id
  }

  /** The UNIQUE constraint on `client_offset`: no two rows carry the same
      non-NULL token. Any number of NULL tokens may coexist. */
  ghost predicate TokensUnique(rows: seq<Row>) {
    forall i, j :: 0 <= i < j < |rows| && rows[i].token.Some? ==> rows[i].token != rows[j].token
  }

  /** Some row already carries the non-NULL token `t`. */
  predicate TokenTaken(rows: seq<Row>, t: string) {
    exists r | r in rows :: r.token == Some(t)
  }

  /** Inserting `token` would violate the UNIQUE constraint. A NULL token never does. */
  predicate Collides(rows: seq<Row>, token: Option<string>) {
    token.Some? && TokenTaken(rows, token.value)
  }

  /** The number of rows whose `client_offset` is `t`. */
  function TokenCount(rows: seq<Row>, t: string): nat {
    if rows == [] then 0
    else (if rows[0].token == Some(t) then 1 else 0) + TokenCount(rows[1..], t)
  }

  /** Under the UNIQUE constraint a token is stored exactly once if it is
      stored at all: this is what makes a retried submission harmless. */
  lemma {:induction false} TokenStoredAtMostOnce(rows: seq<Row>, t: string)
    requires TokensUnique(rows)
    ensures TokenCount(rows, t) == if TokenTaken(rows, t) then 1 else 0
  {
    if rows != [] {
      var tail := rows[1..];
      assert TokensUnique(tail) by {
        forall i, j | 0 <= i < j < |tail| && tail[i].token.Some?
          ensures tail[i].token != tail[j].token
        {
          assert tail[i] == rows[i + 1] && tail[j] == rows[j + 1];
        }
      }
      TokenStoredAtMostOnce(tail, t);
      if rows[0].token == Some(t) {
        assert !TokenTaken(tail, t);
        assert TokenTaken(rows, t) by { assert rows[0] in rows; }
      } else {
        assert TokenTaken(rows, t) == TokenTaken(tail, t) by {
          if TokenTaken(rows, t) {
            var r :| r in rows && r.token == Some(t);
            assert r in tail by {
              var i :| 0 <= i < |rows| && rows[i] == r;
              assert i != 0;
              assert tail[i - 1] == r;
            }
          }
          if TokenTaken(tail, t) {
            var r :| r in tail && r.token == Some(t);
            assert r in rows;
          }
        }
      }
    }
  }

  /** The replay query `SELECT id, content FROM messages WHERE id > ?`:
      the rows with an id above `after`, in table order. */
  function Replay(rows: seq<Row>, after: int): (r: seq<Row>)
    ensures |r| <= |rows|
    ensures forall x :: x in r <==> x in rows && x.id > after
  {
    if rows == [] then []
    else
      var rest := Replay(rows[1..], after);
      assert forall x :: x in rows <==> x == rows[0] || x in rows[1..];
      if rows[0].id > after then [rows[0]] + rest else rest
  }

  /** Replay keeps table order, so on an ascending table it delivers the
      missed rows in ascending id order, each exactly once. */
  lemma {:induction false} ReplayAscending(rows: seq<Row>, after: int)
    requires Ascending(rows)
    ensures Ascending(Replay(rows, after))
  {
    if rows != [] {
      var tail := rows[1..];
      assert Ascending(tail) by {
        forall i, j | 0 <= i < j < |tail| ensures tail[i].id < tail[j].id {
          assert tail[i] == rows[i + 1] && tail[j] == rows[j + 1];
        }
      }
      ReplayAscending(tail, after);
      var rest := Replay(tail, after);
      if rows[0].id > after {
        forall j | 0 <= j < |rest| ensures rows[0].id < rest[j].id {
          assert rest[j] in tail;
          var k :| 0 <= k < |tail| && tail[k] == rest[j];
          assert rows[k + 1] == rest[j];
        }
        PrependAscending(rows[0], rest);
      }
    }
  }

  /** Putting a row with a smaller id in front keeps a sequence ascending. */
  lemma PrependAscending(first: Row, rest: seq<Row>)
    requires Ascending(rest)
    requires forall j :: 0 <= j < |rest| ==> first.id < rest[j].id
    ensures Ascending([first] + rest)
  {
  }

  /** On an ascending table, replay is exactly the suffix of rows after the
      offset: every row it skips has an id at or below the offset, so the
      client gets no gap and no duplicate. */
  lemma {:induction false} ReplayIsSuffix(rows: seq<Row>, after: int)
    requires Ascending(rows)
    ensures Replay(rows, after) == rows[|rows| - |Replay(rows, after)|..]
    ensures forall i :: 0 <= i < |rows| - |Replay(rows, after)| ==> rows[i].id <= after
  {
    if rows != [] {
      var tail := rows[1..];
      assert Ascending(tail) by {
        forall i, j | 0 <= i < j < |tail| ensures tail[i].id < tail[j].id {
          assert tail[i] == rows[i + 1] && tail[j] == rows[j + 1];
        }
      }
      if rows[0].id > after {
        forall r | r in rows ensures r.id > after {
          var i :| 0 <= i < |rows| && rows[i] == r;
          if i > 0 {
            assert rows[0].id < rows[i].id;
          }
        }
        ReplayAll(rows, after);
      } else {
        ReplayIsSuffix(tail, after);
        var n := |Replay(tail, after)|;
        assert rows[|rows| - n..] == tail[|tail| - n..];
        forall i | 0 <= i < |rows| - n ensures rows[i].id <= after {
          if i > 0 { assert rows[i] == tail[i - 1]; }
        }
      }
    }
  }

  /** A client that has seen every row up to id `k` and reconnects with
      offset `k` is replayed exactly the rows inserted after them: nothing
      is missed and nothing is sent twice. */
  lemma {:induction false} ReplayAfterSeen(seen: seq<Row>, later: seq<Row>, k: int)
    requires forall r :: r in seen ==> r.id <= k
    requires forall r :: r in later ==> r.id > k
    ensures Replay(seen + later, k) == later
  {
    if seen == [] {
      assert seen + later == later;
      ReplayAll(later, k);
    } else {
      assert (seen + later)[1..] == seen[1..] + later;
      assert seen[0] in seen;
      ReplayAfterSeen(seen[1..], later, k);
    }
  }

  /** Rows that are all past the offset are all replayed, in order. */
  lemma {:induction false} ReplayAll(rows: seq<Row>, k: int)
    requires forall r :: r in rows ==> r.id > k
    ensures Replay(rows, k) == rows
  {
    if rows != [] {
      assert rows[0] in rows;
      ReplayAll(rows[1..], k);
      assert [rows[0]] + rows[1..] == rows;
    }
  }
}
