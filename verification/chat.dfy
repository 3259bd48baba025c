/** The socket handlers of one server worker, driving the `messages` table.

    Every handler runs as one atomic step. What the handlers send is kept in
    one log, `outbox`, in the order they send it: `io.emit` to every socket
    is a `Broadcast`, `socket.emit` to one socket an `Emit`, and invoking
    the client's acknowledgement callback an `Ack`. */
module Chat {
  import opened Messages
  import opened Table

  /** The identity of a connected socket. */
  type SocketId = nat

  datatype Output =
    | Broadcast(content: string, id: int)
    | Emit(to: SocketId, content: string, id: int)
    | Ack(to: SocketId)

  /** `socket.handshake.auth.serverOffset` as the client sent it: absent
      (or `undefined`/`null`), or the last id the client has seen. */
  datatype AuthOffset = Absent | Num(n: int)

  /** `serverOffset || 0`: a falsy offset (absent, `null`, `0`) becomes 0. */
  function OffsetOrZero(o: AuthOffset): int {
    match o
    case Absent => 0
    case Num(n) => n
  }

  /** A client without an offset, or with a falsy one, is replayed the
      whole table: AUTOINCREMENT ids start at 1. */
  lemma {:induction false} FalsyOffsetReplaysAll(rows: seq<Row>, o: AuthOffset)
    requires o == Absent || o == Num(0)
    requires forall r :: r in rows ==> r.id >= 1
    ensures Replay(rows, OffsetOrZero(o)) == rows
  {
    ReplayAll(rows, 0);
  }

  /** The `"chat message"` events that replaying `rows` emits to `socket`. */
  function Replayed(socket: SocketId, rows: seq<Row>): seq<Output> {
    seq(|rows|, k requires 0 <= k < |rows| => Emit(socket, rows[k].content, rows[k].id))
  }

  /** How far a replay gets: all of `sel`, or, when the read fails after
      `k` rows, only the rows delivered before the error. */
  function Delivered(sel: seq<Row>, readFault: Option<nat>): (d: seq<Row>)
    ensures readFault.None? ==> d == sel
    ensures readFault.Some? ==> |d| == if readFault.value < |sel| then readFault.value else |sel|
    ensures d == sel[..|d|]
  {
    match readFault
    case None => sel
    case Some(k) => if k < |sel| then sel[..k] else sel
  }

  /** Every id broadcast so far was assigned by the table, and ids are
      broadcast in strictly ascending order, so none is broadcast twice. */
  ghost predicate BroadcastsOnce(out: seq<Output>, issued: set<int>) {
    && (forall i :: 0 <= i < |out| && out[i].Broadcast? ==> out[i].id in issued)
    && (forall i, j :: 0 <= i < j < |out| && out[i].Broadcast? && out[j].Broadcast? ==> out[i].id < out[j].id)
  }

  /** Sending anything other than a broadcast keeps `BroadcastsOnce`. */
  lemma NonBroadcastKeepsOnce(out: seq<Output>, issued: set<int>, e: Output)
    requires BroadcastsOnce(out, issued)
    requires !e.Broadcast?
    ensures BroadcastsOnce(out + [e], issued)
  {
  }

  class ChatServer {
    /** The `messages` table, shared by every connection of this worker. */
    const table: MessageTable
    var outbox: seq<Output>
    /** Whether the undeclared global `result` of the `clear` handler has
        been assigned yet in this worker (only a successful DELETE assigns it). */
    var clearResultBound: bool

    ghost predicate Valid()
      reads this, table
    {
      && table.Valid()
      && BroadcastsOnce(outbox, table.issued)
    }

    /** A worker starting on the database `t`, which may already hold rows
        and a raised id counter from earlier runs or from other workers. */
    constructor (t: MessageTable)
      requires t.Valid()
      ensures Valid() && table == t
      ensures outbox == [] && !clearResultBound
    {
      table := t;
      outbox := [];
      clearResultBound := false;
    }

    /** The `"chat message"` handler: insert, then broadcast and ack on
        success, ack alone on a UNIQUE violation (the message is already
        stored and was broadcast then), and nothing on any other error, so
        the client retries with the same `clientOffset`. */
    method OnChatMessage(sender: SocketId, msg: string, clientOffset: Option<string>, fault: bool)
      requires Valid()
      modifies this, table
      ensures Valid()
      ensures clearResultBound == old(clearResultBound)
      // success: one new row with the next id, one broadcast of it, then the ack
      ensures !fault && old(table.counter) < MaxRowId && !Collides(old(table.rows), clientOffset) ==>
        && table.rows == old(table.rows) + [Row(old(table.counter) + 1, clientOffset, msg)]
        && table.counter == old(table.counter) + 1
        && table.issued == old(table.issued) + {table.counter}
        && outbox == old(outbox) + [Broadcast(msg, table.counter), Ack(sender)]
      // duplicate token: the ack alone, and the table is untouched
      ensures !fault && old(table.counter) < MaxRowId && Collides(old(table.rows), clientOffset) ==>
        && table.rows == old(table.rows) && table.counter == old(table.counter)
        && table.issued == old(table.issued)
        && outbox == old(outbox) + [Ack(sender)]
      // any other storage error: nothing at all
      ensures fault || old(table.counter) == MaxRowId ==>
        && table.rows == old(table.rows) && table.counter == old(table.counter)
        && table.issued == old(table.issued)
        && outbox == old(outbox)
    {
      var res := table.Insert(msg, clientOffset, fault);
      match res
      case Failed(errno) =>
        if errno == SQLITE_CONSTRAINT {
          outbox := outbox + [Ack(sender)];
        }
      case Done(lastID) =>
        outbox := outbox + [Broadcast(msg, lastID)];
        outbox := outbox + [Ack(sender)];
    }

    /** The `"clear"` handler: delete every row, then ack. The id counter is
        not reset. If the DELETE fails, the handler reads the global
        `result`; before any clear in this worker has succeeded that global
        does not exist, the read throws, and no ack is sent (`threw`). */
    method OnClear(sender: SocketId, fault: bool) returns (threw: bool)
      requires Valid()
      modifies this, table
      ensures Valid()
      ensures table.rows == (if fault then old(table.rows) else [])
      ensures table.counter == old(table.counter) && table.issued == old(table.issued)
      ensures clearResultBound == (old(clearResultBound) || !fault)
      ensures threw <==> fault && !old(clearResultBound)
      ensures outbox == old(outbox) + (if threw then [] else [Ack(sender)])
    {
      var ok := table.DeleteAll(fault);
      if ok {
        clearResultBound := true;
      } else if !clearResultBound {
        return true;
      }
      outbox := outbox + [Ack(sender)];
      threw := false;
    }

    /** The connection handler's catch-up step. A session the transport
        recovered gets nothing. Otherwise the socket alone receives every
        row with an id above `serverOffset || 0`, one event per row, in
        table order. A read error (`readFault`, after some rows) ends the
        replay early and is swallowed; the connection stays open. */
    method OnConnect(socket: SocketId, recovered: bool, offset: AuthOffset, readFault: Option<nat>)
      requires Valid()
      modifies this`outbox
      ensures Valid()
      ensures recovered ==> outbox == old(outbox)
      ensures !recovered ==>
        outbox == old(outbox) + Replayed(socket, Delivered(Replay(table.rows, OffsetOrZero(offset)), readFault))
    {
      if recovered {
        return;
      }
      var sel := Replay(table.rows, OffsetOrZero(offset));
      var upto := Delivered(sel, readFault);
      var i := 0;
      while i < |upto|
        invariant 0 <= i <= |upto|
        invariant outbox == old(outbox) + Replayed(socket, upto[..i])
        invariant BroadcastsOnce(outbox, table.issued)
      {
        NonBroadcastKeepsOnce(outbox, table.issued, Emit(socket, upto[i].content, upto[i].id));
        assert Replayed(socket, upto[..i + 1]) == Replayed(socket, upto[..i]) + [Emit(socket, upto[i].content, upto[i].id)];
        outbox := outbox + [Emit(socket, upto[i].content, upto[i].id)];
        i := i + 1;
      }
      assert upto[..i] == upto;
    }
  }

  /** A client retrying a submission with the same token, for example after
      a lost acknowledgement: the message is stored once, broadcast at most
      once, and every attempt is acknowledged. */
  method RetrySameToken(s: ChatServer, sender: SocketId, msg: string, t: string)
    requires s.Valid()
    requires s.table.counter + 1 < MaxRowId
    modifies s, s.table
    ensures s.Valid()
    ensures TokenCount(s.table.rows, t) == 1
    ensures s.table.rows == old(s.table.rows) +
      (if TokenTaken(old(s.table.rows), t) then [] else [Row(old(s.table.counter) + 1, Some(t), msg)])
    ensures s.outbox == old(s.outbox) +
      (if TokenTaken(old(s.table.rows), t) then [Ack(sender), Ack(sender)]
       else [Broadcast(msg, old(s.table.counter) + 1), Ack(sender), Ack(sender)])
  {
    ghost var taken, c, out := TokenTaken(s.table.rows, t), s.table.counter, s.outbox;
    ghost var first := if taken then [Ack(sender)] else [Broadcast(msg, c + 1), Ack(sender)];
    s.OnChatMessage(sender, msg, Some(t), false);
    assert s.outbox == out + first;
    assert TokenTaken(s.table.rows, t) by {
      if !taken {
        assert s.table.rows[|s.table.rows| - 1] in s.table.rows;
      }
    }
    s.OnChatMessage(sender, msg, Some(t), false);
    assert s.outbox == out + first + [Ack(sender)];
    TokenStoredAtMostOnce(s.table.rows, t);
  }

  /** Submissions without a token never meet the UNIQUE constraint: each
      one is stored under its own new id and broadcast. */
  method SubmitWithoutToken(s: ChatServer, sender: SocketId, msg: string)
    requires s.Valid()
    requires s.table.counter + 1 < MaxRowId
    modifies s, s.table
    ensures s.Valid()
    ensures s.table.rows == old(s.table.rows) +
      [Row(old(s.table.counter) + 1, None, msg), Row(old(s.table.counter) + 2, None, msg)]
    ensures s.outbox == old(s.outbox) +
      [Broadcast(msg, old(s.table.counter) + 1), Ack(sender),
       Broadcast(msg, old(s.table.counter) + 2), Ack(sender)]
  {
    ghost var c, out := s.table.counter, s.outbox;
    s.OnChatMessage(sender, msg, None, false);
    assert s.outbox == out + [Broadcast(msg, c + 1), Ack(sender)];
    s.OnChatMessage(sender, msg, None, false);
    assert s.outbox == out + [Broadcast(msg, c + 1), Ack(sender)] + [Broadcast(msg, c + 2), Ack(sender)];
  }

  /** A clear does not restart numbering: the first message stored after
      it gets the id after the largest one ever assigned, so a client's
      offset from before the clear never hides it. */
  method ClearThenSubmit(s: ChatServer, sender: SocketId, msg: string, t: Option<string>)
    requires s.Valid()
    requires s.table.counter < MaxRowId
    modifies s, s.table
    ensures s.Valid()
    ensures s.table.rows == [Row(old(s.table.counter) + 1, t, msg)]
    ensures s.table.counter == old(s.table.counter) + 1
    ensures s.table.issued == old(s.table.issued) + {s.table.counter}
    ensures forall i :: i in old(s.table.issued) ==> i < s.table.counter
    ensures s.outbox == old(s.outbox) + [Ack(sender), Broadcast(msg, old(s.table.counter) + 1), Ack(sender)]
  {
    ghost var out, c, iss := s.outbox, s.table.counter, s.table.issued;
    var threw := s.OnClear(sender, false);
    assert s.outbox == out + [Ack(sender)];
    assert s.table.counter == c && s.table.issued == iss;
    assert !Collides(s.table.rows, t);
    s.OnChatMessage(sender, msg, t, false);
    assert s.table.counter == c + 1 && s.table.issued == iss + {c + 1};
    assert s.outbox == out + [Ack(sender)] + [Broadcast(msg, c + 1), Ack(sender)];
    assert forall i :: i in iss ==> 1 <= i <= c;
  }

  /** A clear frees every token: a retry sent after a successful clear is
      stored again under a new id and broadcast a second time, because the
      UNIQUE constraint only sees the rows still in the table. */
  method RetryAfterClear(s: ChatServer, sender: SocketId, msg: string, t: string)
    requires s.Valid()
    requires s.table.counter + 1 < MaxRowId
    modifies s, s.table
    ensures s.Valid()
    ensures s.table.counter == old(s.table.counter) + (if TokenTaken(old(s.table.rows), t) then 1 else 2)
    ensures s.table.rows == [Row(s.table.counter, Some(t), msg)]
    ensures s.outbox == old(s.outbox) +
      (if TokenTaken(old(s.table.rows), t) then [Ack(sender)]
       else [Broadcast(msg, old(s.table.counter) + 1), Ack(sender)]) +
      [Ack(sender), Broadcast(msg, s.table.counter), Ack(sender)]
  {
    ghost var taken, c, out := TokenTaken(s.table.rows, t), s.table.counter, s.outbox;
    ghost var first := if taken then [Ack(sender)] else [Broadcast(msg, c + 1), Ack(sender)];
    s.OnChatMessage(sender, msg, Some(t), false);
    assert s.outbox == out + first;
    ghost var c1 := s.table.counter;
    assert c1 == if taken then c else c + 1;
    var threw := s.OnClear(sender, false);
    assert s.outbox == out + first + [Ack(sender)];
    assert s.table.rows == [] && s.table.counter == c1;
    assert !Collides(s.table.rows, Some(t));
    s.OnChatMessage(sender, msg, Some(t), false);
    assert s.table.counter == c1 + 1;
    assert s.outbox == out + first + [Ack(sender)] + [Broadcast(msg, c1 + 1), Ack(sender)];
  }

  /** What a non-recovered client is sent on connect, with or without a
      read error: only `Emit`s to its own socket, each carrying an id above
      its offset, in strictly ascending id order, and at most one event per
      row the query selects. */
  lemma {:induction false} ReplayEmitsAscendingAfterOffset(
    socket: SocketId, rows: seq<Row>, offset: AuthOffset, readFault: Option<nat>)
    requires Ascending(rows)
    ensures var sel := Replay(rows, OffsetOrZero(offset));
      var out := Replayed(socket, Delivered(sel, readFault));
      && |out| <= |sel|
      && (forall i :: 0 <= i < |out| ==>
            out[i].Emit? && out[i].to == socket && out[i].id > OffsetOrZero(offset))
      && (forall i, j :: 0 <= i < j < |out| ==> out[i].id < out[j].id)
  {
    var k := OffsetOrZero(offset);
    var sel := Replay(rows, k);
    var d := Delivered(sel, readFault);
    var out := Replayed(socket, d);
    ReplayAscending(rows, k);
    forall i | 0 <= i < |out|
      ensures out[i].Emit? && out[i].to == socket && out[i].id > k
    {
      assert d[i] == sel[i];
      assert sel[i] in sel;
    }
    forall i, j | 0 <= i < j < |out| ensures out[i].id < out[j].id {
      assert d[i] == sel[i] && d[j] == sel[j];
    }
  }

  /** The walk-through of the protocol on a fresh database: the first
      message gets id 1 and is broadcast to everyone; its retry under the
      same token is only acknowledged; a client connecting afresh is
      replayed exactly that message, on its own socket. */
  method Walkthrough() returns (s: ChatServer)
    ensures s.Valid()
    ensures s.table.rows == [Row(1, Some("tok-1"), "hi")]
    ensures s.outbox == [Broadcast("hi", 1), Ack(1), Ack(1), Emit(2, "hi", 1)]
  {
    var hi := Row(1, Some("tok-1"), "hi");
    var t := new MessageTable();
    s := new ChatServer(t);
    assert !TokenTaken([], "tok-1");
    RetrySameToken(s, 1, "hi", "tok-1");
    assert s.table.rows == [hi];
    s.OnConnect(2, false, Num(0), None);
    FalsyOffsetReplaysAll([hi], Num(0));
    assert Replayed(2, [hi]) == [Emit(2, "hi", 1)];
  }
}
