# Chat relay: exactly-once storage and reconnect replay

This project models the delivery-and-recovery protocol of a small Socket.IO
chat server backed by SQLite (`index.js`). Clients send a message together
with a client-generated token (`clientOffset`). The server stores it in the
`messages` table, whose `client_offset` column is UNIQUE, broadcasts it with
its AUTOINCREMENT id, and acknowledges the sender. A retry under the same
token is acknowledged but neither stored nor broadcast again, as long as the
first row is still stored. A client whose session the transport could not
recover is replayed, on its own socket, every row whose id is above the last
id it reports having seen.

- `messages.dfy` (module `Messages`): rows, the UNIQUE rule on tokens (NULL
  tokens never collide), and the replay query `WHERE id > ?` as the function
  `Replay`, with lemmas on its contents and order.
- `table.dfy` (module `Table`): class `MessageTable`, the table plus its
  AUTOINCREMENT counter (SQLite's `sqlite_sequence` entry). Ids are never
  reused, and `DELETE` does not lower the counter. A ghost set `issued`
  records every id ever assigned; the table invariant makes it exactly the
  ids 1 to the counter.
- `chat.dfy` (module `Chat`): class `ChatServer`, the handlers of one worker
  process. Everything they send goes into one ordered log, `outbox`. An
  `io.emit` becomes a `Broadcast`, a `socket.emit` an `Emit` to one socket,
  and a call of the client's callback an `Ack`. The invariant `BroadcastsOnce`
  says every broadcast id was assigned by the table, and ids are broadcast
  in strictly ascending order, so no id is broadcast twice. The file ends
  with multi-step client scenarios.

Storage faults, read faults and the connection's `recovered` flag are inputs
to the handlers. The model fixes no particular fault behaviour.

Three points where the code is looser than the protocol's intent, and the
model follows the code:
- The code does not require a token. A NULL `client_offset` is stored, and
  any number of NULL rows coexist.
- The replay query has no `ORDER BY`. `Replay` returns rows in table
  order. Ids only grow and rows are appended, so the table is in ascending
  id order, and `ReplayAscending` proves the replay is too.
- Deduplication only sees the rows currently in the table. A clear deletes
  them and so frees every token: a retry sent after a clear is stored again
  under a new id and broadcast a second time (`RetryAfterClear`).

## Model

| member | source | states |
|---|---|---|
| `Messages.TokenStoredAtMostOnce` | index.js:33 | Under the UNIQUE constraint, a non-NULL token is stored in exactly one row if it is stored at all, and in none otherwise |
| `Messages.Replay` | index.js:97-99 | The replay selection holds exactly the table's rows whose id is above the offset, and no more rows than the table |
| `Messages.ReplayAscending` | index.js:97-103 | On a table in ascending id order, replayed rows come out in strictly ascending id order, so each row is sent once |
| `Messages.ReplayIsSuffix` | index.js:97-103 | On an ascending table, the replay is exactly a suffix of the table, and every row before that suffix has an id at or below the offset: no gap, no duplicate |
| `Messages.ReplayAll` | index.js:98 | When every row is past the offset, the replay is the whole sequence of rows, in order |
| `Messages.ReplayAfterSeen` | index.js:94-103 | A client that saw every row up to id k and reconnects with offset k is replayed exactly the rows stored after those |
| `Table.MessageTable.constructor` | index.js:30-36 | A freshly created table has no rows, a counter of 0 and no ids issued |
| `Table.MessageTable.Insert` | index.js:69-73 | Succeeds exactly when there is no storage fault, the counter is below 2^63-1 and the token does not collide. On success, the new id is counter+1, above every id ever issued, and the row is appended. Otherwise the errno is SQLITE_IOERR, SQLITE_FULL or SQLITE_CONSTRAINT (19), and the rows, counter and issued set are unchanged |
| `Table.MessageTable.DeleteAll` | index.js:57 | A successful `DELETE FROM messages` empties the table. A failed one changes nothing. Either way the counter and the issued ids stay as they were |
| `Chat.FalsyOffsetReplaysAll` | index.js:99 | An absent offset or an offset of 0 is read as 0, and the client is replayed the whole table, because ids start at 1 |
| `Chat.ReplayEmitsAscendingAfterOffset` | index.js:94-108 | On an ascending table, what a non-recovered client is sent on connect, whether or not a read error cuts it short, is only `Emit`s to its own socket, at most one per selected row, each with an id above its offset, in strictly ascending id order |
| `Chat.ChatServer.constructor` | index.js:24-36 | A worker starts on a database that may already hold rows and a raised id counter, with an empty outbox and the clear handler's global `result` still unassigned |
| `Chat.ChatServer.OnChatMessage` | index.js:66-92 | Success: the row (counter+1, token, msg) is appended, then exactly one `Broadcast(msg, id)` is sent, then `Ack(sender)`. Duplicate token: `Ack(sender)` alone, table unchanged. Any other error: no output and no change. The broadcast-once invariant is kept |
| `Chat.ChatServer.OnClear` | index.js:55-64 | Success: the table is empty, the counter is unchanged, and `Ack(sender)` is sent. On a failed DELETE the table is unchanged. The handler acks if an earlier clear in this worker assigned the global `result`, and throws without an ack otherwise |
| `Chat.ChatServer.OnConnect` | index.js:94-109 | A recovered session gets nothing. Otherwise the socket alone gets one `Emit` per row of `Replay(rows, OffsetOrZero(serverOffset))`, in order, truncated at a read error. The error is swallowed. There is no broadcast, no ack and no table change |
| `Chat.RetrySameToken` | index.js:66-92 | Two submissions under the same token store it exactly once, broadcast it at most once (only if it was new), and ack both attempts |
| `Chat.SubmitWithoutToken` | index.js:69-73 | Two submissions without a token are both stored, under consecutive new ids, and both broadcast and acked |
| `Chat.RetryAfterClear` | index.js:55-92 | A submission, a successful clear, then a retry under the same token: the retry is stored again under the next new id and broadcast a second time, and each step is acked; the table ends holding only that new row |
| `Chat.ClearThenSubmit` | index.js:55-92 | After a successful clear, the next message gets the id after the largest one ever assigned, the counter rises by one and that id joins the issued ids: numbering is not reset |
| `Chat.Walkthrough` | index.js:66-109 | On a fresh database: "hi" gets id 1 and is broadcast and acked. Its retry is only acked. A fresh client connecting with offset 0 is replayed exactly ("hi", 1) on its own socket |

## Left out

- Cluster forking, per-port workers and `server.listen` (index.js:11-22, 113-117): process topology. The model is one worker. The table it holds stands for the database that all workers share.
- Express routing and the static page (index.js:38-39, 46-48): HTTP plumbing.
- The Socket.IO server and cluster adapter (index.js:40-44): an external library. `io.emit` is modelled only as a `Broadcast` entry in the log, and delivery across processes is not modelled.
- The disconnect handler and every `console.log`/`console.error` (index.js:51-53 and throughout): logging only.
- Concurrency: the handlers' async interleaving, and races between concurrent inserts of one token. SQLite serialises those. Each handler is one atomic step.
- SQLite internals: the driver, file I/O and the `db.each` callback mechanics. Any non-constraint storage fault is one `fault` input, reported as SQLITE_IOERR. A read fault is an `Option<nat>` input: the number of rows delivered before the error. What the row callback does with its ignored error argument is not modelled.
- Check order inside SQLite: the model checks for a storage fault first, then id exhaustion (SQLITE_FULL), then the UNIQUE constraint.
- Offsets that are neither absent nor an integer (strings, fractions, `NaN`, `false`): `AuthOffset` has only `Absent` and `Num(n)`.
- Values of `msg` and `clientOffset` that are not strings: SQLite's TEXT affinity conversion is not modelled.
- A client that sends no acknowledgement callback: calling `callback` would then throw. The model assumes every request carries one.
- Recovered sessions: the transport's own buffering of missed packets belongs to Socket.IO and is not modelled. The model states only that the handler sends nothing.
- Chat.RetrySameToken: requires the counter to be at least two below 2^63-1. Otherwise the first attempt could take the last id, and the retry would fail with SQLITE_FULL and get no ack, as `Insert` states.
- Chat.SubmitWithoutToken: requires room for two more ids, for the same reason.
- Chat.RetryAfterClear: requires room for two more ids, for the same reason.
- Chat.ClearThenSubmit: covers the case where the clear and the insert both succeed. The fault cases are covered by `OnClear` and `OnChatMessage`.
- Ids above 2^53: the model carries exact ids up to 2^63-1 in `Broadcast` and `Emit`. In JavaScript, `result.lastID` (index.js:90) and `row.id` (index.js:101) are Numbers, exact only up to 2^53. Beyond that, the sent ids are rounded, and a client echoing a rounded offset could be replayed a row twice or miss one. The model does not capture this rounding.
- Chat.ChatServer.OnClear: when `threw` holds, the model's worker stays valid and keeps handling events. In the source the ReferenceError rejects the promise of an async listener that nothing catches. Depending on the Node runtime, the unhandled rejection may end the worker process and all its connections. The model does not capture that.
