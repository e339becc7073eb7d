# Chat gateway model

A Dafny model of the chat gateway in `server.js` of the stargaze server: the
WebSocket `connection`, `message` and `close` handlers, the ban-table
handlers (`/api/admin/ban`, `/api/admin/unban/:ip`, `/api/admin/banned`) and
the recent-history query (`/api/messages`).

Node runs each handler to completion on one thread, so the model is one
sequential class, `Gateway.ChatServer`, whose methods are the handlers. Its
fields are the shared state:

- `bans`: the `banned_users` table, a map from ip to (reason, optional expiry);
- `log` and `nextId`: the `messages` table in id order and its AUTOINCREMENT counter;
- `clients`: the `clients` Set, a duplicate-free sequence in insertion order,
  because `for ... of` over a Set visits members in that order;
- `admitted`: the connections that passed the ban check and so carry
  `message` and `close` handlers;
- `sockets` and `nextConn`: the transport's view of each connection (address,
  whether `readyState` is OPEN, the payloads sent to it).

Whatever the server cannot see is a parameter: whether the INSERT throws
(`insertOk`), the database clock (`dbTime`), the JavaScript clock
(`sentAt`), and the set of sockets whose `send` throws during a broadcast
(`failing`). `ChatServer.Valid()` is the invariant every handler keeps: the
log's ids strictly increase and lie below `nextId`; registered clients are
admitted and distinct; every connection that was not admitted is closed and
has received exactly the ban notice; and every chat payload in any outbox is
a record of the log (persist happens before broadcast).

Modules: `Types` (shared names), `Protocol` (decoded frames and outgoing
payloads), `BanTable`, `MessageLog`, `Registry` (the clients set and the
broadcast loop as functions), `Gateway` (the server class).
`Gateway.Session` states and verifies a short session: an admitted client, a ban, a
refused client, one chat echoed with id 1, and the history holding it.

The model follows the code as written; in particular:

- the ban check consults only the presence of a row, never `expires_at`,
  and no handler ever sets `expires_at`;
- a `send` that throws inside the broadcast loop ends the loop, so later
  clients miss the message; the failing client is not unregistered;
- empty usernames and texts are accepted.

## Model

| member | source | states |
|---|---|---|
| Protocol.PeerAddress | server.js:69 | the checked address is the remote address, or "unknown" when that is missing or empty; it is never empty |
| Protocol.ChatFields | server.js:83-85 | a frame is acted on iff it decoded and its type is "chat"; the username and text are passed on unchanged, empty ones included |
| BanTable.IsBanned | server.js:72-73 | an address is refused iff the ban listing shows a row for it; nothing about the row, its expiry included, matters |
| BanTable.Upsert | server.js:50 | after a ban the table has a row for the ip with the given reason and no expiry; the key set grows by that ip only; other rows keep their values |
| BanTable.Remove | server.js:61 | after an unban the ip has no row; other rows keep their values; with no such row the table is unchanged |
| BanTable.Rows | server.js:55 | the listing holds exactly the rows of the table |
| BanTable.RowsOnePerAddress | server.js:19 | the listing has one row per banned address (ip is the primary key) |
| BanTable.BanRefuses | server.js:50 | a banned address is refused; the verdict for every other address is unchanged |
| BanTable.UnbanAdmits | server.js:61 | an unbanned address is admitted; the verdict for every other address is unchanged |
| BanTable.UnbanUndoesBan | server.js:47-63 | unbanning an address that had no row restores the table exactly |
| BanTable.BanReplaces | server.js:50 | a second ban replaces the first: last reason wins and no expiry remains |
| BanTable.UnbanIdempotent | server.js:61 | a repeated unban changes nothing more |
| BanTable.ExpiryIgnored | server.js:72-73 | the admission check refuses an address whatever expiry its row has |
| BanTable.NoOperationSetsExpiry | server.js:50 | bans and unbans never introduce an expiry |
| MessageLog.Insert | server.js:88-89 | one record is appended; its id comes from the counter and exceeds every earlier id; the earlier records are kept; the log stays valid with the counter advanced |
| MessageLog.SelectNewestFirst | server.js:34 | the selection has min(limit, length) records and its i-th record is the i-th newest |
| MessageLog.Reverse | server.js:35 | the result has the same length and reversed order |
| MessageLog.Recent | server.js:33-36 | history has min(50, length) records and is exactly the tail of the log, oldest first |
| MessageLog.RecentIsNewestAscending | server.js:34-35 | ids ascend through history and every record left out is older than every record returned |
| MessageLog.RecentSize | server.js:34 | a log of at most 50 records is returned whole; a longer one is capped at 50 |
| MessageLog.RecentAfterInsert | server.js:34-35 | after an insert, history is the previous history plus the new record, dropping the oldest when it was full |
| Registry.Add | server.js:79 | the new member joins at the end; existing members keep their places; no duplicates arise |
| Registry.Delete | server.js:111 | the member is removed, all others stay in their insertion order, no duplicates arise, and deleting an absent member changes nothing |
| Registry.IsOpen | server.js:100 | a client counts as open iff the transport knows it and its state is OPEN |
| Registry.Send | server.js:101 | a send queues exactly the payload after everything sent before and leaves the socket's address and state alone |
| Registry.SendAll | server.js:99-103 | the broadcast loop keeps the set of sockets and leaves every socket that is closed or not registered untouched |
| Registry.FirstFailure | server.js:99-103 | the position of the first open client whose send throws, and that no open client before it throws |
| Registry.SendAllMeaning | server.js:99-107 | the loop delivers the payload to exactly the open clients before the first throwing send, changes nothing else, and reports a throw iff some open client's send throws |
| Registry.BroadcastReachesExactlyOpen | server.js:99-103 | with no throwing send, every open registered client (the sender included) gets the payload once and no other socket gets anything |
| Registry.BroadcastAbortsOnThrow | server.js:99-107 | a throwing send is not isolated: clients from the throwing one on get nothing, while open clients before it have the payload |
| Gateway.BackedAfterDelivery | server.js:88-103 | a broadcast of a persisted payload leaves every chat payload in every outbox persisted |
| Gateway.ChatServer.constructor | server.js:8-23 | the server starts over the tables on disk with no connections and the invariant holding |
| Gateway.ChatServer.Connect | server.js:68-79 | a peer is refused iff its address has a ban row; a refused peer gets one ban notice, is closed and is never registered; an admitted one is appended to the clients and nothing else changes |
| Gateway.ChatServer.HandleMessage | server.js:81-108 | malformed or non-chat frames and failed inserts change nothing; a chat frame is persisted with an id greater than all earlier ones before the broadcast, whose payload carries that id, the given username and text and the send time, and reaches the open clients before the first throwing send; the clients and the ban table never change |
| Gateway.ChatServer.SendToClients | server.js:99-103 | the loop's effect on the sockets and its throw flag are those of `Registry.SendAll` |
| Gateway.ChatServer.Close | server.js:110-112 | the connection closes and leaves the clients; the others stay; closing an absent one leaves the clients unchanged |
| Gateway.ChatServer.BeginClosing | server.js:100 | a transport step, not server code, that line 100 observes: a socket leaves OPEN before its close event while it is still registered; only that socket's state changes |
| Gateway.ChatServer.Ban | server.js:47-52 | the ban table becomes the upsert of the row; nothing else changes |
| Gateway.ChatServer.Unban | server.js:59-63 | the ban table loses the row for the ip, if any; nothing else changes |
| Gateway.ChatServer.ListBanned | server.js:54-57 | the rows returned are exactly the table's, one per address |
| Gateway.ChatServer.Recent | server.js:33-36 | history is the last min(50, length) records of the log, in ascending id order |

## Left out

- Admin login (`/api/admin/login`): a fixed credential comparison with no state.
- HTTP routing, Vite middleware, static files and `server.listen`: transport plumbing.
- The WebSocket protocol and the JSON encoder and decoder: frames are the
  `Inbound` datatype after decoding and payloads the `Outbound` datatype
  before encoding.
- SQLite: tables are a map and a sequence; whether an INSERT throws is the
  `insertOk` parameter. A missing `ip` or `reason` in a ban request (stored as
  NULL by SQLite) is not modelled: both are strings here.
- Clock values: `CURRENT_TIMESTAMP` and `new Date().toISOString()` are the
  opaque `dbTime` and `sentAt` parameters.
- MessageLog.Recent: orders by id, whereas the query orders by the
  one-second `timestamp` column; the two agree while the clock does not go
  back, and records within one second are not ordered by the query at all.
- Gateway.ChatServer.HandleMessage: a frame whose `username` or `text` is
  missing or not a string is modelled only through `insertOk`.
- The transport's guarantee that a closed socket emits no further events is
  not modelled: a message event on an admitted, closed connection runs the
  handler as the code would.
- `src/App.jsx`: user interface, not part of this model.
