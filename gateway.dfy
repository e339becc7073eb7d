/**
 * The chat gateway: the state the server's handlers share and the handlers
 * themselves. Node runs each handler to completion on one thread, so each
 * method below is one atomic step.
 *
 * Inputs the server cannot see are parameters: whether the INSERT succeeds,
 * the two clock readings, and which sockets' `send` throws.
 */
module Gateway {
  import opened Types
  import opened Protocol
  import BanTable
  import MessageLog
  import opened Registry

  /** What the message handler did with one inbound frame. */
  datatype Outcome =
    | NotListening                     // no handler is attached to this connection
    | Discarded                        // malformed, or its type is not "chat"
    | InsertFailed                     // the INSERT threw; nothing was sent
    | Broadcast(id: nat, complete: bool) // persisted with `id`; `complete` iff no send threw

  /** The chat payload has been persisted: some record in the log carries its
      id, username and text. */
  predicate Persisted(log: seq<MessageLog.ChatRecord>, m: Outbound)
    requires m.ChatBroadcast?
  {
    exists i :: 0 <= i < |log| && log[i].id == m.id && log[i].username == m.username && log[i].text == m.text
  }

  /** Every chat payload present in any outbox has been persisted. */
  predicate AllBacked(sockets: map<ConnId, Socket>, log: seq<MessageLog.ChatRecord>) {
    forall c, k :: c in sockets && 0 <= k < |sockets[c].outbox| && sockets[c].outbox[k].ChatBroadcast? ==>
      Persisted(log, sockets[c].outbox[k])
  }

  /** A refused connection: closed, having received only the ban notice. */
  predicate Refused(s: Socket) {
    !s.open && s.outbox == [ErrorNotice(BannedMessage)]
  }

  lemma PersistedGrows(log: seq<MessageLog.ChatRecord>, rec: MessageLog.ChatRecord, m: Outbound)
    requires m.ChatBroadcast? && Persisted(log, m)
    ensures Persisted(log + [rec], m)
  {
    var i :| 0 <= i < |log| && log[i].id == m.id && log[i].username == m.username && log[i].text == m.text;
    assert (log + [rec])[i] == log[i];
  }

  lemma BackedAfterAppend(sockets: map<ConnId, Socket>, log: seq<MessageLog.ChatRecord>, rec: MessageLog.ChatRecord)
    requires AllBacked(sockets, log)
    ensures AllBacked(sockets, log + [rec])
  {
    forall c, k | c in sockets && 0 <= k < |sockets[c].outbox| && sockets[c].outbox[k].ChatBroadcast?
      ensures Persisted(log + [rec], sockets[c].outbox[k])
    {
      PersistedGrows(log, rec, sockets[c].outbox[k]);
    }
  }

  lemma BackedAfterDelivery(sockets: map<ConnId, Socket>, recipients: seq<ConnId>, payload: Outbound, log: seq<MessageLog.ChatRecord>)
    requires AllBacked(sockets, log)
    requires payload.ChatBroadcast? && Persisted(log, payload)
    ensures AllBacked(Delivered(sockets, recipients, payload), log)
  {
    var d := Delivered(sockets, recipients, payload);
    forall c, k | c in d && 0 <= k < |d[c].outbox| && d[c].outbox[k].ChatBroadcast?
      ensures Persisted(log, d[c].outbox[k])
    {
      if k < |sockets[c].outbox| {
        assert d[c].outbox[k] == sockets[c].outbox[k];
      } else {
        assert d[c].outbox[k] == payload;
      }
    }
  }

  class ChatServer {
    /** The `banned_users` table. */
    var bans: BanTable.Table
    /** The `messages` table, in id order. */
    var log: seq<MessageLog.ChatRecord>
    /** The id the next INSERT receives (the AUTOINCREMENT counter plus one). */
    var nextId: nat
    /** The `clients` Set, in insertion order. */
    var clients: seq<ConnId>
    /** The connections that passed admission and so have message and close handlers. */
    var admitted: set<ConnId>
    /** The transport's view of every connection so far. */
    var sockets: map<ConnId, Socket>
    /** The id the transport gives the next incoming connection. */
    var nextConn: ConnId

    ghost predicate Valid()
      reads this
    {
      && MessageLog.ValidLog(log, nextId)
      && NoDup(clients)
      && (forall c :: c in clients ==> c in admitted)
      && (forall c :: c in admitted ==> c in sockets)
      && (forall c :: c in sockets ==> c < nextConn)
      && (forall c :: c in sockets && c !in admitted ==> Refused(sockets[c]))
      && AllBacked(sockets, log)
    }

    /** Server start-up over the tables already on disk; nobody is connected yet. */
    constructor (bans: BanTable.Table, log: seq<MessageLog.ChatRecord>, nextId: nat)
      requires MessageLog.ValidLog(log, nextId)
      ensures Valid()
      ensures this.bans == bans && this.log == log && this.nextId == nextId
      ensures clients == [] && admitted == {} && sockets == map[]
    {
      this.bans := bans;
      this.log := log;
      this.nextId := nextId;
      clients := [];
      admitted := {};
      sockets := map[];
      nextConn := 0;
    }

    /** The `connection` handler. A peer whose address has a ban row is sent
        one error notice, closed, and never registered; any other peer is
        registered and gets handlers. Nothing else changes. */
    method Connect(remote: Option<string>) returns (c: ConnId, accepted: bool)
      requires Valid()
      modifies this
      ensures Valid()
      ensures c == old(nextConn) && c !in old(sockets) && nextConn == c + 1
      ensures accepted <==> !BanTable.IsBanned(bans, PeerAddress(remote))
      ensures bans == old(bans) && log == old(log) && nextId == old(nextId)
      ensures accepted ==>
        && clients == old(clients) + [c]
        && admitted == old(admitted) + {c}
        && sockets == old(sockets)[c := Socket(PeerAddress(remote), true, [])]
      ensures !accepted ==>
        && clients == old(clients)
        && admitted == old(admitted)
        && sockets == old(sockets)[c := Socket(PeerAddress(remote), false, [ErrorNotice(BannedMessage)])]
    {
      var ip := PeerAddress(remote);
      c := nextConn;
      nextConn := nextConn + 1;
      if BanTable.IsBanned(bans, ip) {
        sockets := sockets[c := Socket(ip, false, [ErrorNotice(BannedMessage)])];
        accepted := false;
      } else {
        sockets := sockets[c := Socket(ip, true, [])];
        clients := Add(clients, c);
        admitted := admitted + {c};
        accepted := true;
      }
    }

    /** The `message` handler: decode, persist, then broadcast to every open
        client in registry order. A throw (from the INSERT or from a send)
        ends the handler; it is caught and logged, and the sender stays
        registered. */
    method HandleMessage(c: ConnId, frame: Inbound, insertOk: bool, dbTime: Timestamp, sentAt: Timestamp, failing: set<ConnId>)
      returns (outcome: Outcome)
      requires Valid()
      modifies this
      ensures Valid()
      ensures bans == old(bans) && clients == old(clients) && admitted == old(admitted) && nextConn == old(nextConn)
      ensures c !in old(admitted) ==> outcome == NotListening
      ensures c in old(admitted) && ChatFields(frame).None? ==> outcome == Discarded
      ensures c in old(admitted) && ChatFields(frame).Some? && !insertOk ==> outcome == InsertFailed
      ensures c in old(admitted) && ChatFields(frame).Some? && insertOk ==> outcome.Broadcast?
      ensures !outcome.Broadcast? ==> log == old(log) && nextId == old(nextId) && sockets == old(sockets)
      ensures outcome.Broadcast? ==>
        && c in old(admitted) && frame.Event? && frame.kind == "chat" && insertOk
        && outcome.id == old(nextId)
        && (forall i :: 0 <= i < |old(log)| ==> old(log)[i].id < outcome.id)
        && log == old(log) + [MessageLog.ChatRecord(outcome.id, frame.username, frame.text, dbTime)]
        && nextId == old(nextId) + 1
      ensures outcome.Broadcast? ==>
        var payload := ChatBroadcast(outcome.id, frame.username, frame.text, sentAt);
        var k := FirstFailure(old(sockets), clients, failing);
        && sockets == Delivered(old(sockets), clients[..k], payload)
        && (outcome.complete <==> k == |clients|)
      ensures outcome.Broadcast? && (forall x :: x in clients && IsOpen(old(sockets), x) ==> x !in failing) ==>
        && outcome.complete
        && sockets == Delivered(old(sockets), clients, ChatBroadcast(outcome.id, frame.username, frame.text, sentAt))
    {
      if c !in admitted {
        return NotListening;
      }
      var fields := ChatFields(frame);
      if fields.None? {
        return Discarded;
      }
      if !insertOk {
        return InsertFailed;
      }
      var (username, text) := fields.value;
      var ins := MessageLog.Insert(log, nextId, username, text, dbTime);
      BackedAfterAppend(sockets, log, ins.log[|log|]);
      assert ins.log == log + [ins.log[|log|]];
      log := ins.log;
      nextId := ins.id + 1;
      var payload := ChatBroadcast(ins.id, username, text, sentAt);
      assert log[|log| - 1].id == payload.id;
      assert Persisted(log, payload);
      ghost var before := sockets;
      var threw := SendToClients(payload, failing);
      SendAllMeaning(before, clients, payload, failing);
      BackedAfterDelivery(before, clients[..FirstFailure(before, clients, failing)], payload, log);
      assert clients[..|clients|] == clients;
      outcome := Broadcast(ins.id, !threw);
    }

    /** The `for ... of clients` loop: send to each open client in turn; a
        send that throws ends the loop there. */
    method SendToClients(payload: Outbound, failing: set<ConnId>) returns (threw: bool)
      modifies this`sockets
      ensures Fanout(sockets, threw) == SendAll(old(sockets), clients, payload, failing)
    {
      var i := 0;
      while i < |clients|
        invariant 0 <= i <= |clients|
        invariant SendAll(sockets, clients[i..], payload, failing) == SendAll(old(sockets), clients, payload, failing)
      {
        var c := clients[i];
        if c in sockets && sockets[c].open {
          if c in failing {
            return true;
          }
          sockets := sockets[c := Send(sockets[c], payload)];
        }
        assert clients[i..][1..] == clients[i + 1..];
        i := i + 1;
      }
      return false;
    }

    /** The `close` handler: the socket is closed and, if it was admitted, it
        leaves the registry. Closing an absent client leaves the registry as
        it was. */
    method Close(c: ConnId)
      requires Valid()
      modifies this
      ensures Valid()
      ensures clients == Delete(old(clients), c)
      ensures forall x :: x in clients <==> x in old(clients) && x != c
      ensures c !in old(clients) ==> clients == old(clients)
      ensures sockets == if c in old(sockets) then old(sockets)[c := old(sockets)[c].(open := false)] else old(sockets)
      ensures bans == old(bans) && log == old(log) && nextId == old(nextId)
      ensures admitted == old(admitted) && nextConn == old(nextConn)
    {
      if c in sockets {
        sockets := sockets[c := sockets[c].(open := false)];
      }
      if c in admitted {
        clients := Delete(clients, c);
      }
    }

    /** The transport moves a socket out of OPEN (a close handshake has begun)
        before its `close` event fires; it stays registered until then. */
    method BeginClosing(c: ConnId)
      requires Valid()
      modifies this`sockets
      ensures Valid()
      ensures sockets == if c in old(sockets) then old(sockets)[c := old(sockets)[c].(open := false)] else old(sockets)
    {
      if c in sockets {
        sockets := sockets[c := sockets[c].(open := false)];
      }
    }

    /** `POST /api/admin/ban`: upsert the row for `ip`. Open connections are not affected. */
    method Ban(ip: Address, reason: string)
      requires Valid()
      modifies this`bans
      ensures Valid()
      ensures bans == BanTable.Upsert(old(bans), ip, reason)
    {
      bans := BanTable.Upsert(bans, ip, reason);
    }

    /** `DELETE /api/admin/unban/:ip`: remove the row for `ip`, if any. */
    method Unban(ip: Address)
      requires Valid()
      modifies this`bans
      ensures Valid()
      ensures bans == BanTable.Remove(old(bans), ip)
    {
      bans := BanTable.Remove(bans, ip);
    }

    /** `GET /api/admin/banned`: every row of the ban table. */
    method ListBanned() returns (rows: set<BanTable.BanRow>)
      ensures forall row :: row in rows <==> row.ip in bans && bans[row.ip] == BanTable.BanEntry(row.reason, row.expiresAt)
      ensures |rows| == |bans.Keys|
    {
      rows := BanTable.Rows(bans);
      BanTable.RowsOnePerAddress(bans);
    }

    /** `GET /api/messages`: the last `HistoryLimit` records, oldest first. */
    method Recent() returns (history: seq<MessageLog.ChatRecord>)
      requires Valid()
      ensures |history| == MessageLog.Min(MessageLog.HistoryLimit, |log|)
      ensures history == log[|log| - |history|..]
      ensures MessageLog.IdsIncreasing(history)
    {
      history := MessageLog.Recent(log);
      MessageLog.RecentIsNewestAscending(log);
    }
  }

  /** A session from an empty database: X is admitted, Y is refused after its
      address is banned, X's chat is persisted with id 1 and echoed to X only,
      and history holds that one record. */
  method Session(t: Timestamp, isoNow: Timestamp) {
    var server := new ChatServer(map[], [], 1);
    var x, xOk := server.Connect(Some("1.2.3.4"));
    assert xOk;
    server.Ban("5.6.7.8", "spam");
    var y, yOk := server.Connect(Some("5.6.7.8"));
    assert !yOk && y != x;
    assert server.sockets[y] == Socket("5.6.7.8", false, [ErrorNotice("You are banned.")]);
    var outcome := server.HandleMessage(x, Event("chat", "alice", "hi"), true, t, isoNow, {});
    assert server.clients == [x];
    assert outcome == Broadcast(1, true);
    assert server.sockets[x].outbox == [ChatBroadcast(1, "alice", "hi", isoNow)];
    assert server.sockets[y].outbox == [ErrorNotice("You are banned.")];
    var history := server.Recent();
    assert history == [MessageLog.ChatRecord(1, "alice", "hi", t)];
  }
}
