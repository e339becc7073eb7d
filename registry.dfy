/**
 * The `clients` registry and the broadcast over it.
 *
 * A JavaScript `Set` iterates in insertion order, so the registry is a
 * sequence without duplicates. A socket is its address, whether its
 * `readyState` is OPEN, and the payloads sent to it so far.
 */
module Registry {
  import opened Types
  import opened Protocol

  datatype Socket = Socket(addr: Address, open: bool, outbox: seq<Outbound>)

  predicate NoDup(s: seq<ConnId>) {
    forall i, j :: 0 <= i < j < |s| ==> s[i] != s[j]
  }

  /** `clients.add(ws)`: a new member goes to the end; a present one stays where it is. */
  function Add(clients: seq<ConnId>, c: ConnId): (r: seq<ConnId>)
    ensures forall x :: x in r <==> x in clients || x == c
    ensures NoDup(clients) ==> NoDup(r)
    ensures |r| >= |clients| && r[..|clients|] == clients
  {
    if c in clients then clients else clients + [c]
  }

  /** The position of the first occurrence of `c` in `clients`. */
  function IndexOf(clients: seq<ConnId>, c: ConnId): (i: nat)
    requires c in clients
    ensures i < |clients| && clients[i] == c
    ensures forall j :: 0 <= j < i ==> clients[j] != c
  {
    if clients[0] == c then 0 else 1 + IndexOf(clients[1..], c)
  }

  /** `clients.delete(ws)`: `c` is gone, every other member stays, in the same
      order, and deleting an absent member changes nothing. */
  function Delete(clients: seq<ConnId>, c: ConnId): (r: seq<ConnId>)
    requires NoDup(clients)
    ensures forall x :: x in r <==> x in clients && x != c
    ensures NoDup(r)
    ensures c !in clients ==> r == clients
    ensures c in clients ==> |r| == |clients| - 1
    ensures forall i, j :: 0 <= i < j < |r| ==> IndexOf(clients, r[i]) < IndexOf(clients, r[j])
  {
    if c in clients then
      var i := IndexOf(clients, c);
      var r := clients[..i] + clients[i + 1..];
      assert forall j :: 0 <= j < |r| ==> r[j] == clients[if j < i then j else j + 1];
      assert forall j :: 0 <= j < |clients| && j != i ==> clients[j] == r[if j < i then j else j - 1];
      PositionsAreIndices(clients);
      r
    else
      PositionsAreIndices(clients);
      clients
  }

  /** In a duplicate-free sequence, each member's position is where it stands. */
  lemma PositionsAreIndices(clients: seq<ConnId>)
    requires NoDup(clients)
    ensures forall p :: 0 <= p < |clients| ==> IndexOf(clients, clients[p]) == p
  {
  }

  /** `client.readyState === WebSocket.OPEN`: only a connection the transport
      knows can be open. */
  predicate IsOpen(sockets: map<ConnId, Socket>, c: ConnId): (b: bool)
    ensures b ==> c in sockets
    ensures b <==> c in sockets && sockets[c].open
  {
    c in sockets && sockets[c].open
  }

  /** `client.send(msg)`: the payload is queued after everything sent so far;
      the socket's address and state are untouched. */
  function Send(s: Socket, payload: Outbound): (r: Socket)
    ensures r.addr == s.addr && r.open == s.open
    ensures |r.outbox| == |s.outbox| + 1 && r.outbox[..|s.outbox|] == s.outbox
    ensures r.outbox[|s.outbox|] == payload
  {
    s.(outbox := s.outbox + [payload])
  }

  datatype Fanout = Fanout(sockets: map<ConnId, Socket>, threw: bool)

  /** The broadcast loop, step by step: in registry order, each open client is
      sent the payload; the first send that throws ends the loop, and the
      clients after it get nothing. */
  function SendAll(sockets: map<ConnId, Socket>, recipients: seq<ConnId>, payload: Outbound, failing: set<ConnId>): (r: Fanout)
    ensures r.sockets.Keys == sockets.Keys
    ensures forall x :: x in sockets && (x !in recipients || !sockets[x].open) ==> r.sockets[x] == sockets[x]
    decreases |recipients|
  {
    if recipients == [] then Fanout(sockets, false)
    else
      var c := recipients[0];
      if IsOpen(sockets, c) then
        if c in failing then Fanout(sockets, true)
        else SendAll(sockets[c := Send(sockets[c], payload)], recipients[1..], payload, failing)
      else SendAll(sockets, recipients[1..], payload, failing)
  }

  /** The position of the first open recipient whose send throws, or the
      number of recipients when there is none. */
  function FirstFailure(sockets: map<ConnId, Socket>, recipients: seq<ConnId>, failing: set<ConnId>): (k: nat)
    ensures k <= |recipients|
    ensures forall j :: 0 <= j < k ==> !(IsOpen(sockets, recipients[j]) && recipients[j] in failing)
    ensures k < |recipients| ==> IsOpen(sockets, recipients[k]) && recipients[k] in failing
  {
    if recipients == [] then 0
    else if IsOpen(sockets, recipients[0]) && recipients[0] in failing then 0
    else 1 + FirstFailure(sockets, recipients[1..], failing)
  }

  /** The reference outcome of a fan-out: every open socket among `recipients`
      has the payload appended; every other socket is unchanged. */
  function Delivered(sockets: map<ConnId, Socket>, recipients: seq<ConnId>, payload: Outbound): (r: map<ConnId, Socket>)
    ensures r.Keys == sockets.Keys
  {
    map c | c in sockets :: if c in recipients && sockets[c].open then Send(sockets[c], payload) else sockets[c]
  }

  lemma DeliveredNone(sockets: map<ConnId, Socket>, payload: Outbound)
    ensures Delivered(sockets, [], payload) == sockets
  {
  }

  lemma DeliveredConsOpen(sockets: map<ConnId, Socket>, c: ConnId, rest: seq<ConnId>, payload: Outbound)
    requires IsOpen(sockets, c) && c !in rest
    ensures Delivered(sockets[c := Send(sockets[c], payload)], rest, payload) == Delivered(sockets, [c] + rest, payload)
  {
    var s' := sockets[c := Send(sockets[c], payload)];
    var lhs := Delivered(s', rest, payload);
    var rhs := Delivered(sockets, [c] + rest, payload);
    forall x | x in sockets
      ensures lhs[x] == rhs[x]
    {
      assert x in [c] + rest <==> x == c || x in rest;
    }
  }

  lemma DeliveredConsClosed(sockets: map<ConnId, Socket>, c: ConnId, rest: seq<ConnId>, payload: Outbound)
    requires !IsOpen(sockets, c)
    ensures Delivered(sockets, rest, payload) == Delivered(sockets, [c] + rest, payload)
  {
    var lhs := Delivered(sockets, rest, payload);
    var rhs := Delivered(sockets, [c] + rest, payload);
    forall x | x in sockets
      ensures lhs[x] == rhs[x]
    {
      assert x in [c] + rest <==> x == c || x in rest;
    }
  }

  lemma {:induction false} FirstFailureOpenOnly(s1: map<ConnId, Socket>, s2: map<ConnId, Socket>, recipients: seq<ConnId>, failing: set<ConnId>)
    requires forall x :: IsOpen(s1, x) <==> IsOpen(s2, x)
    ensures FirstFailure(s1, recipients, failing) == FirstFailure(s2, recipients, failing)
    decreases |recipients|
  {
    if recipients != [] {
      FirstFailureOpenOnly(s1, s2, recipients[1..], failing);
    }
  }

  /** What the broadcast loop does: exactly the open recipients before the
      first throwing send receive the payload, nothing else changes, and the
      loop reports a throw iff some open recipient's send throws. */
  lemma {:induction false} SendAllMeaning(sockets: map<ConnId, Socket>, recipients: seq<ConnId>, payload: Outbound, failing: set<ConnId>)
    requires NoDup(recipients)
    ensures var k := FirstFailure(sockets, recipients, failing);
      SendAll(sockets, recipients, payload, failing)
        == Fanout(Delivered(sockets, recipients[..k], payload), k < |recipients|)
    decreases |recipients|
  {
    var k := FirstFailure(sockets, recipients, failing);
    if recipients == [] {
      DeliveredNone(sockets, payload);
    } else {
      var c, rest := recipients[0], recipients[1..];
      assert NoDup(rest) by {
        forall i, j | 0 <= i < j < |rest| ensures rest[i] != rest[j] {
          assert rest[i] == recipients[i + 1] && rest[j] == recipients[j + 1];
        }
      }
      if IsOpen(sockets, c) && c in failing {
        assert recipients[..k] == [];
        DeliveredNone(sockets, payload);
      } else {
        var k' := FirstFailure(sockets, rest, failing);
        assert k == k' + 1;
        assert recipients[..k] == [c] + rest[..k'];
        if IsOpen(sockets, c) {
          var s' := sockets[c := Send(sockets[c], payload)];
          SendAllMeaning(s', rest, payload, failing);
          FirstFailureOpenOnly(sockets, s', rest, failing);
          assert c !in rest[..k'] by {
            forall j | 0 <= j < k' ensures rest[..k'][j] != c {
              assert rest[..k'][j] == recipients[j + 1];
            }
          }
          DeliveredConsOpen(sockets, c, rest[..k'], payload);
        } else {
          SendAllMeaning(sockets, rest, payload, failing);
          DeliveredConsClosed(sockets, c, rest[..k'], payload);
        }
      }
    }
  }

  /** Fan-out completeness: when no send throws, every open recipient gets the
      payload exactly once and nobody else gets anything. */
  lemma BroadcastReachesExactlyOpen(sockets: map<ConnId, Socket>, recipients: seq<ConnId>, payload: Outbound, failing: set<ConnId>)
    requires NoDup(recipients)
    requires forall x :: x in recipients && IsOpen(sockets, x) ==> x !in failing
    ensures var f := SendAll(sockets, recipients, payload, failing);
      && !f.threw
      && f.sockets.Keys == sockets.Keys
      && forall x :: x in sockets ==>
           f.sockets[x] == if x in recipients && sockets[x].open then Send(sockets[x], payload) else sockets[x]
  {
    SendAllMeaning(sockets, recipients, payload, failing);
    assert recipients[..|recipients|] == recipients;
  }

  /** A send that throws is not isolated: the loop reports the throw, the
      open recipients before the throwing one have the payload, and the
      throwing one and every recipient after it are left as they were. */
  lemma BroadcastAbortsOnThrow(sockets: map<ConnId, Socket>, recipients: seq<ConnId>, payload: Outbound, failing: set<ConnId>, bad: nat)
    requires NoDup(recipients)
    requires bad < |recipients| && IsOpen(sockets, recipients[bad]) && recipients[bad] in failing
    ensures var f := SendAll(sockets, recipients, payload, failing);
      var k := FirstFailure(sockets, recipients, failing);
      && f.threw
      && k <= bad
      && f.sockets.Keys == sockets.Keys
      && (forall j :: 0 <= j < k && IsOpen(sockets, recipients[j]) ==>
            f.sockets[recipients[j]] == Send(sockets[recipients[j]], payload))
      && (forall j :: k <= j < |recipients| && recipients[j] in sockets ==>
            f.sockets[recipients[j]] == sockets[recipients[j]])
  {
    var k := FirstFailure(sockets, recipients, failing);
    SendAllMeaning(sockets, recipients, payload, failing);
    var f := SendAll(sockets, recipients, payload, failing);
    assert k <= bad;
    forall j | 0 <= j < k && IsOpen(sockets, recipients[j])
      ensures f.sockets[recipients[j]] == Send(sockets[recipients[j]], payload)
    {
      assert recipients[j] in recipients[..k];
    }
    forall j | k <= j < |recipients| && recipients[j] in sockets
      ensures f.sockets[recipients[j]] == sockets[recipients[j]]
    {
      assert recipients[j] !in recipients[..k];
    }
  }
}
