/**
 * The signal relay of src/signal-server.js: a registry of client
 * connections keyed by uuid, a join that announces the newcomer to every
 * registered connection and welcomes it, message routing by `to` with
 * `from` overwritten, and deletion of the uuid when its connection closes.
 */
module SignalServer {
  import opened Wrappers
  import opened Messages

  /** A client connection, kept opaque: only its identity matters to the relay. */
  type ConnId = nat

  /** One `connection.send(...)`: the connection written to and the message. */
  datatype Delivery = Delivery(conn: ConnId, msg: Message)

  /**
   * The `connections` Map as a key list in iteration order beside the map
   * itself: every key once, and nothing else. A JavaScript Map iterates in
   * insertion order, and setting a key it already holds keeps its place.
   */
  ghost predicate Registry(order: seq<string>, conns: map<string, ConnId>)
  {
    (forall i, j :: 0 <= i < j < |order| ==> order[i] != order[j])
    && (forall k :: k in conns <==> k in order)
  }

  /** The key list after `connections.set(u, …)`. */
  function Registered(order: seq<string>, u: string): seq<string>
  {
    if u in order then order else order + [u]
  }

  /** The key list after `connections.delete(u)`: `u` is gone, the rest keep their order. */
  function Without(order: seq<string>, u: string): (r: seq<string>)
    ensures forall k :: k in r <==> k in order && k != u
    ensures (forall i, j :: 0 <= i < j < |order| ==> order[i] != order[j]) ==>
      forall i, j :: 0 <= i < j < |r| ==> r[i] != r[j]
    ensures u !in order ==> r == order
  {
    if |order| == 0 then []
    else if order[0] == u then Without(order[1..], u)
    else
      var rest := Without(order[1..], u);
      assert (forall i, j :: 0 <= i < j < |order| ==> order[i] != order[j]) ==> order[0] !in order[1..] by {
        forall k | 0 <= k < |order[1..]| ensures order[1..][k] == order[k + 1] { }
      }
      [order[0]] + rest
  }

  /** Deleting a key keeps the relative order of the keys that remain, which is the order the broadcast follows. */
  lemma {:induction false} WithoutKeepsOrder(order: seq<string>, u: string, a: nat, b: nat)
    requires a < b < |order| && order[a] != u && order[b] != u
    ensures exists x, y ::
      0 <= x < y < |Without(order, u)| && Without(order, u)[x] == order[a] && Without(order, u)[y] == order[b]
    decreases |order|
  {
    var r := Without(order, u);
    var rest := Without(order[1..], u);
    if order[0] == u {
      assert order[1..][a - 1] == order[a] && order[1..][b - 1] == order[b];
      WithoutKeepsOrder(order[1..], u, a - 1, b - 1);
    } else if a == 0 {
      assert order[1..][b - 1] == order[b];
      assert order[b] in rest;
      var y :| 0 <= y < |rest| && rest[y] == order[b];
      assert r[0] == order[0] && r[y + 1] == order[b];
    } else {
      assert order[1..][a - 1] == order[a] && order[1..][b - 1] == order[b];
      WithoutKeepsOrder(order[1..], u, a - 1, b - 1);
      var x, y :| 0 <= x < y < |rest| && rest[x] == order[a] && rest[y] == order[b];
      assert r[x + 1] == order[a] && r[y + 1] == order[b];
    }
  }

  /** The messages the `for` loop sends: one to each registered connection, in iteration order. */
  function Broadcast(order: seq<string>, conns: map<string, ConnId>, m: Message): seq<Delivery>
    requires forall i :: 0 <= i < |order| ==> order[i] in conns
  {
    if |order| == 0 then [] else [Delivery(conns[order[0]], m)] + Broadcast(order[1..], conns, m)
  }

  /** How many of the deliveries went to connection `c`. */
  function CountTo(ds: seq<Delivery>, c: ConnId): nat
  {
    if |ds| == 0 then 0 else (if ds[0].conn == c then 1 else 0) + CountTo(ds[1..], c)
  }

  /**
   * What the message handler of the connection registered as `sender`
   * sends (src/signal-server.js:14-27): an offer, answer or candidate whose
   * `to` is registered goes, once, to that connection, with `from`
   * overwritten by `sender` and every other field kept; an unregistered or
   * missing `to`, any other type, and text that does not parse send nothing.
   */
  function Forwarded(conns: map<string, ConnId>, sender: string, inbound: Inbound): (ds: seq<Delivery>)
    ensures |ds| <= 1
    ensures |ds| == 1 <==>
      inbound.Parsed? && Relayed(inbound.message.kind)
      && inbound.message.to.Some? && inbound.message.to.value in conns
    ensures |ds| == 1 ==>
      && ds[0].conn == conns[inbound.message.to.value]
      && ds[0].msg.from == Some(sender)
      && ds[0].msg.(from := inbound.message.from) == inbound.message
  {
    match inbound
    case Unparseable => []
    case Parsed(m) =>
      if Relayed(m.kind) && m.to.Some? && m.to.value in conns
      then [Delivery(conns[m.to.value], m.(from := Some(sender)))]
      else []
  }

  /** The broadcast sends the join notice to each registered key's connection, in iteration order. */
  lemma {:induction false} BroadcastAt(order: seq<string>, conns: map<string, ConnId>, m: Message)
    requires forall i :: 0 <= i < |order| ==> order[i] in conns
    ensures |Broadcast(order, conns, m)| == |order|
    ensures forall i :: 0 <= i < |order| ==> Broadcast(order, conns, m)[i] == Delivery(conns[order[i]], m)
    decreases |order|
  {
    if |order| > 0 {
      BroadcastAt(order[1..], conns, m);
    }
  }

  lemma {:induction false} BroadcastSnoc(order: seq<string>, k: string, conns: map<string, ConnId>, m: Message)
    requires forall i :: 0 <= i < |order| ==> order[i] in conns
    requires k in conns
    ensures Broadcast(order + [k], conns, m) == Broadcast(order, conns, m) + [Delivery(conns[k], m)]
    decreases |order|
  {
    if |order| == 0 {
      assert order + [k] == [k];
    } else {
      assert (order + [k])[1..] == order[1..] + [k];
      BroadcastSnoc(order[1..], k, conns, m);
    }
  }

  /** A connection no registered key holds receives nothing from the broadcast: in particular not the newcomer. */
  lemma {:induction false} BroadcastSkips(order: seq<string>, conns: map<string, ConnId>, m: Message, c: ConnId)
    requires forall i :: 0 <= i < |order| ==> order[i] in conns && conns[order[i]] != c
    ensures CountTo(Broadcast(order, conns, m), c) == 0
    decreases |order|
  {
    if |order| > 0 {
      BroadcastSkips(order[1..], conns, m, c);
    }
  }

  /** A connection registered under exactly one key receives the broadcast exactly once. */
  lemma {:induction false} BroadcastOnce(order: seq<string>, conns: map<string, ConnId>, m: Message, k: string)
    requires Registry(order, conns) && k in conns
    requires forall k2 :: k2 in conns && conns[k2] == conns[k] ==> k2 == k
    ensures CountTo(Broadcast(order, conns, m), conns[k]) == 1
  {
    var i :| 0 <= i < |order| && order[i] == k;
    BroadcastSplit(order, conns, m, k, i);
  }

  lemma {:induction false} BroadcastSplit(order: seq<string>, conns: map<string, ConnId>, m: Message, k: string, i: nat)
    requires forall j :: 0 <= j < |order| ==> order[j] in conns
    requires i < |order| && order[i] == k
    requires forall j :: 0 <= j < |order| && j != i ==> conns[order[j]] != conns[k]
    ensures CountTo(Broadcast(order, conns, m), conns[k]) == 1
    decreases |order|
  {
    if i == 0 {
      BroadcastSkips(order[1..], conns, m, conns[k]);
    } else {
      BroadcastSplit(order[1..], conns, m, k, i - 1);
    }
  }

  /** Joining keeps the key list in step with the map. */
  lemma JoinKeepsRegistry(order: seq<string>, conns: map<string, ConnId>, u: string, c: ConnId)
    requires Registry(order, conns)
    ensures Registry(Registered(order, u), conns[u := c])
  {
    var r := Registered(order, u);
    if u !in order {
      forall i, j | 0 <= i < j < |r| ensures r[i] != r[j] {
        if j == |order| {
          assert r[i] in order;
        }
      }
    }
  }

  /** Closing keeps the key list in step with the map. */
  lemma CloseKeepsRegistry(order: seq<string>, conns: map<string, ConnId>, u: string)
    requires Registry(order, conns)
    ensures Registry(Without(order, u), conns - {u})
  {
  }

  /** The `SignalServer`: its `connections` Map and everything it has sent. */
  class Relay {
    var order: seq<string>
    var connections: map<string, ConnId>
    var sent: seq<Delivery>

    ghost predicate Valid()
      reads this
    {
      Registry(order, connections)
    }

    constructor ()
      ensures Valid() && order == [] && connections == map[] && sent == []
    {
      order := [];
      connections := map[];
      sent := [];
    }

    /**
     * `join(connection, uuid)` (src/signal-server.js:8-39): announce `u` to
     * every registered connection, register `conn` under `u` (replacing
     * any earlier connection under `u`, which keeps its place), welcome
     * `conn`, and return `u`.
     */
    method Join(conn: ConnId, u: string) returns (r: string)
      requires Valid()
      modifies this
      ensures Valid()
      ensures r == u
      ensures connections == old(connections)[u := conn]
      ensures order == Registered(old(order), u)
      ensures sent == old(sent) + Broadcast(old(order), old(connections), JoinNotice(u)) + [Delivery(conn, Welcome(u))]
    {
      var i := 0;
      while i < |order|
        invariant 0 <= i <= |order|
        invariant order == old(order) && connections == old(connections)
        invariant sent == old(sent) + Broadcast(order[..i], connections, JoinNotice(u))
      {
        assert order[..i + 1] == order[..i] + [order[i]];
        BroadcastSnoc(order[..i], order[i], connections, JoinNotice(u));
        sent := sent + [Delivery(connections[order[i]], JoinNotice(u))];
        i := i + 1;
      }
      assert order[..i] == order;
      JoinKeepsRegistry(order, connections, u, conn);
      order := Registered(order, u);
      connections := connections[u := conn];
      sent := sent + [Delivery(conn, Welcome(u))];
      r := u;
    }

    /** The message handler of the connection that joined as `sender` (src/signal-server.js:14-28). */
    method Receive(sender: string, inbound: Inbound)
      modifies this
      ensures order == old(order) && connections == old(connections)
      ensures sent == old(sent) + Forwarded(old(connections), sender, inbound)
    {
      if inbound.Parsed? {
        var m := inbound.message;
        if Relayed(m.kind) && m.to.Some? && m.to.value in connections {
          sent := sent + [Delivery(connections[m.to.value], m.(from := Some(sender)))];
        }
      }
    }

    /**
     * The close handler of the connection that joined as `u`
     * (src/signal-server.js:9-12): it deletes the key `u`, whichever
     * connection is registered under it now.
     */
    method Close(u: string)
      requires Valid()
      modifies this
      ensures Valid()
      ensures connections == old(connections) - {u}
      ensures order == Without(old(order), u)
      ensures sent == old(sent)
    {
      CloseKeepsRegistry(order, connections, u);
      order := Without(order, u);
      connections := connections - {u};
    }
  }
}
