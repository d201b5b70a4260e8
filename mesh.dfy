/**
 * The simulated mesh layer (services/meshService.ts): a peer table seeded
 * with four mock peers, a message store that `broadcast` writes to, and a
 * list of peer subscribers that every discovery tick notifies.
 *
 * The JavaScript `Map` of peers is `peers` together with `peerOrder`, its key
 * insertion order, which is the order `getPeers` lists the values in. Calls
 * of subscriber callbacks are recorded in `notifications`.
 */
module Mesh {
  import opened Types

  /** A callback registered with `subscribePeers`, known only by its identity. */
  datatype Subscriber = Subscriber(handle: nat)

  /** One call of a subscriber with a snapshot of the peers. */
  datatype Notification = Notification(subscriber: Subscriber, snapshot: seq<Peer>)

  /**
   * What one peer's update in a discovery tick reads from outside: the three
   * `Math.random()` draws (the third only matters when the second does not
   * take a peer offline) and the `Date.now()` reading.
   */
  datatype TickDraw = TickDraw(driftDraw: real, offlineDraw: real, onlineDraw: real, now: int)

  predicate Distinct<T(==)>(s: seq<T>) { forall i, j :: 0 <= i < j < |s| ==> s[i] != s[j] }

  /** The four mock peers of the discovery simulation, each stamped with its own clock reading. */
  function SeedPeers(t1: int, t2: int, t3: int, t4: int): (r: seq<Peer>)
    ensures |r| == 4
    ensures Distinct(IdsOf(r))
  {
    var r := [
      Peer("atls_node_1", "pk_delta", "Delta-9", t1, Online, 1.2),
      Peer("atls_node_2", "pk_shadow", "Shadow-Root", t2, Relay, 4.5),
      Peer("atls_node_3", "pk_nexus", "Nexus-One", t3, Online, 0.8),
      Peer("atls_node_4", "pk_ghost", "Ghost-P2P", t4, Online, 2.1)];
    assert forall i :: 0 <= i < 4 ==> r[i].id[10] == ['1', '2', '3', '4'][i];
    r
  }

  function IdsOf(ps: seq<Peer>): (r: seq<string>)
    ensures |r| == |ps| && forall i :: 0 <= i < |ps| ==> r[i] == ps[i].id
  {
    seq(|ps|, i requires 0 <= i < |ps| => ps[i].id)
  }

  /** The values of `table` listed in the order of `order`. */
  function ValuesInOrder(order: seq<string>, table: map<string, Peer>): (r: seq<Peer>)
    requires forall i :: 0 <= i < |order| ==> order[i] in table
    ensures |r| == |order|
    ensures forall i :: 0 <= i < |order| ==> r[i] == table[order[i]]
    decreases |order|
  {
    if order == [] then [] else ValuesInOrder(order[..|order| - 1], table) + [table[order[|order| - 1]]]
  }

  /** A sequence without repetitions has as many distinct elements as it has positions. */
  lemma {:induction false} DistinctSize<T>(s: seq<T>)
    requires Distinct(s)
    ensures |set x | x in s| == |s|
  {
    if s != [] {
      var init := s[..|s| - 1];
      DistinctSize(init);
      assert (set x | x in s) == (set x | x in init) + {s[|s| - 1]};
      assert s[|s| - 1] !in init;
    }
  }

  /** `Math.max(0.1, Math.min(10, x))` on exact reals. */
  function ClampDistance(x: real): (r: real)
    ensures 0.1 <= r <= 10.0
    ensures 0.1 <= x <= 10.0 ==> r == x
    ensures x > 10.0 ==> r == 10.0
    ensures x < 0.1 ==> r == 0.1
  {
    if x > 10.0 then 10.0 else if x < 0.1 then 0.1 else x
  }

  /** One peer's update in a discovery tick (services/meshService.ts:46-52). */
  function TickPeer(p: Peer, d: TickDraw): (q: Peer)
    ensures q.id == p.id && q.publicKey == p.publicKey && q.alias == p.alias
    ensures q.lastSeen == d.now
    ensures 0.1 <= q.distance <= 10.0
    ensures q.distance == ClampDistance(p.distance + (d.driftDraw - 0.5) * 0.1)
    ensures d.offlineDraw > 0.98 ==> q.status == Offline
    ensures d.offlineDraw <= 0.98 && d.onlineDraw > 0.95 ==> q.status == Online
    ensures d.offlineDraw <= 0.98 && d.onlineDraw <= 0.95 ==> q.status == p.status
  {
    var drift := (d.driftDraw - 0.5) * 0.1;
    var status :=
      if d.offlineDraw > 0.98 then Offline
      else if d.onlineDraw > 0.95 then Online
      else p.status;
    p.(distance := ClampDistance(p.distance + drift), lastSeen := d.now, status := status)
  }

  /** A tick never puts a peer into the relay state: a relay after a tick was a relay before. */
  lemma TickNeverPromotesToRelay(p: Peer, d: TickDraw)
    ensures TickPeer(p, d).status == Relay ==> p.status == Relay
  {
  }

  /** The message store after the given broadcasts, in order: each one set under its id. */
  function StoreOf(log: seq<Message>): (r: map<string, Message>)
    ensures forall id :: id in r ==> r[id].id == id && r[id] in log
    decreases |log|
  {
    if log == [] then map[] else StoreOf(log[..|log| - 1])[log[|log| - 1].id := log[|log| - 1]]
  }

  /** The store has exactly one entry per broadcast id, and each entry sits under its own id. */
  lemma {:induction false} StoreOfKeys(log: seq<Message>)
    ensures StoreOf(log).Keys == set m | m in log :: m.id
    ensures forall id :: id in StoreOf(log) ==> StoreOf(log)[id].id == id
    decreases |log|
  {
    if log != [] {
      var init := log[..|log| - 1];
      StoreOfKeys(init);
      assert (set m | m in log :: m.id) == (set m | m in init :: m.id) + {log[|log| - 1].id};
    }
  }

  /** The entry for an id is the latest message broadcast with that id. */
  lemma {:induction false} StoreOfLatest(log: seq<Message>, k: nat)
    requires k < |log|
    requires forall j :: k < j < |log| ==> log[j].id != log[k].id
    ensures log[k].id in StoreOf(log) && StoreOf(log)[log[k].id] == log[k]
    decreases |log|
  {
    if k < |log| - 1 {
      StoreOfLatest(log[..|log| - 1], k);
    }
  }

  /** Broadcasting two messages with one id leaves the same store as broadcasting only the later. */
  lemma StoreOfOverwrite(log: seq<Message>, first: Message, second: Message)
    requires first.id == second.id
    ensures StoreOf(log + [first, second]) == StoreOf(log + [second])
  {
    assert (log + [first, second])[..|log| + 1] == log + [first];
    assert (log + [first])[..|log|] == log;
    assert (log + [second])[..|log|] == log;
  }

  /** The notifications of calling each subscriber in turn with `snapshot`. */
  function Fanout(subs: seq<Subscriber>, snapshot: seq<Peer>): (r: seq<Notification>)
    ensures |r| == |subs|
    ensures forall i :: 0 <= i < |subs| ==> r[i] == Notification(subs[i], snapshot)
    decreases |subs|
  {
    if subs == [] then [] else Fanout(subs[..|subs| - 1], snapshot) + [Notification(subs[|subs| - 1], snapshot)]
  }

  class MeshNetwork {
    var peerOrder: seq<string>
    var peers: map<string, Peer>
    var messageStore: map<string, Message>
    var subscribers: seq<Subscriber>
    var notifications: seq<Notification>
    /** Every message broadcast so far, in order. */
    ghost var broadcasts: seq<Message>

    /** The peer table lists each key once, in insertion order, under the peer's own id. */
    ghost predicate Valid()
      reads this
    {
      && Distinct(peerOrder)
      && (forall k :: k in peers <==> k in peerOrder)
      && (forall k :: k in peers ==> peers[k].id == k)
      && messageStore == StoreOf(broadcasts)
    }

    /** `getPeers()`: the peers, one per key of the table, in insertion order. */
    function GetPeers(): (r: seq<Peer>)
      reads this
      requires Valid()
      ensures |r| == |peerOrder| == |peers|
      ensures forall i :: 0 <= i < |r| ==> r[i] == peers[peerOrder[i]]
      ensures forall k :: k in peers ==> peers[k] in r
    {
      DistinctSize(peerOrder);
      assert peers.Keys == set k | k in peerOrder;
      ValuesInOrder(peerOrder, peers)
    }

    /** Builds the network and seeds it with the mock peers (services/meshService.ts:11-13, 33-40). */
    constructor (t1: int, t2: int, t3: int, t4: int)
      ensures Valid()
      ensures peerOrder == IdsOf(SeedPeers(t1, t2, t3, t4))
      ensures GetPeers() == SeedPeers(t1, t2, t3, t4)
      ensures messageStore == map[] && broadcasts == []
      ensures subscribers == [] && notifications == []
    {
      peerOrder, peers := [], map[];
      messageStore, broadcasts := map[], [];
      subscribers, notifications := [], [];
      new;
      var seeds := SeedPeers(t1, t2, t3, t4);
      for i := 0 to |seeds|
        invariant Valid()
        invariant peerOrder == IdsOf(seeds[..i])
        invariant forall j :: 0 <= j < i ==> peers[seeds[j].id] == seeds[j]
        invariant messageStore == map[] && broadcasts == []
        invariant subscribers == [] && notifications == []
      {
        assert seeds[i].id !in peerOrder by {
          assert forall j :: 0 <= j < i ==> IdsOf(seeds)[j] != IdsOf(seeds)[i];
        }
        SetPeer(seeds[i]);
      }
      assert seeds[..4] == seeds;
    }

    /** `peers.set(p.id, p)`: a new key goes to the end of the order, a known key keeps its place. */
    method SetPeer(p: Peer)
      requires Valid()
      modifies this
      ensures Valid()
      ensures peers == old(peers)[p.id := p]
      ensures peerOrder == if p.id in old(peers) then old(peerOrder) else old(peerOrder) + [p.id]
      ensures messageStore == old(messageStore) && broadcasts == old(broadcasts)
      ensures subscribers == old(subscribers) && notifications == old(notifications)
    {
      if p.id !in peers {
        peerOrder := peerOrder + [p.id];
      }
      peers := peers[p.id := p];
    }

    /** `broadcast(message)`: stores the message under its id; nothing is forwarded. */
    method Broadcast(message: Message)
      requires Valid()
      modifies this
      ensures Valid()
      ensures messageStore == old(messageStore)[message.id := message]
      ensures broadcasts == old(broadcasts) + [message]
      ensures peerOrder == old(peerOrder) && peers == old(peers)
      ensures subscribers == old(subscribers) && notifications == old(notifications)
    {
      assert (broadcasts + [message])[..|broadcasts|] == broadcasts;
      messageStore := messageStore[message.id := message];
      broadcasts := broadcasts + [message];
    }

    /** `subscribePeers(callback)`: appends the callback, then calls it once with the current peers. */
    method SubscribePeers(callback: Subscriber)
      requires Valid()
      modifies this
      ensures Valid()
      ensures subscribers == old(subscribers) + [callback]
      ensures notifications == old(notifications) + [Notification(callback, GetPeers())]
      ensures peerOrder == old(peerOrder) && peers == old(peers)
      ensures messageStore == old(messageStore) && broadcasts == old(broadcasts)
    {
      subscribers := subscribers + [callback];
      var snapshot := GetPeers();
      notifications := notifications + [Notification(callback, snapshot)];
    }

    /**
     * One firing of the discovery interval (services/meshService.ts:43-55):
     * every peer, in table order, is updated with its own draws, then every
     * subscriber, in order, is called with the new peers.
     */
    method DiscoveryTick(draws: seq<TickDraw>)
      requires Valid()
      requires |draws| == |peerOrder|
      modifies this
      ensures Valid()
      ensures peerOrder == old(peerOrder) && peers.Keys == old(peers.Keys)
      ensures forall i :: 0 <= i < |peerOrder| ==>
        peers[peerOrder[i]] == TickPeer(old(peers[peerOrder[i]]), draws[i])
      ensures forall k :: k in peers ==> 0.1 <= peers[k].distance <= 10.0
      ensures notifications == old(notifications) + Fanout(subscribers, GetPeers())
      ensures subscribers == old(subscribers)
      ensures messageStore == old(messageStore) && broadcasts == old(broadcasts)
    {
      UpdatePeers(draws);
      NotifySubscribers();
    }

    /** The first loop of a tick: each peer in table order takes its own draws. */
    method UpdatePeers(draws: seq<TickDraw>)
      requires Valid()
      requires |draws| == |peerOrder|
      modifies this
      ensures Valid()
      ensures peerOrder == old(peerOrder) && peers.Keys == old(peers.Keys)
      ensures forall i :: 0 <= i < |peerOrder| ==>
        peers[peerOrder[i]] == TickPeer(old(peers[peerOrder[i]]), draws[i])
      ensures forall k :: k in peers ==> 0.1 <= peers[k].distance <= 10.0
      ensures subscribers == old(subscribers) && notifications == old(notifications)
      ensures messageStore == old(messageStore) && broadcasts == old(broadcasts)
    {
      var i := 0;
      while i < |peerOrder|
        invariant 0 <= i <= |peerOrder|
        invariant peerOrder == old(peerOrder) && peers.Keys == old(peers.Keys)
        invariant forall j :: 0 <= j < i ==>
          peers[peerOrder[j]] == TickPeer(old(peers[peerOrder[j]]), draws[j])
        invariant forall j :: i <= j < |peerOrder| ==> peers[peerOrder[j]] == old(peers[peerOrder[j]])
        invariant subscribers == old(subscribers) && notifications == old(notifications)
        invariant messageStore == old(messageStore) && broadcasts == old(broadcasts)
      {
        var id := peerOrder[i];
        peers := peers[id := TickPeer(peers[id], draws[i])];
        i := i + 1;
      }
      forall k | k in peers
        ensures peers[k].id == k && 0.1 <= peers[k].distance <= 10.0
      {
        var j :| 0 <= j < |peerOrder| && peerOrder[j] == k;
      }
    }

    /** The second loop of a tick: each subscriber in turn is called with `getPeers()`. */
    method NotifySubscribers()
      requires Valid()
      modifies this
      ensures Valid()
      ensures notifications == old(notifications) + Fanout(subscribers, GetPeers())
      ensures peerOrder == old(peerOrder) && peers == old(peers) && subscribers == old(subscribers)
      ensures messageStore == old(messageStore) && broadcasts == old(broadcasts)
    {
      var k := 0;
      while k < |subscribers|
        invariant 0 <= k <= |subscribers|
        invariant notifications == old(notifications) + Fanout(subscribers[..k], old(GetPeers()))
        invariant peerOrder == old(peerOrder) && peers == old(peers) && subscribers == old(subscribers)
        invariant messageStore == old(messageStore) && broadcasts == old(broadcasts)
      {
        notifications := notifications + [Notification(subscribers[k], GetPeers())];
        k := k + 1;
        assert subscribers[..k][..k - 1] == subscribers[..k - 1];
      }
      assert subscribers[..k] == subscribers;
    }
  }
}
