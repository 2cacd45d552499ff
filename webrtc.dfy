/** The peer bookkeeping of `WebRTCClientAdapter`
    (`src/lib/sync/WebRTCClientAdapter.ts`): which devices the adapter knows,
    which it still has to connect to, the peer it holds for each device, the
    Automerge peer id each device announced, and the ready flag. Peers are
    opaque handles; closing one, sending over one and emitting an event are
    recorded in logs. */
module WebRtc {
  import opened Wrappers

  type DeviceId = string
  /** `PeerMetadata`, never inspected by the adapter. */
  type Metadata = map<string, string>
  /** A `Peer` object, identified by the order in which it was created. */
  type PeerHandle = nat

  /** A decoded `SyncMessage`: its `type`, `senderId`, `targetId` and
      `peerMetadata`, and every other field carried along unchanged. */
  datatype SyncMessage = SyncMessage(
    msgType: string,
    senderId: Option<string>,
    targetId: Option<string>,
    peerMetadata: Option<Metadata>,
    rest: map<string, string>)

  /** The bytes handed to `receive`: empty, or the encoding of a message. */
  datatype Bytes = ZeroLength | Encoded(message: SyncMessage)

  /** `peer.send(bytes)`: the peer and the message encoded. */
  datatype Packet = Packet(peer: PeerHandle, message: SyncMessage)

  /** What the adapter emits: `peer-candidate`, `message`,
      `peer-disconnected` and `close` through the network adapter, and
      `ready` through its internal emitter. */
  datatype Event =
    | PeerCandidate(peerId: Option<string>, peerMetadata: Option<Metadata>, deviceId: DeviceId)
    | MessageEvent(message: SyncMessage)
    | PeerDisconnected(remoteId: string, deviceId: DeviceId)
    | Close
    | Ready

  /** A string that JavaScript treats as true: present and not empty. */
  predicate Truthy(s: Option<string>) {
    s.Some? && s.value != ""
  }

  // ---------------------------------------------------------------------
  // Sets of device ids: a JavaScript `Set` keeps insertion order.

  /** `set.add(x)` */
  function SetAdd(s: seq<DeviceId>, x: DeviceId): (r: seq<DeviceId>)
    ensures forall y :: y in r <==> y in s || y == x
    ensures Distinct(s) ==> Distinct(r)
  {
    if x in s then s else s + [x]
  }

  /** `set.delete(x)` */
  function SetDelete(s: seq<DeviceId>, x: DeviceId): (r: seq<DeviceId>)
    ensures forall y :: y in r <==> y in s && y != x
    ensures Distinct(s) ==> Distinct(r)
    decreases |s|
  {
    if s == [] then []
    else if s[0] == x then SetDelete(s[1..], x)
    else
      assert Distinct(s) ==> Distinct(s[1..]) && s[0] !in s[1..] by {
        if Distinct(s) {
          forall i, j | 0 <= i < j < |s| - 1
            ensures s[1..][i] != s[1..][j]
          {
            assert s[i + 1] != s[j + 1];
          }
          forall t | 0 <= t < |s| - 1
            ensures s[1..][t] != s[0]
          {
            assert s[0] != s[t + 1];
          }
        }
      }
      [s[0]] + SetDelete(s[1..], x)
  }

  /** The set `deviceIds` built by the first loop of `setDeviceIds`: the
      listed ids other than the local device's, in first-seen order. */
  function Kept(list: seq<DeviceId>, local: DeviceId): seq<DeviceId>
    decreases |list|
  {
    if list == [] then []
    else
      var acc := Kept(list[..|list| - 1], local);
      var x := list[|list| - 1];
      if x == local then acc else SetAdd(acc, x)
  }

  /** `#newDeviceIds` after the first loop of `setDeviceIds`: every listed id
      other than the local one that is not in `known` is added to `queued`. */
  function Queued(list: seq<DeviceId>, local: DeviceId, known: seq<DeviceId>, queued: seq<DeviceId>): seq<DeviceId>
    decreases |list|
  {
    if list == [] then queued
    else
      var acc := Queued(list[..|list| - 1], local, known, queued);
      var x := list[|list| - 1];
      if x == local || x in known then acc else SetAdd(acc, x)
  }

  /** The previously known devices that the second loop of `setDeviceIds`
      drops: no longer listed, and holding a peer. */
  function Stale(known: seq<DeviceId>, kept: seq<DeviceId>, peers: map<DeviceId, PeerHandle>): set<DeviceId> {
    set d | d in known && d !in kept && d in peers
  }

  /** The devices of a list, as a set. */
  function Members(s: seq<DeviceId>): set<DeviceId> {
    set d | d in s
  }

  /** The peers of the devices in `ds`. */
  function PeersOf(peers: map<DeviceId, PeerHandle>, ds: set<DeviceId>): set<PeerHandle> {
    set d | d in ds && d in peers :: peers[d]
  }

  lemma {:induction false} KeptMembers(list: seq<DeviceId>, local: DeviceId)
    ensures forall d :: d in Kept(list, local) <==> d in list && d != local
    ensures Distinct(Kept(list, local))
    decreases |list|
  {
    if list != [] {
      var init := list[..|list| - 1];
      KeptMembers(init, local);
      assert list == init + [list[|list| - 1]];
    }
  }

  lemma {:induction false} QueuedMembers(list: seq<DeviceId>, local: DeviceId, known: seq<DeviceId>, queued: seq<DeviceId>)
    ensures forall d :: d in Queued(list, local, known, queued) <==>
      d in queued || (d in list && d != local && d !in known)
    ensures Distinct(queued) ==> Distinct(Queued(list, local, known, queued))
    decreases |list|
  {
    if list != [] {
      var init := list[..|list| - 1];
      QueuedMembers(init, local, known, queued);
      assert list == init + [list[|list| - 1]];
    }
  }

  // ---------------------------------------------------------------------
  // Creating peers

  /** `#remotePeers` after `#createPeer` for each device of `queue` in turn,
      the new peers taking the handles `next`, `next + 1`, ... */
  function CreatedPeers(peers: map<DeviceId, PeerHandle>, queue: seq<DeviceId>, next: PeerHandle): map<DeviceId, PeerHandle>
    decreases |queue|
  {
    if queue == [] then peers
    else CreatedPeers(peers, queue[..|queue| - 1], next)[queue[|queue| - 1] := next + |queue| - 1]
  }

  /** The device each of those new peers was created for. */
  function CreatedOrigins(origins: map<PeerHandle, DeviceId>, queue: seq<DeviceId>, next: PeerHandle): map<PeerHandle, DeviceId>
    decreases |queue|
  {
    if queue == [] then origins
    else CreatedOrigins(origins, queue[..|queue| - 1], next)[next + |queue| - 1 := queue[|queue| - 1]]
  }

  /** Each queued device gets the peer created for it, in queue order, and
      every other device keeps the peer it had. */
  lemma {:induction false} CreatedPeersAt(peers: map<DeviceId, PeerHandle>, queue: seq<DeviceId>, next: PeerHandle)
    requires Distinct(queue)
    ensures forall k :: 0 <= k < |queue| ==>
      queue[k] in CreatedPeers(peers, queue, next) && CreatedPeers(peers, queue, next)[queue[k]] == next + k
    ensures forall d :: d !in queue ==>
      (d in CreatedPeers(peers, queue, next) <==> d in peers) &&
      (d in peers ==> CreatedPeers(peers, queue, next)[d] == peers[d])
    decreases |queue|
  {
    if queue != [] {
      var init := queue[..|queue| - 1];
      assert Distinct(init) by {
        forall i, j | 0 <= i < j < |init|
          ensures init[i] != init[j]
        {
          assert queue[i] != queue[j];
        }
      }
      CreatedPeersAt(peers, init, next);
      forall k | 0 <= k < |init|
        ensures init[k] != queue[|queue| - 1]
      {
        assert queue[k] != queue[|queue| - 1];
      }
      assert queue == init + [queue[|queue| - 1]];
    }
  }

  /** One turn of the loop of `#join`: the effect of `#createPeer` on the
      `k`-th queued device extends the tables by that device. */
  lemma JoinStep(peers: map<DeviceId, PeerHandle>, origins: map<PeerHandle, DeviceId>, queue: seq<DeviceId>, k: nat, next: PeerHandle)
    requires Distinct(queue) && k < |queue|
    ensures var before := CreatedPeers(peers, queue[..k], next);
      (queue[k] in before <==> queue[k] in peers) &&
      (queue[k] in peers ==> before[queue[k]] == peers[queue[k]]) &&
      CreatedPeers(peers, queue[..k + 1], next) == before[queue[k] := next + k] &&
      CreatedOrigins(origins, queue[..k + 1], next) == CreatedOrigins(origins, queue[..k], next)[next + k := queue[k]] &&
      PeersOf(peers, Members(queue[..k + 1])) ==
        PeersOf(peers, Members(queue[..k])) + (if queue[k] in peers then {peers[queue[k]]} else {})
  {
    var q := queue[..k + 1];
    assert q[..k] == queue[..k];
    assert q == queue[..k] + [queue[k]];
    assert Members(q) == Members(queue[..k]) + {queue[k]};
    assert queue[k] !in queue[..k] by {
      forall t | 0 <= t < k
        ensures queue[t] != queue[k]
      {
      }
    }
    assert Distinct(queue[..k]) by {
      forall i, j | 0 <= i < j < k
        ensures queue[..k][i] != queue[..k][j]
      {
        assert queue[i] != queue[j];
      }
    }
    CreatedPeersAt(peers, queue[..k], next);
  }

  /** One turn of the second loop of `setDeviceIds`, over `known[j]`. */
  lemma DropStep(known: seq<DeviceId>, j: nat, kept: seq<DeviceId>, peers: map<DeviceId, PeerHandle>)
    requires Distinct(known) && j < |known|
    ensures known[j] !in Stale(known[..j], kept, peers)
    ensures Stale(known[..j + 1], kept, peers) ==
      Stale(known[..j], kept, peers) + (if known[j] !in kept && known[j] in peers then {known[j]} else {})
  {
    assert known[..j + 1] == known[..j] + [known[j]];
    assert known[j] !in known[..j] by {
      forall t | 0 <= t < j
        ensures known[t] != known[j]
      {
      }
    }
  }

  /** The new peers' handles, `next` up to `next + |queue|`, name the queued
      devices in order; older handles keep theirs. */
  lemma {:induction false} CreatedOriginsAt(origins: map<PeerHandle, DeviceId>, queue: seq<DeviceId>, next: PeerHandle)
    ensures forall h :: next <= h < next + |queue| ==>
      h in CreatedOrigins(origins, queue, next) && CreatedOrigins(origins, queue, next)[h] == queue[h - next]
    ensures forall h :: h < next ==>
      (h in CreatedOrigins(origins, queue, next) <==> h in origins) &&
      (h in origins ==> CreatedOrigins(origins, queue, next)[h] == origins[h])
    decreases |queue|
  {
    if queue != [] {
      var init := queue[..|queue| - 1];
      CreatedOriginsAt(origins, init, next);
      assert forall t :: 0 <= t < |init| ==> init[t] == queue[t];
    }
  }

  // ---------------------------------------------------------------------
  // Sending

  /** The packets `send` writes for a message not addressed to `'self'`:
      one per listed device that has a peer, except the devices in
      `failing`, whose `peer.send` throws and is caught. */
  function Fanout(ids: seq<DeviceId>, peers: map<DeviceId, PeerHandle>, failing: set<DeviceId>, m: SyncMessage): seq<Packet>
    decreases |ids|
  {
    if ids == [] then []
    else
      var d := ids[|ids| - 1];
      Fanout(ids[..|ids| - 1], peers, failing, m) +
        (if d in peers && d !in failing then [Packet(peers[d], m)] else [])
  }

  /** Every listed device with a working peer receives the message, nothing
      else is sent, and no peer is sent to twice when the devices are
      distinct and hold distinct peers: a failing device does not affect
      the others. */
  lemma {:induction false} FanoutReaches(ids: seq<DeviceId>, peers: map<DeviceId, PeerHandle>, failing: set<DeviceId>, m: SyncMessage)
    ensures forall d :: d in ids && d in peers && d !in failing ==> Packet(peers[d], m) in Fanout(ids, peers, failing, m)
    ensures forall p :: p in Fanout(ids, peers, failing, m) ==>
      p.message == m && p.peer in PeersOf(peers, (set d | d in ids && d !in failing))
    ensures Distinct(ids) && (forall d1, d2 :: d1 in peers && d2 in peers && peers[d1] == peers[d2] ==> d1 == d2) ==>
      forall i, j :: 0 <= i < j < |Fanout(ids, peers, failing, m)| ==>
        Fanout(ids, peers, failing, m)[i].peer != Fanout(ids, peers, failing, m)[j].peer
    decreases |ids|
  {
    if ids != [] {
      var init := ids[..|ids| - 1];
      var d := ids[|ids| - 1];
      FanoutReaches(init, peers, failing, m);
      assert ids == init + [d];
      var f := Fanout(init, peers, failing, m);
      forall p | p in Fanout(ids, peers, failing, m)
        ensures p.peer in PeersOf(peers, (set d | d in ids && d !in failing))
      {
        if p !in f {
          assert d in ids;
        } else {
          var e :| e in init && e !in failing && e in peers && p.peer == peers[e];
          assert e in ids;
        }
      }
      if Distinct(ids) && (forall d1, d2 :: d1 in peers && d2 in peers && peers[d1] == peers[d2] ==> d1 == d2) {
        assert Distinct(init) by {
          forall i, j | 0 <= i < j < |init|
            ensures init[i] != init[j]
          {
            assert ids[i] != ids[j];
          }
        }
        if d in peers && d !in failing {
          forall i | 0 <= i < |f|
            ensures f[i].peer != peers[d]
          {
            assert f[i] in f;
            var e :| e in init && e !in failing && e in peers && f[i].peer == peers[e];
            var t :| 0 <= t < |init| && init[t] == e;
            assert ids[t] != ids[|ids| - 1];
          }
        }
      }
    }
  }

  /** Every peer handle created or closed is below `nextPeer`, and every
      device's current peer was created for that device and is not closed. */
  predicate Linked(remotePeers: map<DeviceId, PeerHandle>, peerDevice: map<PeerHandle, DeviceId>,
                   nextPeer: PeerHandle, closed: set<PeerHandle>) {
    (forall h :: h in peerDevice ==> h < nextPeer) &&
    (forall h :: h in closed ==> h < nextPeer) &&
    forall d :: d in remotePeers ==>
      remotePeers[d] in peerDevice && peerDevice[remotePeers[d]] == d && remotePeers[d] !in closed
  }

  /** Closing a peer and forgetting the peer of its device keeps the other
      devices' peers linked. */
  lemma LinkedAfterClose(remotePeers: map<DeviceId, PeerHandle>, peerDevice: map<PeerHandle, DeviceId>,
                         nextPeer: PeerHandle, closed: set<PeerHandle>, peer: PeerHandle)
    requires Linked(remotePeers, peerDevice, nextPeer, closed) && peer in peerDevice
    ensures Linked(remotePeers - {peerDevice[peer]}, peerDevice, nextPeer, closed + {peer})
  {
    forall d | d in remotePeers - {peerDevice[peer]}
      ensures remotePeers[d] != peer
    {
      assert peerDevice[remotePeers[d]] == d;
    }
  }

  // ---------------------------------------------------------------------
  // The ready flag and the event log

  /** The number of `ready` events after the last `close` in `es` (in all
      of `es` when there is none). */
  function ReadySinceClose(es: seq<Event>): nat
    decreases |es|
  {
    if es == [] then 0
    else if es[|es| - 1].Close? then 0
    else ReadySinceClose(es[..|es| - 1]) + (if es[|es| - 1].Ready? then 1 else 0)
  }

  /** Since the last `close`, `ready` has been emitted once if the adapter is
      ready and not at all otherwise. */
  predicate ReadyConsistent(es: seq<Event>, ready: bool) {
    ReadySinceClose(es) == if ready then 1 else 0
  }

  /** An event other than `ready` and `close` leaves the count alone; `ready`
      adds one and `close` starts afresh. */
  lemma ReadyCountAppend(es: seq<Event>, e: Event)
    ensures ReadySinceClose(es + [e]) ==
      if e.Close? then 0
      else if e.Ready? then ReadySinceClose(es) + 1
      else ReadySinceClose(es)
  {
    assert (es + [e])[..|es|] == es;
  }

  /** The welcome reply to an `arrive` message. */
  function Welcome(peerId: Option<string>, target: Option<string>, metadata: Option<Metadata>): SyncMessage {
    SyncMessage("welcome", peerId, target, metadata, map[])
  }

  class WebRTCClientAdapter {
    /** The result of `getDeviceId()`. */
    const localDeviceId: DeviceId
    /** `this.peerId` and `this.peerMetadata`, set by `connect`. */
    var peerId: Option<string>
    var peerMetadata: Option<Metadata>
    /** `#ready` */
    var ready: bool
    /** `#remotePeers` and `#remotePeerIds` */
    var remotePeers: map<DeviceId, PeerHandle>
    var remotePeerIds: map<DeviceId, Option<string>>
    /** `#deviceIds` and `#newDeviceIds` */
    var deviceIds: seq<DeviceId>
    var newDeviceIds: seq<DeviceId>
    /** The device each peer was created for (the `deviceId` its handlers
        capture), the handle the next peer gets, and the peers closed. */
    var peerDevice: map<PeerHandle, DeviceId>
    var nextPeer: PeerHandle
    var closed: set<PeerHandle>
    /** Every `peer.send` and every event emitted, in order. */
    var outbox: seq<Packet>
    var events: seq<Event>

    /** The invariant of the adapter: the id sets, the peers and the event
        log are each consistent. */
    ghost predicate Valid()
      reads this`deviceIds, this`newDeviceIds, this`peerDevice, this`nextPeer, this`closed,
            this`remotePeers, this`events, this`ready
    {
      IdsValid() && PeersValid() && EventsValid()
    }

    /** Neither id set holds a duplicate. */
    ghost predicate IdsValid()
      reads this`deviceIds, this`newDeviceIds
    {
      Distinct(deviceIds) && Distinct(newDeviceIds)
    }

    /** Every peer handle created or closed is below `nextPeer`, and every
        peer in `#remotePeers` was created for the device it is stored under
        and is still open. */
    ghost predicate PeersValid()
      reads this`peerDevice, this`nextPeer, this`closed, this`remotePeers
    {
      (forall h :: h in peerDevice ==> h < nextPeer) &&
      (forall h :: h in closed ==> h < nextPeer) &&
      (forall d :: d in remotePeers ==>
        remotePeers[d] in peerDevice && peerDevice[remotePeers[d]] == d && remotePeers[d] !in closed)
    }

    /** The event log agrees with the ready flag. */
    ghost predicate EventsValid()
      reads this`events, this`ready
    {
      ReadyConsistent(events, ready)
    }

    /** The peer fields after `#join`, against the values before it: when
        `active` (a `peerId` is set) every queued device got a new peer,
        replacing and closing any old one, and the queue is empty; otherwise
        nothing changed. */
    ghost predicate JoinedFrom(active: bool, queue: seq<DeviceId>, peers0: map<DeviceId, PeerHandle>,
                               origins0: map<PeerHandle, DeviceId>, closed0: set<PeerHandle>, next0: PeerHandle)
      reads this`newDeviceIds, this`remotePeers, this`peerDevice, this`nextPeer, this`closed
    {
      if active then
        newDeviceIds == [] &&
        remotePeers == CreatedPeers(peers0, queue, next0) &&
        peerDevice == CreatedOrigins(origins0, queue, next0) &&
        nextPeer == next0 + |queue| &&
        closed == closed0 + PeersOf(peers0, Members(queue))
      else
        newDeviceIds == queue && remotePeers == peers0 && peerDevice == origins0 &&
        nextPeer == next0 && closed == closed0
    }

    /** What `receive` does with the decoded message `m` from `from`, to the
        fields it may change. */
    twostate predicate Dispatched(from: DeviceId, m: SyncMessage)
      reads this
    {
      var candidate := [PeerCandidate(m.senderId, m.peerMetadata, from)] + (if old(ready) then [] else [Ready]);
      if m.msgType == "arrive" then
        outbox == old(outbox) +
          (if from in old(remotePeers)
           then [Packet(old(remotePeers)[from], Welcome(old(peerId), m.senderId, old(peerMetadata)))]
           else []) &&
        remotePeerIds == old(remotePeerIds)[from := m.senderId] &&
        events == old(events) + candidate && ready
      else if m.msgType == "welcome" then
        outbox == old(outbox) &&
        remotePeerIds == old(remotePeerIds)[from := m.senderId] &&
        events == old(events) + candidate && ready
      else
        outbox == old(outbox) && remotePeerIds == old(remotePeerIds) &&
        events == old(events) + [MessageEvent(m)] && ready == old(ready)
    }

    constructor(localDeviceId: DeviceId)
      ensures Valid()
      ensures this.localDeviceId == localDeviceId
      ensures peerId == None && peerMetadata == None && !ready
      ensures remotePeers == map[] && remotePeerIds == map[]
      ensures deviceIds == [] && newDeviceIds == []
      ensures peerDevice == map[] && nextPeer == 0 && closed == {}
      ensures outbox == [] && events == []
    {
      this.localDeviceId := localDeviceId;
      peerId := None;
      peerMetadata := None;
      ready := false;
      remotePeers := map[];
      remotePeerIds := map[];
      deviceIds := [];
      newDeviceIds := [];
      peerDevice := map[];
      nextPeer := 0;
      closed := {};
      outbox := [];
      events := [];
    }

    /** `isReady()` */
    function IsReady(): bool
      reads this
    {
      ready
    }

    /** `setDeviceIds(deviceIdList)`: the listed ids other than the local
        one become `#deviceIds`, those not known before are queued, known
        devices no longer listed lose their peer (closed) and their remote
        peer id, and `#join` runs. */
    method SetDeviceIds(deviceIdList: seq<DeviceId>)
      requires Valid()
      modifies this`deviceIds, this`newDeviceIds, this`remotePeers, this`remotePeerIds,
               this`closed, this`peerDevice, this`nextPeer
      ensures Valid()
      ensures deviceIds == Kept(deviceIdList, localDeviceId)
      ensures var stale := Stale(old(deviceIds), deviceIds, old(remotePeers));
        remotePeerIds == old(remotePeerIds) - stale &&
        JoinedFrom(Truthy(peerId), Queued(deviceIdList, localDeviceId, old(deviceIds), old(newDeviceIds)),
                   old(remotePeers) - stale, old(peerDevice), old(closed) + PeersOf(old(remotePeers), stale), old(nextPeer))
    {
      var ids := ListedIds(deviceIdList);
      DropUnlisted(ids);
      deviceIds := ids;
      Join();
    }

    /** The first loop of `setDeviceIds`: the listed ids other than the
        local one, the unknown ones among them being queued. */
    method ListedIds(deviceIdList: seq<DeviceId>) returns (ids: seq<DeviceId>)
      requires Distinct(newDeviceIds)
      modifies this`newDeviceIds
      ensures ids == Kept(deviceIdList, localDeviceId) && Distinct(ids)
      ensures newDeviceIds == Queued(deviceIdList, localDeviceId, deviceIds, old(newDeviceIds))
      ensures Distinct(newDeviceIds)
    {
      ids := [];
      for i := 0 to |deviceIdList|
        invariant ids == Kept(deviceIdList[..i], localDeviceId)
        invariant newDeviceIds == Queued(deviceIdList[..i], localDeviceId, deviceIds, old(newDeviceIds))
      {
        var deviceId := deviceIdList[i];
        assert deviceIdList[..i + 1][..i] == deviceIdList[..i];
        if deviceId == localDeviceId {
          continue;
        }
        if deviceId !in deviceIds {
          newDeviceIds := SetAdd(newDeviceIds, deviceId);
        }
        ids := SetAdd(ids, deviceId);
      }
      assert deviceIdList[..|deviceIdList|] == deviceIdList;
      KeptMembers(deviceIdList, localDeviceId);
      QueuedMembers(deviceIdList, localDeviceId, deviceIds, old(newDeviceIds));
    }

    /** The second loop of `setDeviceIds`: every known device not in `ids`
        that holds a peer has it closed and loses its entries in both maps. */
    method DropUnlisted(ids: seq<DeviceId>)
      requires Valid()
      modifies this`remotePeers, this`remotePeerIds, this`closed
      ensures Valid()
      ensures var stale := Stale(deviceIds, ids, old(remotePeers));
        remotePeers == old(remotePeers) - stale &&
        remotePeerIds == old(remotePeerIds) - stale &&
        closed == old(closed) + PeersOf(old(remotePeers), stale)
    {
      for j := 0 to |deviceIds|
        invariant Valid()
        invariant var dropped := Stale(deviceIds[..j], ids, old(remotePeers));
          remotePeers == old(remotePeers) - dropped &&
          remotePeerIds == old(remotePeerIds) - dropped &&
          closed == old(closed) + PeersOf(old(remotePeers), dropped)
      {
        var deviceId := deviceIds[j];
        DropStep(deviceIds, j, ids, old(remotePeers));
        if deviceId in ids {
          continue;
        }
        if deviceId in remotePeers {
          ClosePeer(deviceId);
        }
      }
      assert deviceIds[..|deviceIds|] == deviceIds;
    }

    /** `peer.close()` for the device's peer, then its entries deleted from
        `#remotePeers` and `#remotePeerIds`. */
    method ClosePeer(deviceId: DeviceId)
      requires Valid() && deviceId in remotePeers
      modifies this`remotePeers, this`remotePeerIds, this`closed
      ensures Valid()
      ensures closed == old(closed) + {old(remotePeers)[deviceId]}
      ensures remotePeers == old(remotePeers) - {deviceId}
      ensures remotePeerIds == old(remotePeerIds) - {deviceId}
    {
      var peer := remotePeers[deviceId];
      closed := closed + {peer};
      remotePeers := remotePeers - {deviceId};
      remotePeerIds := remotePeerIds - {deviceId};
    }

    /** `addDeviceId(deviceId)`: nothing when the id is known or queued;
        otherwise it joins both sets and `#join` runs. */
    method AddDeviceId(deviceId: DeviceId)
      requires Valid()
      modifies this`deviceIds, this`newDeviceIds, this`remotePeers, this`closed, this`peerDevice, this`nextPeer
      ensures Valid()
      ensures old(deviceId in deviceIds || deviceId in newDeviceIds) ==>
        deviceIds == old(deviceIds) && newDeviceIds == old(newDeviceIds) && remotePeers == old(remotePeers) &&
        closed == old(closed) && peerDevice == old(peerDevice) && nextPeer == old(nextPeer)
      ensures old(deviceId !in deviceIds && deviceId !in newDeviceIds) ==>
        deviceIds == old(deviceIds) + [deviceId] &&
        JoinedFrom(Truthy(peerId), old(newDeviceIds) + [deviceId], old(remotePeers), old(peerDevice), old(closed), old(nextPeer))
    {
      if deviceId in deviceIds || deviceId in newDeviceIds {
        return;
      }
      deviceIds := SetAdd(deviceIds, deviceId);
      newDeviceIds := SetAdd(newDeviceIds, deviceId);
      Join();
    }

    /** `removeDeviceId(deviceId)`: the id leaves both sets; its peer, if
        any, is closed and forgotten together with its remote peer id. */
    method RemoveDeviceId(deviceId: DeviceId)
      requires Valid()
      modifies this`deviceIds, this`newDeviceIds, this`remotePeers, this`remotePeerIds, this`closed
      ensures Valid()
      ensures deviceIds == SetDelete(old(deviceIds), deviceId)
      ensures newDeviceIds == SetDelete(old(newDeviceIds), deviceId)
      ensures deviceId in old(remotePeers) ==>
        closed == old(closed) + {old(remotePeers)[deviceId]} &&
        remotePeers == old(remotePeers) - {deviceId} &&
        remotePeerIds == old(remotePeerIds) - {deviceId}
      ensures deviceId !in old(remotePeers) ==>
        closed == old(closed) && remotePeers == old(remotePeers) && remotePeerIds == old(remotePeerIds)
    {
      deviceIds := SetDelete(deviceIds, deviceId);
      newDeviceIds := SetDelete(newDeviceIds, deviceId);
      if deviceId in remotePeers {
        ClosePeer(deviceId);
      }
    }

    /** `connect(peerId, peerMetadata)`: records both, runs `#join`, announces
        the local device as the candidate `'self'` and forces ready. */
    method Connect(id: string, metadata: Option<Metadata>)
      requires Valid()
      modifies this`peerId, this`peerMetadata, this`newDeviceIds, this`remotePeers, this`closed,
               this`peerDevice, this`nextPeer, this`ready, this`events
      ensures Valid()
      ensures peerId == Some(id) && peerMetadata == metadata && ready
      ensures JoinedFrom(id != "", old(newDeviceIds), old(remotePeers), old(peerDevice), old(closed), old(nextPeer))
      ensures events == old(events) + [PeerCandidate(Some("self"), metadata, localDeviceId)] +
        (if old(ready) then [] else [Ready])
    {
      peerId := Some(id);
      peerMetadata := metadata;
      Join();
      EmitCandidate(PeerCandidate(Some("self"), metadata, localDeviceId));
    }

    /** `#join()`: without a `peerId` nothing happens; otherwise the queue is
        emptied and a peer created for each queued device, in order. */
    method Join()
      requires Valid()
      modifies this`newDeviceIds, this`remotePeers, this`closed, this`peerDevice, this`nextPeer
      ensures Valid()
      ensures JoinedFrom(Truthy(peerId), old(newDeviceIds), old(remotePeers), old(peerDevice), old(closed), old(nextPeer))
    {
      if !Truthy(peerId) {
        return;
      }
      var queue := newDeviceIds;
      newDeviceIds := [];
      for k := 0 to |queue|
        invariant Valid()
        invariant newDeviceIds == []
        invariant remotePeers == CreatedPeers(old(remotePeers), queue[..k], old(nextPeer))
        invariant peerDevice == CreatedOrigins(old(peerDevice), queue[..k], old(nextPeer))
        invariant nextPeer == old(nextPeer) + k
        invariant closed == old(closed) + PeersOf(old(remotePeers), Members(queue[..k]))
      {
        JoinStep(old(remotePeers), old(peerDevice), queue, k, old(nextPeer));
        CreatePeer(queue[k]);
      }
      assert queue[..|queue|] == queue;
    }

    /** `#createPeer(deviceId)`: closes the device's current peer, if any,
        and puts a new one in its place. */
    method CreatePeer(deviceId: DeviceId)
      requires Valid()
      modifies this`remotePeers, this`closed, this`peerDevice, this`nextPeer
      ensures Valid()
      ensures closed == old(closed) + (if deviceId in old(remotePeers) then {old(remotePeers)[deviceId]} else {})
      ensures remotePeers == old(remotePeers)[deviceId := old(nextPeer)]
      ensures peerDevice == old(peerDevice)[old(nextPeer) := deviceId]
      ensures nextPeer == old(nextPeer) + 1
    {
      if deviceId in remotePeers {
        closed := closed + {remotePeers[deviceId]};
      }
      var peer := nextPeer;
      nextPeer := nextPeer + 1;
      peerDevice := peerDevice[peer := deviceId];
      remotePeers := remotePeers[deviceId := peer];
    }

    /** `disconnect()`: every peer closed, both maps cleared, not ready, and
        `close` emitted. */
    method Disconnect()
      requires Valid()
      modifies this`closed, this`remotePeers, this`remotePeerIds, this`ready, this`events
      ensures Valid()
      ensures closed == old(closed) + old(remotePeers).Values
      ensures remotePeers == map[] && remotePeerIds == map[] && !ready
      ensures events == old(events) + [Close]
    {
      forall h | h in remotePeers.Values
        ensures h < nextPeer
      {
        var deviceId :| deviceId in remotePeers && remotePeers[deviceId] == h;
      }
      CloseAll(remotePeers.Values);
      remotePeers := map[];
      remotePeerIds := map[];
      ready := false;
      ReadyCountAppend(events, Close);
      events := events + [Close];
    }

    /** The loop of `disconnect` over `#remotePeers.values()`: `close()` on
        each peer. */
    method CloseAll(peers: set<PeerHandle>)
      modifies this`closed
      ensures closed == old(closed) + peers
    {
      var remaining := peers;
      while remaining != {}
        invariant remaining <= peers
        invariant closed == old(closed) + (peers - remaining)
        decreases |remaining|
      {
        var peer :| peer in remaining;
        closed := closed + {peer};
        remaining := remaining - {peer};
      }
    }

    /** `send(message)`: a message for `'self'` is looped back through
        `receive`, as from the local device, with `senderId` `'self'` and
        `targetId` the local peer id; any other goes, stamped with the local
        peer id, to every known device that has a peer (`failing` are the
        devices whose send throws). */
    method Send(message: SyncMessage, failing: set<DeviceId>)
      requires Valid()
      modifies this`outbox, this`remotePeerIds, this`events, this`ready
      ensures Valid()
      ensures message.targetId == Some("self") ==>
        Dispatched(localDeviceId, message.(senderId := Some("self"), targetId := peerId))
      ensures message.targetId != Some("self") ==>
        outbox == old(outbox) + Fanout(deviceIds, remotePeers, failing, message.(senderId := peerId)) &&
        remotePeerIds == old(remotePeerIds) && events == old(events) && ready == old(ready)
    {
      if message.targetId == Some("self") {
        var error := Receive(localDeviceId, Encoded(message.(senderId := Some("self"), targetId := peerId)));
        return;
      }
      var stamped := message.(senderId := peerId);
      for i := 0 to |deviceIds|
        invariant remotePeerIds == old(remotePeerIds) && events == old(events) && ready == old(ready)
        invariant outbox == old(outbox) + Fanout(deviceIds[..i], remotePeers, failing, stamped)
      {
        var deviceId := deviceIds[i];
        assert deviceIds[..i + 1][..i] == deviceIds[..i];
        if deviceId in remotePeers && deviceId !in failing {
          outbox := outbox + [Packet(remotePeers[deviceId], stamped)];
        }
      }
      assert deviceIds[..|deviceIds|] == deviceIds;
    }

    /** `receive(fromDeviceId, messageBytes)`: a zero-length payload throws
        before anything else; otherwise the message is dispatched on its
        type. */
    method Receive(fromDeviceId: DeviceId, messageBytes: Bytes) returns (error: Option<string>)
      requires Valid()
      modifies this`outbox, this`remotePeerIds, this`events, this`ready
      ensures Valid()
      ensures messageBytes.ZeroLength? ==>
        error == Some("received a zero-length message") &&
        outbox == old(outbox) && remotePeerIds == old(remotePeerIds) && events == old(events) && ready == old(ready)
      ensures messageBytes.Encoded? ==> error == None && Dispatched(fromDeviceId, messageBytes.message)
    {
      if messageBytes.ZeroLength? {
        return Some("received a zero-length message");
      }
      error := None;
      var syncMessage := messageBytes.message;
      if syncMessage.msgType == "arrive" {
        if fromDeviceId in remotePeers {
          outbox := outbox + [Packet(remotePeers[fromDeviceId], Welcome(peerId, syncMessage.senderId, peerMetadata))];
        }
        Announce(fromDeviceId, syncMessage);
      } else if syncMessage.msgType == "welcome" {
        Announce(fromDeviceId, syncMessage);
      } else {
        Emit(MessageEvent(syncMessage));
      }
    }

    /** The part `arrive` and `welcome` share: the sender's peer id is
        recorded for the device, the device announced as a candidate, and
        the adapter forced ready. */
    method Announce(fromDeviceId: DeviceId, message: SyncMessage)
      requires Valid()
      modifies this`remotePeerIds, this`events, this`ready
      ensures Valid() && ready
      ensures remotePeerIds == old(remotePeerIds)[fromDeviceId := message.senderId]
      ensures events == old(events) + [PeerCandidate(message.senderId, message.peerMetadata, fromDeviceId)] +
        (if old(ready) then [] else [Ready])
    {
      remotePeerIds := remotePeerIds[fromDeviceId := message.senderId];
      EmitCandidate(PeerCandidate(message.senderId, message.peerMetadata, fromDeviceId));
    }

    /** `this.emit('peer-candidate', ...)` followed by `#forceReady()`. */
    method EmitCandidate(candidate: Event)
      requires Valid() && candidate.PeerCandidate?
      modifies this`events, this`ready
      ensures Valid() && ready
      ensures events == old(events) + [candidate] + (if old(ready) then [] else [Ready])
    {
      Emit(candidate);
      ForceReady();
    }

    /** `#forceReady()`: the first call makes the adapter ready and emits
        `ready`; later calls do nothing. */
    method ForceReady()
      requires Valid()
      modifies this`ready, this`events
      ensures Valid() && ready
      ensures events == old(events) + (if old(ready) then [] else [Ready])
    {
      if !ready {
        ReadyCountAppend(events, Ready);
        ready := true;
        events := events + [Ready];
      }
    }

    /** The `'close'` handler a peer gets in `#createPeer`: it announces the
        disconnect when the device has a truthy remote peer id, then forgets
        the device's peer and peer id. It captures the device, not the peer,
        so a replaced peer closing late drops its replacement too. */
    method OnPeerClose(peer: PeerHandle)
      requires Valid() && peer in peerDevice
      modifies this`events, this`remotePeers, this`remotePeerIds, this`closed
      ensures Valid()
      ensures var deviceId := peerDevice[peer];
        var remoteId := if deviceId in old(remotePeerIds) then old(remotePeerIds)[deviceId] else None;
        events == old(events) + (if Truthy(remoteId) then [PeerDisconnected(remoteId.value, deviceId)] else []) &&
        remotePeers == old(remotePeers) - {deviceId} &&
        remotePeerIds == old(remotePeerIds) - {deviceId} &&
        closed == old(closed) + {peer}
    {
      var deviceId := peerDevice[peer];
      var remoteId := if deviceId in remotePeerIds then remotePeerIds[deviceId] else None;
      if Truthy(remoteId) {
        Emit(PeerDisconnected(remoteId.value, deviceId));
      }
      ForgetPeer(peer);
    }

    /** `this.emit(...)` of an event other than `ready` and `close`. */
    method Emit(e: Event)
      requires Valid() && !e.Ready? && !e.Close?
      modifies this`events
      ensures Valid()
      ensures events == old(events) + [e]
    {
      ReadyCountAppend(events, e);
      events := events + [e];
    }

    /** The two deletions of the `'close'` handler: the peer is closed, and
        its device loses its peer and its remote peer id. */
    method ForgetPeer(peer: PeerHandle)
      requires Valid() && peer in peerDevice
      modifies this`remotePeers, this`remotePeerIds, this`closed
      ensures Valid()
      ensures remotePeers == old(remotePeers) - {peerDevice[peer]}
      ensures remotePeerIds == old(remotePeerIds) - {peerDevice[peer]}
      ensures closed == old(closed) + {peer}
    {
      var deviceId := peerDevice[peer];
      LinkedAfterClose(remotePeers, peerDevice, nextPeer, closed, peer);
      remotePeers, remotePeerIds, closed := remotePeers - {deviceId}, remotePeerIds - {deviceId}, closed + {peer};
    }

    /** The `'data'` handler: the payload is received as from the device the
        peer was created for (`peer.getId()`). */
    method OnPeerData(peer: PeerHandle, data: Bytes) returns (error: Option<string>)
      requires Valid() && peer in peerDevice
      modifies this`outbox, this`remotePeerIds, this`events, this`ready
      ensures Valid()
      ensures data.ZeroLength? ==> error.Some?
      ensures data.Encoded? ==> error == None && Dispatched(peerDevice[peer], data.message)
    {
      error := Receive(peerDevice[peer], data);
    }
  }
}
