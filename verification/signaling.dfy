/**
 The signaling room registry as values: a registry maps a room id to the
 peers in that room, in the order they joined (the order in which the room's
 dictionary is iterated). A peer's connection handle is named by its peer id,
 and everything an operation does to handles is an Effect. Each operation is a
 function from the registry before to a Transition: the registry after and the
 effects, in the order they are issued.
 */
module Signaling {

  type RoomId = string
  type PeerId = string

  /** The prefix of every message the server itself originates (MessageType.STATE). */
  const STATE: string := "STATE"
  /** Sent to both occupants once a room holds two peers. */
  const READY: string := STATE + " Ready"
  /** Sent to each occupant left behind when a peer leaves. */
  const DISCONNECTED: string := STATE + " Disconnected"
  /** Sent to a peer that tries to join a room that already holds two. */
  const ROOM_FULL: string := "Room is full. Only 2 peers are allowed."
  /** The most peers a room admits. */
  const CAPACITY: nat := 2

  /** What the registry does to a connection handle. */
  datatype Effect = Send(to: PeerId, text: string) | Close(peer: PeerId)

  /** The occupants of one room, oldest first. */
  type Occupants = seq<PeerId>

  type Registry = map<RoomId, Occupants>

  /** The registry after an operation, and the effects the operation issued. */
  datatype Transition = Transition(rooms: Registry, effects: seq<Effect>)

  /** A room's occupants are the keys of a dictionary: no peer twice. */
  ghost predicate NoDuplicates(s: Occupants)
  {
    forall p :: multiset(s)[p] <= 1
  }

  /** Every room that exists holds one or two distinct peers. */
  ghost predicate WellFormed(rooms: Registry)
  {
    forall r :: r in rooms ==> 1 <= |rooms[r]| <= CAPACITY && NoDuplicates(rooms[r])
  }

  /** No peer is in two rooms at once. */
  ghost predicate Exclusive(rooms: Registry)
  {
    forall r1, r2, p :: r1 in rooms && r2 in rooms && p in rooms[r1] && p in rooms[r2] ==> r1 == r2
  }

  /** Every room other than `room` exists in `after` exactly when it exists in
      `before`, with the same occupants in the same order. */
  ghost predicate SameElsewhere(before: Registry, after: Registry, room: RoomId)
  {
    forall r :: r != room ==> (r in before <==> r in after) && (r in before ==> after[r] == before[r])
  }

  /** One send of `text` to each peer of `to`, in the order of `to`. */
  function Broadcast(to: seq<PeerId>, text: string): (out: seq<Effect>)
    ensures |out| == |to|
    ensures forall k :: 0 <= k < |to| ==> out[k] == Send(to[k], text)
  {
    if to == [] then [] else Broadcast(to[..|to| - 1], text) + [Send(to[|to| - 1], text)]
  }

  /** The peers of `s` other than `x`, in their order in `s`. */
  function Without(s: Occupants, x: PeerId): (r: Occupants)
    ensures forall p :: p in r <==> p in s && p != x
  {
    if s == [] then []
    else
      var init, last := s[..|s| - 1], s[|s| - 1];
      assert s == init + [last];
      if last == x then Without(init, x) else Without(init, x) + [last]
  }

  /** join_room: create the room if it is absent; reject the peer with a
      message and a close if the room already holds two; otherwise add the
      peer (a peer already present keeps its place) and, if the room now holds
      exactly two, tell both occupants, oldest first, that it is ready. */
  function Joined(rooms: Registry, room: RoomId, peer: PeerId): Transition
  {
    var created := if room in rooms then rooms else rooms[room := []];
    var occupants := created[room];
    if |occupants| >= CAPACITY then
      Transition(created, [Send(peer, ROOM_FULL), Close(peer)])
    else
      var grown := if peer in occupants then occupants else occupants + [peer];
      Transition(created[room := grown], if |grown| == CAPACITY then Broadcast(grown, READY) else [])
  }

  /** relay_message: forward `message` unchanged to every occupant of the
      room except the sender; nothing if the room does not exist. The
      registry is not changed. */
  function Relayed(rooms: Registry, room: RoomId, sender: PeerId, message: string): seq<Effect>
  {
    if room in rooms then Broadcast(Without(rooms[room], sender), message) else []
  }

  /** leave_room: if the peer is in the room, remove it, tell every peer still
      there that it disconnected, and delete the room if it is now empty;
      otherwise do nothing. */
  function Left(rooms: Registry, room: RoomId, peer: PeerId): Transition
  {
    if room in rooms && peer in rooms[room] then
      var rest := Without(rooms[room], peer);
      Transition(if rest == [] then rooms - {room} else rooms[room := rest], Broadcast(rest, DISCONNECTED))
    else
      Transition(rooms, [])
  }

  // ---------------------------------------------------------------------
  // Sending

  /** A broadcast sends `text` to each peer as many times as the peer is
      listed, and so exactly once to each peer of a list without duplicates. */
  lemma {:induction false} BroadcastCount(to: seq<PeerId>, text: string, p: PeerId)
    ensures multiset(Broadcast(to, text))[Send(p, text)] == multiset(to)[p]
    ensures NoDuplicates(to) ==> multiset(Broadcast(to, text))[Send(p, text)] == if p in to then 1 else 0
  {
    if to != [] {
      var init, last := to[..|to| - 1], to[|to| - 1];
      assert to == init + [last];
      BroadcastCount(init, text, p);
    }
  }

  /** Broadcasting to one more peer sends to it last. */
  lemma BroadcastSnoc(to: seq<PeerId>, last: PeerId, text: string)
    ensures Broadcast(to + [last], text) == Broadcast(to, text) + [Send(last, text)]
  {
    assert (to + [last])[..|to|] == to;
  }

  /** Filtering one more peer out of a list either drops it or keeps it last. */
  lemma WithoutSnoc(s: Occupants, last: PeerId, x: PeerId)
    ensures Without(s + [last], x) == if last == x then Without(s, x) else Without(s, x) + [last]
  {
    assert (s + [last])[..|s|] == s;
  }

  /** Filtering drops every copy of the peer and keeps every other peer as
      often as it was listed. */
  lemma {:induction false} WithoutCount(s: Occupants, x: PeerId)
    ensures multiset(Without(s, x)) == multiset(s)[x := 0]
    ensures |Without(s, x)| == |s| - multiset(s)[x]
  {
    if s != [] {
      var init, last := s[..|s| - 1], s[|s| - 1];
      assert s == init + [last];
      WithoutCount(init, x);
    }
  }

  /** Filtering a list without duplicates leaves a list without duplicates,
      one shorter when the peer was listed. */
  lemma WithoutNoDuplicates(s: Occupants, x: PeerId)
    requires NoDuplicates(s)
    ensures NoDuplicates(Without(s, x))
    ensures |Without(s, x)| == if x in s then |s| - 1 else |s|
  {
    WithoutCount(s, x);
    forall q ensures multiset(Without(s, x))[q] <= 1 {
      assert multiset(s)[q] <= 1;
    }
  }

  /** Relaying to one more occupant of a room sends to it last, unless it is
      the sender. */
  lemma RelayPrefixStep(s: Occupants, i: nat, sender: PeerId, message: string)
    requires i < |s|
    ensures Broadcast(Without(s[..i + 1], sender), message) ==
            Broadcast(Without(s[..i], sender), message) + if s[i] == sender then [] else [Send(s[i], message)]
  {
    assert s[..i + 1] == s[..i] + [s[i]];
    WithoutSnoc(s[..i], s[i], sender);
    if s[i] != sender {
      BroadcastSnoc(Without(s[..i], sender), s[i], message);
    } else {
      assert Broadcast(Without(s[..i], sender), message) + [] == Broadcast(Without(s[..i], sender), message);
    }
  }

  // ---------------------------------------------------------------------
  // Join

  /** Joining a room that already holds two peers changes no room, sends the
      rejection text to the joiner only, and then closes the joiner. */
  lemma JoinFullRoom(rooms: Registry, room: RoomId, peer: PeerId)
    requires room in rooms && |rooms[room]| >= CAPACITY
    ensures Joined(rooms, room, peer) == Transition(rooms, [Send(peer, ROOM_FULL), Close(peer)])
  {
  }

  /** Joining a room that does not exist creates it with the joiner alone and
      sends nothing. */
  lemma JoinAbsentRoom(rooms: Registry, room: RoomId, peer: PeerId)
    requires room !in rooms
    ensures Joined(rooms, room, peer) == Transition(rooms[room := [peer]], [])
  {
    assert [] + [peer] == [peer];
  }

  /** A join after which the room holds one peer sends nothing. */
  lemma JoinAloneIsSilent(rooms: Registry, room: RoomId, peer: PeerId)
    ensures room in Joined(rooms, room, peer).rooms
    ensures |Joined(rooms, room, peer).rooms[room]| == 1 ==> Joined(rooms, room, peer).effects == []
  {
  }

  /** A second peer joining is appended to the room, and "STATE Ready" is
      sent to the earlier occupant and then to the newcomer. */
  lemma JoinCompletesPair(rooms: Registry, room: RoomId, peer: PeerId)
    requires room in rooms && |rooms[room]| == 1 && peer !in rooms[room]
    ensures Joined(rooms, room, peer).rooms == rooms[room := rooms[room] + [peer]]
    ensures Joined(rooms, room, peer).effects == [Send(rooms[room][0], READY), Send(peer, READY)]
  {
    assert rooms[room] + [peer] == [rooms[room][0], peer];
  }

  /** Whenever a join admits a peer and the room then holds two, each of the
      two occupants gets "STATE Ready" exactly once and nothing else is sent. */
  lemma JoinReadyOnce(rooms: Registry, room: RoomId, peer: PeerId)
    requires !(room in rooms && |rooms[room]| >= CAPACITY)
    requires room in Joined(rooms, room, peer).rooms && |Joined(rooms, room, peer).rooms[room]| == CAPACITY
    ensures forall e :: e in Joined(rooms, room, peer).effects ==> e.Send? && e.text == READY
    ensures forall p :: multiset(Joined(rooms, room, peer).effects)[Send(p, READY)] ==
                        if p in Joined(rooms, room, peer).rooms[room] then 1 else 0
  {
    assert room in rooms && |rooms[room]| == 1 && peer !in rooms[room];
    var a := rooms[room][0];
    JoinCompletesPair(rooms, room, peer);
    assert rooms[room] + [peer] == [a, peer];
    assert multiset(Joined(rooms, room, peer).effects) == multiset{Send(a, READY), Send(peer, READY)};
  }

  /** A join by a peer already in a room of one does not add it again: the
      registry is unchanged and nothing is sent. A re-join into a room of two
      is turned away (`JoinFullRoom`). */
  lemma JoinPresentPeer(rooms: Registry, room: RoomId, peer: PeerId)
    requires room in rooms && |rooms[room]| < CAPACITY && peer in rooms[room]
    ensures Joined(rooms, room, peer) == Transition(rooms, [])
  {
  }

  /** Join keeps every room at one or two distinct peers and touches no room
      but the one named. */
  lemma JoinKeepsWellFormed(rooms: Registry, room: RoomId, peer: PeerId)
    requires WellFormed(rooms)
    ensures WellFormed(Joined(rooms, room, peer).rooms)
    ensures SameElsewhere(rooms, Joined(rooms, room, peer).rooms, room)
  {
    var t := Joined(rooms, room, peer);
    if room in rooms && |rooms[room]| < CAPACITY && peer !in rooms[room] {
      var grown := rooms[room] + [peer];
      assert multiset(grown) == multiset(rooms[room]) + multiset{peer};
      assert t.rooms[room] == grown;
    }
  }

  /** A peer that is in no other room cannot end up in two rooms by joining. */
  lemma JoinKeepsExclusive(rooms: Registry, room: RoomId, peer: PeerId)
    requires Exclusive(rooms)
    requires forall r :: r in rooms && r != room ==> peer !in rooms[r]
    ensures Exclusive(Joined(rooms, room, peer).rooms)
  {
    var t := Joined(rooms, room, peer);
    forall r1, r2, p | r1 in t.rooms && r2 in t.rooms && p in t.rooms[r1] && p in t.rooms[r2]
      ensures r1 == r2
    {
    }
  }

  // ---------------------------------------------------------------------
  // Relay

  /** Relay sends the message unchanged, once to every occupant other than
      the sender and to nobody else; never back to the sender. */
  lemma RelayReachesOthersOnce(rooms: Registry, room: RoomId, sender: PeerId, message: string)
    requires room in rooms && NoDuplicates(rooms[room])
    ensures forall e :: e in Relayed(rooms, room, sender, message) ==>
                          e.Send? && e.text == message && e.to != sender && e.to in rooms[room]
    ensures forall p :: multiset(Relayed(rooms, room, sender, message))[Send(p, message)] ==
                        if p in rooms[room] && p != sender then 1 else 0
  {
    var others := Without(rooms[room], sender);
    WithoutNoDuplicates(rooms[room], sender);
    var out := Broadcast(others, message);
    forall e | e in out ensures e.Send? && e.text == message && e.to != sender && e.to in rooms[room] {
      var k :| 0 <= k < |out| && out[k] == e;
      assert others[k] in others;
    }
    forall p ensures multiset(out)[Send(p, message)] == if p in rooms[room] && p != sender then 1 else 0 {
      BroadcastCount(others, message, p);
    }
  }

  /** Relay into a room that does not exist sends nothing. */
  lemma RelayUnknownRoom(rooms: Registry, room: RoomId, sender: PeerId, message: string)
    requires room !in rooms
    ensures Relayed(rooms, room, sender, message) == []
  {
  }

  // ---------------------------------------------------------------------
  // Leave

  /** Leave of a present peer removes exactly that peer and keeps the others
      in their order; the room is deleted exactly when nobody remains, and
      other rooms are untouched. */
  lemma LeavePresentPeer(rooms: Registry, room: RoomId, peer: PeerId)
    requires room in rooms && peer in rooms[room] && NoDuplicates(rooms[room])
    ensures var rest := Without(rooms[room], peer);
            && |rest| == |rooms[room]| - 1
            && (forall p :: p in rest <==> p in rooms[room] && p != peer)
            && (room in Left(rooms, room, peer).rooms <==> rest != [])
            && (rest != [] ==> Left(rooms, room, peer).rooms[room] == rest)
    ensures SameElsewhere(rooms, Left(rooms, room, peer).rooms, room)
  {
    WithoutNoDuplicates(rooms[room], peer);
  }

  /** Leave of a present peer sends "STATE Disconnected" exactly once to each
      remaining occupant and nothing else to anybody. */
  lemma LeaveNotifiesRemaining(rooms: Registry, room: RoomId, peer: PeerId)
    requires room in rooms && peer in rooms[room] && NoDuplicates(rooms[room])
    ensures var rest := Without(rooms[room], peer);
            && |Left(rooms, room, peer).effects| == |rest|
            && (forall e :: e in Left(rooms, room, peer).effects ==> e.Send? && e.text == DISCONNECTED && e.to in rest)
            && (forall p :: multiset(Left(rooms, room, peer).effects)[Send(p, DISCONNECTED)] == if p in rest then 1 else 0)
  {
    var rest := Without(rooms[room], peer);
    var out := Broadcast(rest, DISCONNECTED);
    WithoutNoDuplicates(rooms[room], peer);
    forall e | e in out ensures e.Send? && e.text == DISCONNECTED && e.to in rest {
      var k :| 0 <= k < |out| && out[k] == e;
    }
    forall p ensures multiset(out)[Send(p, DISCONNECTED)] == if p in rest then 1 else 0 {
      BroadcastCount(rest, DISCONNECTED, p);
    }
  }

  /** Leave keeps every room at one or two distinct peers, whether or not
      the peer was present. */
  lemma LeaveKeepsWellFormed(rooms: Registry, room: RoomId, peer: PeerId)
    requires WellFormed(rooms)
    ensures WellFormed(Left(rooms, room, peer).rooms)
  {
    if room in rooms && peer in rooms[room] {
      var rest := Without(rooms[room], peer);
      WithoutNoDuplicates(rooms[room], peer);
      var after := if rest == [] then rooms - {room} else rooms[room := rest];
      assert Left(rooms, room, peer).rooms == after;
      forall r | r in after ensures 1 <= |after[r]| <= CAPACITY && NoDuplicates(after[r]) {
        if r != room {
          assert after[r] == rooms[r];
        }
      }
    }
  }

  /** Leave for a room that does not exist, or a peer not in it, changes
      nothing and sends nothing. */
  lemma LeaveAbsentIsNoOp(rooms: Registry, room: RoomId, peer: PeerId)
    requires !(room in rooms && peer in rooms[room])
    ensures Left(rooms, room, peer) == Transition(rooms, [])
  {
  }

  /** Leaving twice has the effect of leaving once: the second leave changes
      nothing and sends nothing. */
  lemma LeaveTwice(rooms: Registry, room: RoomId, peer: PeerId)
    ensures var once := Left(rooms, room, peer).rooms;
            Left(once, room, peer) == Transition(once, [])
  {
    var once := Left(rooms, room, peer).rooms;
    if room in rooms && peer in rooms[room] && room in once {
      assert once[room] == Without(rooms[room], peer);
      assert peer !in once[room];
    }
  }

  /** Leaving cannot put a peer in two rooms. */
  lemma LeaveKeepsExclusive(rooms: Registry, room: RoomId, peer: PeerId)
    requires Exclusive(rooms)
    ensures Exclusive(Left(rooms, room, peer).rooms)
  {
    var t := Left(rooms, room, peer);
    forall r1, r2, p | r1 in t.rooms && r2 in t.rooms && p in t.rooms[r1] && p in t.rooms[r2]
      ensures r1 == r2
    {
      assert r1 in rooms && p in rooms[r1];
      assert r2 in rooms && p in rooms[r2];
    }
  }

  // ---------------------------------------------------------------------
  // Runs of operations

  /** One call into the registry, as a connection handler makes it. */
  datatype Request =
    | Join(room: RoomId, peer: PeerId)
    | Relay(room: RoomId, sender: PeerId, message: string)
    | Leave(room: RoomId, peer: PeerId)

  /** The registry and effects of one request, each request running alone. */
  function Apply(rooms: Registry, req: Request): Transition
  {
    match req
    case Join(room, peer) => Joined(rooms, room, peer)
    case Relay(room, sender, message) => Transition(rooms, Relayed(rooms, room, sender, message))
    case Leave(room, peer) => Left(rooms, room, peer)
  }

  /** The registry after the requests run one after another, and all their
      effects in order. */
  function Replay(rooms: Registry, reqs: seq<Request>): Transition
    decreases |reqs|
  {
    if reqs == [] then Transition(rooms, [])
    else
      var first := Apply(rooms, reqs[0]);
      var rest := Replay(first.rooms, reqs[1..]);
      Transition(rest.rooms, first.effects + rest.effects)
  }

  /** No sequence of requests makes a room hold more than two peers or
      leaves an empty room behind. */
  lemma {:induction false} ReplayKeepsWellFormed(rooms: Registry, reqs: seq<Request>)
    requires WellFormed(rooms)
    ensures WellFormed(Replay(rooms, reqs).rooms)
    decreases |reqs|
  {
    if reqs != [] {
      match reqs[0] {
        case Join(room, peer) => JoinKeepsWellFormed(rooms, room, peer);
        case Relay(_, _, _) =>
        case Leave(room, peer) => LeaveKeepsWellFormed(rooms, room, peer);
      }
      ReplayKeepsWellFormed(Apply(rooms, reqs[0]).rooms, reqs[1..]);
    }
  }

  /** In a room of two, filtering out either peer leaves the other. */
  lemma WithoutPair(a: PeerId, b: PeerId)
    requires a != b
    ensures Without([a, b], a) == [b] && Without([a, b], b) == [a]
  {
    assert [a] == [] + [a] && [a, b] == [a] + [b];
    WithoutSnoc([], a, a);
    WithoutSnoc([], a, b);
    WithoutSnoc([a], b, a);
    WithoutSnoc([a], b, b);
  }

  /** Two peers meeting in a room, step by step, for any two distinct peer
      ids and any third: the first peer creates the room silently,
      the second makes it ready and both are told, and a third is turned away
      without disturbing the other two. */
  lemma ScenarioJoins(r: RoomId, p1: PeerId, p2: PeerId, p3: PeerId)
    requires p1 != p2
    ensures Joined(map[], r, p1) == Transition(map[r := [p1]], [])
    ensures Joined(map[r := [p1]], r, p2) == Transition(map[r := [p1, p2]], [Send(p1, READY), Send(p2, READY)])
    ensures Joined(map[r := [p1, p2]], r, p3) == Transition(map[r := [p1, p2]], [Send(p3, ROOM_FULL), Close(p3)])
  {
    assert Joined(map[], r, p1) == Transition(map[r := [p1]], []) by {
      JoinAbsentRoom(map[], r, p1);
    }
    assert Joined(map[r := [p1]], r, p2) == Transition(map[r := [p1, p2]], [Send(p1, READY), Send(p2, READY)]) by {
      JoinCompletesPair(map[r := [p1]], r, p2);
      assert [p1] + [p2] == [p1, p2];
    }
    assert Joined(map[r := [p1, p2]], r, p3) == Transition(map[r := [p1, p2]], [Send(p3, ROOM_FULL), Close(p3)]) by {
      JoinFullRoom(map[r := [p1, p2]], r, p3);
    }
  }

  /** The exchange and the departures that follow: the offer reaches only the
      second peer and the answer only the first; when the first leaves, the
      second is told and stays in the room; when the second leaves too, the
      room is gone and nobody is told. */
  lemma ScenarioExchange(r: RoomId, p1: PeerId, p2: PeerId, offer: string, answer: string)
    requires p1 != p2
    ensures Relayed(map[r := [p1, p2]], r, p1, offer) == [Send(p2, offer)]
    ensures Relayed(map[r := [p1, p2]], r, p2, answer) == [Send(p1, answer)]
    ensures Left(map[r := [p1, p2]], r, p1) == Transition(map[r := [p2]], [Send(p2, DISCONNECTED)])
    ensures Left(map[r := [p2]], r, p2) == Transition(map[], [])
  {
    WithoutPair(p1, p2);
    assert [p2] == [] + [p2];
    WithoutSnoc([], p2, p2);
    assert map[r := [p2]] - {r} == map[];
  }
}
