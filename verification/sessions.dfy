/**
 The session manager as the program runs it: one registry object whose room
 map is updated in place, with every send and close it issues appended to an
 outbox. Each method is proved to do exactly what the matching function of
 module Signaling says, so the lemmas proved there hold of the object.
 */
module Sessions {
  import opened Signaling

  class SessionManager {
    /** Room id to the ids of the peers in it, oldest first. */
    var rooms: Registry
    /** Every send and close issued so far, in order. */
    var outbox: seq<Effect>

    /** Rooms hold one or two distinct peers; no empty room is kept. */
    ghost predicate Valid()
      reads this
    {
      WellFormed(rooms)
    }

    constructor ()
      ensures Valid()
      ensures rooms == map[] && outbox == []
    {
      rooms := map[];
      outbox := [];
    }

    /** Sends `text` to each peer of `to`, one after another. */
    method Notify(to: Occupants, text: string)
      modifies this`outbox
      ensures outbox == old(outbox) + Broadcast(to, text)
    {
      var i := 0;
      while i < |to|
        invariant 0 <= i <= |to|
        invariant outbox == old(outbox) + Broadcast(to[..i], text)
      {
        assert to[..i + 1][..i] == to[..i];
        outbox := outbox + [Send(to[i], text)];
        i := i + 1;
      }
      assert to[..|to|] == to;
    }

    /** join_room: admit the peer to the room, or turn it away if the room
        is full; the room becomes ready when it reaches two peers. */
    method JoinRoom(room: RoomId, peer: PeerId)
      requires Valid()
      modifies this
      ensures Valid()
      ensures rooms == Joined(old(rooms), room, peer).rooms
      ensures outbox == old(outbox) + Joined(old(rooms), room, peer).effects
    {
      JoinKeepsWellFormed(rooms, room, peer);
      if room !in rooms {
        rooms := rooms[room := []];
      }
      if |rooms[room]| >= CAPACITY {
        outbox := outbox + [Send(peer, ROOM_FULL)];
        outbox := outbox + [Close(peer)];
        return;
      }
      if peer !in rooms[room] {
        rooms := rooms[room := rooms[room] + [peer]];
      }
      if |rooms[room]| == CAPACITY {
        Notify(rooms[room], READY);
      } else {
        assert outbox == old(outbox) + [];
      }
    }

    /** Sends `message` to each peer of `occupants` except `sender`, one
        after another. */
    method NotifyOthers(occupants: Occupants, sender: PeerId, message: string)
      modifies this`outbox
      ensures outbox == old(outbox) + Broadcast(Without(occupants, sender), message)
    {
      var i := 0;
      while i < |occupants|
        invariant 0 <= i <= |occupants|
        invariant outbox == old(outbox) + Broadcast(Without(occupants[..i], sender), message)
      {
        RelayPrefixStep(occupants, i, sender, message);
        if occupants[i] != sender {
          outbox := outbox + [Send(occupants[i], message)];
        }
        i := i + 1;
      }
      assert occupants[..|occupants|] == occupants;
    }

    /** relay_message: forward a message to the sender's room mates. */
    method RelayMessage(room: RoomId, sender: PeerId, message: string)
      modifies this`outbox
      ensures rooms == old(rooms)
      ensures outbox == old(outbox) + Relayed(rooms, room, sender, message)
    {
      if room in rooms {
        NotifyOthers(rooms[room], sender, message);
      } else {
        assert outbox == old(outbox) + [];
      }
    }

    /** leave_room: remove the peer, tell whoever remains, and drop the room
        once it is empty. */
    method LeaveRoom(room: RoomId, peer: PeerId)
      requires Valid()
      modifies this
      ensures Valid()
      ensures rooms == Left(old(rooms), room, peer).rooms
      ensures outbox == old(outbox) + Left(old(rooms), room, peer).effects
    {
      LeaveKeepsWellFormed(rooms, room, peer);
      if room in rooms && peer in rooms[room] {
        rooms := rooms[room := Without(rooms[room], peer)];
        Notify(rooms[room], DISCONNECTED);
        if rooms[room] == [] {
          rooms := rooms - {room};
        }
      } else {
        assert outbox == old(outbox) + [];
      }
    }
  }
}
