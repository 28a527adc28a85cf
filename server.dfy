/**
  The process-wide room registry and the handlers that change it. Node runs
  each socket event handler to completion before the next, so every handler is
  a method on the one registry object; each returns the deliveries it asks the
  transport to make.
 */
module Registry {
  import opened Types
  import opened Members
  import opened Signals
  import opened Rooms

  class Server {
    /** `rooms`: room id to room record. */
    var rooms: map<RoomId, Room>
    /** The registry `Map`'s insertion order, which `rooms.forEach` follows. */
    var order: seq<RoomId>

    ghost predicate Valid()
      reads this
    {
      RegistryOk(rooms, order)
    }

    /** A fresh process: no rooms. */
    constructor ()
      ensures Valid() && rooms == map[] && order == []
    {
      rooms := map[];
      order := [];
    }

    /** `join-room`: create the room if it is unknown, insert or overwrite the
        sender's entry, tell the other members, and send the joiner the table. */
    method JoinRoom(sender: SocketId, roomId: RoomId, userName: UserName, userId: UserId) returns (out: seq<Event>)
      requires Valid()
      modifies this
      ensures Valid()
      ensures rooms == Joined(old(rooms), roomId, User(userId, userName, sender))
      ensures roomId !in old(rooms) ==> rooms[roomId] == Room([User(userId, userName, sender)], false, None)
      ensures order == if roomId in old(rooms) then old(order) else old(order) + [roomId]
      ensures out == JoinNotices(rooms[roomId].users, User(userId, userName, sender))
    {
      var joiner := User(userId, userName, sender);
      JoinKeepsRegistryOk(rooms, order, roomId, joiner);
      var before := if roomId in rooms then rooms[roomId] else NewRoom;
      var users := Upsert(before.users, joiner);
      if roomId !in rooms {
        order := order + [roomId];
      }
      rooms := rooms[roomId := before.(users := users)];
      out := Broadcast(users, sender, UserJoined(userId, userName, sender))
             + [Event(sender, RoomUsers(users))];
    }

    /** `start-call`: mark the room's call active with the sender's user id as
        creator and ring the other members; nothing happens for an unknown room. */
    method StartCall(sender: SocketId, roomId: RoomId, userName: UserName, userId: UserId) returns (out: seq<Event>)
      requires Valid()
      modifies this
      ensures Valid() && order == old(order)
      ensures roomId in old(rooms) ==>
        && rooms == old(rooms)[roomId := old(rooms)[roomId].(callActive := true, creator := Some(userId))]
        && out == Broadcast(old(rooms)[roomId].users, sender, IncomingCall(roomId, userId, userName))
      ensures roomId !in old(rooms) ==> rooms == old(rooms) && out == []
    {
      out := [];
      if roomId in rooms {
        var room := rooms[roomId];
        room := room.(callActive := true, creator := Some(userId));
        rooms := rooms[roomId := room];
        out := Broadcast(room.users, sender, IncomingCall(roomId, userId, userName));
      }
    }

    /** `end-call`: clear the room's call flag (the creator stays recorded) and
        tell the other members; nothing happens for an unknown room. */
    method EndCall(sender: SocketId, roomId: RoomId, userId: UserId) returns (out: seq<Event>)
      requires Valid()
      modifies this
      ensures Valid() && order == old(order)
      ensures roomId in old(rooms) ==>
        && rooms == old(rooms)[roomId := old(rooms)[roomId].(callActive := false)]
        && out == Broadcast(old(rooms)[roomId].users, sender, CallEnded(userId))
      ensures roomId !in old(rooms) ==> rooms == old(rooms) && out == []
    {
      out := [];
      if roomId in rooms {
        var room := rooms[roomId];
        room := room.(callActive := false);
        rooms := rooms[roomId := room];
        out := Broadcast(room.users, sender, CallEnded(userId));
      }
    }

    /** `disconnect`: visit every room in registry order; where the socket is a
        member, remove it, tell the remaining members, and delete the room if
        nobody is left. */
    method Disconnect(sender: SocketId) returns (out: seq<Event>)
      requires Valid()
      modifies this
      ensures Valid()
      ensures rooms == Disconnected(old(rooms), old(order), sender)
      ensures order == Present(old(order), rooms)
      ensures out == DisconnectNotices(old(rooms), old(order), sender)
    {
      var ids := order;
      PresentAll(ids, rooms);
      out := VisitRooms(sender, ids);
      DisconnectSpec(old(rooms), ids, sender);
    }

    /** The `rooms.forEach` walk over the room ids `ids`, taken from the key
        order when the walk starts; ids already deleted are skipped. */
    method VisitRooms(sender: SocketId, ids: seq<RoomId>) returns (out: seq<Event>)
      requires order == Present(ids, rooms)
      modifies this
      ensures rooms == Disconnected(old(rooms), ids, sender)
      ensures order == Present(ids, rooms)
      ensures out == DisconnectNotices(old(rooms), ids, sender)
    {
      out := [];
      var i := 0;
      assert ids[..i] == [];
      while i < |ids|
        invariant 0 <= i <= |ids|
        invariant rooms == Disconnected(old(rooms), ids[..i], sender)
        invariant out == DisconnectNotices(old(rooms), ids[..i], sender)
        invariant order == Present(ids, rooms)
      {
        DisconnectStep(old(rooms), ids, i, sender);
        var sent := LeaveRoom(ids[i], sender, ids);
        out := out + sent;
        i := i + 1;
      }
      assert ids[..i] == ids;
    }

    /** One visit of the `rooms.forEach` walk: if the socket is a member of
        `roomId`, remove its entry, send `user-left` with that entry's names to
        the members that remain, and delete the room if it is now empty. */
    method LeaveRoom(roomId: RoomId, sender: SocketId, ghost ids: seq<RoomId>) returns (sent: seq<Event>)
      requires order == Present(ids, rooms)
      modifies this
      ensures order == Present(ids, rooms)
      ensures rooms == Leave(old(rooms), roomId, sender)
      ensures order == if roomId in old(rooms) && roomId !in rooms then Without(old(order), roomId) else old(order)
      ensures sent == LeaveNotices(old(rooms), roomId, sender)
    {
      LeavePresent(ids, rooms, roomId, sender);
      sent := [];
      if roomId in rooms && sender in Keys(rooms[roomId].users) {
        var room := rooms[roomId];
        var user := Get(room.users, sender).value;
        room := room.(users := Remove(room.users, sender));
        rooms := rooms[roomId := room];
        sent := Broadcast(room.users, sender, UserLeft(user.userId, user.userName));
        if |room.users| == 0 {
          assert rooms - {roomId} == old(rooms) - {roomId};
          rooms := rooms - {roomId};
          order := Without(order, roomId);
        }
      }
    }
  }
}
