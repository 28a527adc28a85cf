/**
  The room registry as a value: a room record per room id, the registry
  invariant, and what the disconnect handler does to the registry, first as
  the room-by-room walk the handler performs and then in closed form.
 */
module Rooms {
  import opened Types
  import opened Members
  import opened Signals

  /** A room record `{users, callActive, creator}`; `creator == None` is `null`. */
  datatype Room = Room(users: seq<User>, callActive: bool, creator: Option<UserId>)

  /** The record a first join creates: no users, no call, no creator. */
  const NewRoom := Room([], false, None)

  /** No id occurs twice. */
  predicate Distinct(ids: seq<RoomId>) {
    forall i, j :: 0 <= i < j < |ids| ==> ids[i] != ids[j]
  }

  /** The registry invariant: every room is a keyed, non-empty member table,
      and `order` lists every room id exactly once (the registry `Map`'s
      insertion order). */
  predicate RegistryOk(rooms: map<RoomId, Room>, order: seq<RoomId>) {
    && (forall r :: r in rooms ==> Keyed(rooms[r].users) && rooms[r].users != [])
    && Distinct(order)
    && (forall r :: r in order ==> r in rooms)
    && (forall r :: r in rooms ==> r in order)
  }

  /** The ids of `ids` still present in `rooms`, in order. */
  function Present(ids: seq<RoomId>, rooms: map<RoomId, Room>): (r: seq<RoomId>)
    ensures forall x :: x in r <==> x in ids && x in rooms
    ensures Distinct(ids) ==> Distinct(r)
  {
    if ids == [] then []
    else (if ids[0] in rooms then [ids[0]] else []) + Present(ids[1..], rooms)
  }

  /** `ids` with `x` deleted, the rest in order (`Map.delete` on the key order). */
  function Without(ids: seq<RoomId>, x: RoomId): (r: seq<RoomId>)
    ensures forall y :: y in r <==> y in ids && y != x
  {
    if ids == [] then []
    else (if ids[0] == x then [] else [ids[0]]) + Without(ids[1..], x)
  }

  /** Deleting an absent id changes nothing. */
  lemma {:induction false} WithoutAbsent(ids: seq<RoomId>, x: RoomId)
    requires x !in ids
    ensures Without(ids, x) == ids
  {
    if ids != [] {
      WithoutAbsent(ids[1..], x);
      assert ids == [ids[0]] + ids[1..];
    }
  }

  /** Deleting an id of a duplicate-free order cuts out its one occurrence and
      keeps every other id where it was. */
  lemma {:induction false} WithoutAt(ids: seq<RoomId>, k: nat)
    requires Distinct(ids) && k < |ids|
    ensures Without(ids, ids[k]) == ids[..k] + ids[k + 1..]
  {
    var tail := ids[1..];
    if k == 0 {
      assert ids[0] !in tail;
      WithoutAbsent(tail, ids[0]);
    } else {
      assert Distinct(tail) && tail[k - 1] == ids[k] && ids[0] != ids[k];
      WithoutAt(tail, k - 1);
      assert Without(ids, ids[k]) == [ids[0]] + Without(tail, ids[k]);
      SpliceCons(ids, k);
    }
  }

  lemma {:induction false} PresentAll(ids: seq<RoomId>, rooms: map<RoomId, Room>)
    requires forall x :: x in ids ==> x in rooms
    ensures Present(ids, rooms) == ids
  {
    if ids != [] {
      PresentAll(ids[1..], rooms);
    }
  }

  lemma {:induction false} PresentSameKeys(ids: seq<RoomId>, rooms: map<RoomId, Room>, rooms': map<RoomId, Room>)
    requires rooms.Keys == rooms'.Keys
    ensures Present(ids, rooms) == Present(ids, rooms')
  {
    if ids != [] {
      PresentSameKeys(ids[1..], rooms, rooms');
    }
  }

  lemma {:induction false} PresentDelete(ids: seq<RoomId>, rooms: map<RoomId, Room>, x: RoomId)
    ensures Present(ids, rooms - {x}) == Without(Present(ids, rooms), x)
  {
    if ids != [] {
      PresentDelete(ids[1..], rooms, x);
      var head := if ids[0] in rooms then [ids[0]] else [];
      WithoutAppend(head, Present(ids[1..], rooms), x);
    }
  }

  lemma {:induction false} WithoutAppend(a: seq<RoomId>, b: seq<RoomId>, x: RoomId)
    ensures Without(a + b, x) == Without(a, x) + Without(b, x)
  {
    if a == [] {
      assert a + b == b;
    } else {
      assert (a + b)[1..] == a[1..] + b;
      WithoutAppend(a[1..], b, x);
    }
  }

  // ---- join (server.js:43-54) ----

  /** The registry after `u` joins `roomId`: the room is created empty with no
      call if it is unknown, then `u` is inserted or overwritten under its
      socket id. */
  function Joined(rooms: map<RoomId, Room>, roomId: RoomId, u: User): (r: map<RoomId, Room>)
    ensures r.Keys == rooms.Keys + {roomId}
    ensures forall k :: k in rooms && k != roomId ==> r[k] == rooms[k]
    ensures u in r[roomId].users
    ensures r[roomId].callActive == (roomId in rooms && rooms[roomId].callActive)
    ensures r[roomId].creator == if roomId in rooms then rooms[roomId].creator else None
    ensures roomId in rooms ==>
      forall v :: v in rooms[roomId].users && v.socketId != u.socketId ==> v in r[roomId].users
  {
    var before := if roomId in rooms then rooms[roomId] else NewRoom;
    rooms[roomId := before.(users := Upsert(before.users, u))]
  }

  /** A join keeps the registry invariant (the room it creates is non-empty
      at once), and a room it creates holds only the joiner and no call state,
      whatever a deleted room of the same id held. */
  lemma JoinKeepsRegistryOk(rooms: map<RoomId, Room>, order: seq<RoomId>, roomId: RoomId, u: User)
    requires RegistryOk(rooms, order)
    ensures RegistryOk(Joined(rooms, roomId, u), if roomId in rooms then order else order + [roomId])
    ensures roomId !in rooms ==> Joined(rooms, roomId, u)[roomId] == Room([u], false, None)
  {
    var before := if roomId in rooms then rooms[roomId] else NewRoom;
    UpsertKeys(before.users, u);
    assert |Keys(Upsert(before.users, u))| > 0;
  }

  /** What a join sends once `users` holds the joiner `u`: `user-joined` to the
      other members, then `room-users` with the whole table to the joiner. */
  function JoinNotices(users: seq<User>, u: User): (out: seq<Event>)
    ensures |out| >= 1 && out[|out| - 1] == Event(u.socketId, RoomUsers(users))
    ensures forall i :: 0 <= i < |out| - 1 ==>
      && out[i].msg == UserJoined(u.userId, u.userName, u.socketId)
      && out[i].target != u.socketId && out[i].target in Keys(users)
  {
    var others := Broadcast(users, u.socketId, UserJoined(u.userId, u.userName, u.socketId));
    assert forall i :: 0 <= i < |others| ==> others[i] in others;
    others + [Event(u.socketId, RoomUsers(users))]
  }

  /** What each socket receives from the join notices for a keyed table. */
  lemma NoticesInbox(users: seq<User>, u: User, t: SocketId)
    requires Keyed(users)
    ensures Inbox(JoinNotices(users, u), t) ==
      (if t in Keys(users) && t != u.socketId then [UserJoined(u.userId, u.userName, u.socketId)] else [])
      + (if t == u.socketId then [RoomUsers(users)] else [])
  {
    var msg := UserJoined(u.userId, u.userName, u.socketId);
    var table := [Event(u.socketId, RoomUsers(users))];
    BroadcastInbox(users, u.socketId, msg, t);
    InboxAppend(Broadcast(users, u.socketId, msg), table, t);
    assert table[1..] == [];
  }

  /** After inserting or overwriting the joiner, the joiner alone receives one
      `room-users` listing every earlier member and itself, each other member
      receives exactly one `user-joined`, and nobody else receives anything. */
  lemma JoinInbox(users: seq<User>, u: User, t: SocketId)
    requires Keyed(users)
    ensures var users' := Upsert(users, u);
      && Keys(users') == (if u.socketId in Keys(users) then Keys(users) else Keys(users) + [u.socketId])
      && Inbox(JoinNotices(users', u), t) ==
           if t == u.socketId then [RoomUsers(users')]
           else if t in Keys(users) then [UserJoined(u.userId, u.userName, u.socketId)]
           else []
  {
    var users' := Upsert(users, u);
    UpsertKeys(users, u);
    NoticesInbox(users', u, t);
    assert t in Keys(users') <==> t == u.socketId || t in Keys(users);
  }

  // ---- disconnect (server.js:145-161) ----

  /** `sid` is a member of `room`. */
  predicate Hosts(room: Room, sid: SocketId) {
    sid in Keys(room.users)
  }

  /** `user-left` carrying the names stored in the departing socket's entry. */
  function LeftMessage(room: Room, sid: SocketId): Message
    requires Hosts(room, sid)
  {
    var user := Get(room.users, sid).value;
    UserLeft(user.userId, user.userName)
  }

  /** The registry after the disconnect handler has visited `roomId`: if `sid`
      is a member it is removed, and the room is deleted once it has no users. */
  function Leave(rooms: map<RoomId, Room>, roomId: RoomId, sid: SocketId): (r: map<RoomId, Room>)
    ensures r.Keys <= rooms.Keys
    ensures forall k :: k in rooms && k != roomId ==> k in r && r[k] == rooms[k]
    ensures roomId in r ==> !Hosts(r[roomId], sid)
  {
    if roomId in rooms && Hosts(rooms[roomId], sid) then
      var rest := Remove(rooms[roomId].users, sid);
      if |rest| == 0 then rooms - {roomId} else rooms[roomId := rooms[roomId].(users := rest)]
    else rooms
  }

  /** What the visit of `roomId` sends: `user-left` with the departing entry's
      names to the members that remain. */
  function LeaveNotices(rooms: map<RoomId, Room>, roomId: RoomId, sid: SocketId): (out: seq<Event>)
    ensures forall e :: e in out ==> e.target != sid && e.msg.UserLeft?
    ensures roomId !in rooms || !Hosts(rooms[roomId], sid) ==> out == []
  {
    if roomId in rooms && Hosts(rooms[roomId], sid) then
      Broadcast(Remove(rooms[roomId].users, sid), sid, LeftMessage(rooms[roomId], sid))
    else []
  }

  /** The registry after visiting the rooms `ids`, in that order. */
  function Disconnected(rooms: map<RoomId, Room>, ids: seq<RoomId>, sid: SocketId): (r: map<RoomId, Room>)
    ensures r.Keys <= rooms.Keys
  {
    if ids == [] then rooms
    else Leave(Disconnected(rooms, ids[..|ids| - 1], sid), ids[|ids| - 1], sid)
  }

  /** Everything sent while visiting the rooms `ids`, in that order. */
  function DisconnectNotices(rooms: map<RoomId, Room>, ids: seq<RoomId>, sid: SocketId): (out: seq<Event>)
    ensures forall e :: e in out ==> e.target != sid && e.msg.UserLeft?
  {
    if ids == [] then []
    else
      var init := ids[..|ids| - 1];
      DisconnectNotices(rooms, init, sid) + LeaveNotices(Disconnected(rooms, init, sid), ids[|ids| - 1], sid)
  }

  /** A visit keeps the registry's key order in step: a deleted room's id is
      dropped, and nothing else changes. */
  lemma LeavePresent(ids: seq<RoomId>, rooms: map<RoomId, Room>, roomId: RoomId, sid: SocketId)
    ensures Present(ids, Leave(rooms, roomId, sid)) ==
      if roomId in rooms && roomId !in Leave(rooms, roomId, sid) then Without(Present(ids, rooms), roomId)
      else Present(ids, rooms)
  {
    var after := Leave(rooms, roomId, sid);
    if roomId in rooms && roomId !in after {
      PresentDelete(ids, rooms, roomId);
    } else {
      assert after.Keys == rooms.Keys;
      PresentSameKeys(ids, rooms, after);
    }
  }

  /** One more visit extends both walks by one room. */
  lemma DisconnectStep(rooms: map<RoomId, Room>, ids: seq<RoomId>, i: nat, sid: SocketId)
    requires i < |ids|
    ensures Disconnected(rooms, ids[..i + 1], sid) == Leave(Disconnected(rooms, ids[..i], sid), ids[i], sid)
    ensures DisconnectNotices(rooms, ids[..i + 1], sid)
            == DisconnectNotices(rooms, ids[..i], sid) + LeaveNotices(Disconnected(rooms, ids[..i], sid), ids[i], sid)
  {
    assert ids[..i + 1][..i] == ids[..i];
  }

  /** Whether a room is still in the registry after `sid` disconnects: rooms
      without `sid` stay, rooms with it stay if someone else is left. */
  predicate Survives(room: Room, sid: SocketId) {
    !Hosts(room, sid) || Remove(room.users, sid) != []
  }

  /** The registry after `sid` disconnects, in closed form. */
  function Departed(rooms: map<RoomId, Room>, ids: seq<RoomId>, sid: SocketId): map<RoomId, Room>
  {
    map r | r in rooms && (r !in ids || Survives(rooms[r], sid)) ::
      if r in ids then rooms[r].(users := Remove(rooms[r].users, sid)) else rooms[r]
  }

  /** The walk over `ids` is the closed form: visited rooms lose `sid` and are
      deleted if that empties them, unvisited rooms are untouched. */
  lemma {:induction false} DisconnectedIsDeparted(rooms: map<RoomId, Room>, ids: seq<RoomId>, sid: SocketId)
    requires Distinct(ids)
    ensures Disconnected(rooms, ids, sid) == Departed(rooms, ids, sid)
  {
    var after, target := Disconnected(rooms, ids, sid), Departed(rooms, ids, sid);
    forall r ensures (r in after <==> r in target) && (r in after ==> after[r] == target[r]) {
      DisconnectedAt(rooms, ids, sid, r);
    }
  }

  /** The closed form, one room id at a time. */
  lemma {:induction false} DisconnectedAt(rooms: map<RoomId, Room>, ids: seq<RoomId>, sid: SocketId, r: RoomId)
    requires Distinct(ids)
    ensures r in Disconnected(rooms, ids, sid) <==> r in rooms && (r !in ids || Survives(rooms[r], sid))
    ensures r in Disconnected(rooms, ids, sid) ==>
      Disconnected(rooms, ids, sid)[r] == if r in ids then rooms[r].(users := Remove(rooms[r].users, sid)) else rooms[r]
  {
    if ids != [] {
      var init, last := ids[..|ids| - 1], ids[|ids| - 1];
      assert ids == init + [last];
      assert Distinct(init) && last !in init;
      if r == last {
        DisconnectedAt(rooms, init, sid, r);
        if r in rooms && !Hosts(rooms[r], sid) {
          RemoveAbsent(rooms[r].users, sid);
        }
      } else {
        DisconnectedAt(rooms, init, sid, r);
      }
    }
  }

  /** After the walk over the whole registry, `sid` is in no room; rooms that
      did not hold it are unchanged; a room that held it loses exactly that
      entry and is deleted iff it was the last one; and the registry
      invariant holds again for the surviving ids, in their old order. */
  lemma DisconnectSpec(rooms: map<RoomId, Room>, order: seq<RoomId>, sid: SocketId)
    requires RegistryOk(rooms, order)
    ensures var after := Disconnected(rooms, order, sid);
      && RegistryOk(after, Present(order, after))
      && (forall r :: r in after ==> r in rooms && !Hosts(after[r], sid))
      && (forall r :: r in rooms && !Hosts(rooms[r], sid) ==> r in after && after[r] == rooms[r])
      && (forall r :: r in rooms && Hosts(rooms[r], sid) ==>
            && (r in after <==> |rooms[r].users| > 1)
            && (r in after ==> after[r] == rooms[r].(users := Remove(rooms[r].users, sid))))
  {
    var after := Disconnected(rooms, order, sid);
    forall r ensures r in after ==> r in rooms && Keyed(after[r].users) && after[r].users != [] && !Hosts(after[r], sid)
      ensures r in rooms && !Hosts(rooms[r], sid) ==> r in after && after[r] == rooms[r]
      ensures r in rooms && Hosts(rooms[r], sid) ==>
            && (r in after <==> |rooms[r].users| > 1)
            && (r in after ==> after[r] == rooms[r].(users := Remove(rooms[r].users, sid)))
    {
      DisconnectedRoom(rooms, order, sid, r);
    }
  }

  /** `DisconnectSpec` for one room id. */
  lemma DisconnectedRoom(rooms: map<RoomId, Room>, order: seq<RoomId>, sid: SocketId, r: RoomId)
    requires RegistryOk(rooms, order)
    ensures var after := Disconnected(rooms, order, sid);
      && (r in after ==> r in rooms && Keyed(after[r].users) && after[r].users != [] && !Hosts(after[r], sid))
      && (r in rooms && !Hosts(rooms[r], sid) ==> r in after && after[r] == rooms[r])
      && (r in rooms && Hosts(rooms[r], sid) ==>
            && (r in after <==> |rooms[r].users| > 1)
            && (r in after ==> after[r] == rooms[r].(users := Remove(rooms[r].users, sid))))
  {
    DisconnectedAt(rooms, order, sid, r);
    if r in rooms {
      RemoveKeyed(rooms[r].users, sid);
      if !Hosts(rooms[r], sid) {
        RemoveAbsent(rooms[r].users, sid);
      }
    }
  }

  /** The rooms of `ids` that held both `sid` and another socket `t`. */
  ghost function SharedRooms(rooms: map<RoomId, Room>, ids: seq<RoomId>, sid: SocketId, t: SocketId): set<RoomId>
  {
    set r | r in ids && r in rooms && t != sid && Hosts(rooms[r], sid) && Hosts(rooms[r], t)
  }

  /** What socket `t` should hear while `sid` disconnects, room by room in the
      order of `ids`: one `user-left` with the stored names for every room of
      the registry as it was that held both `sid` and `t`. */
  function LeftFor(rooms: map<RoomId, Room>, ids: seq<RoomId>, sid: SocketId, t: SocketId): seq<Message>
  {
    if ids == [] then []
    else
      var init, last := ids[..|ids| - 1], ids[|ids| - 1];
      LeftFor(rooms, init, sid, t)
      + if last in rooms && t != sid && Hosts(rooms[last], sid) && Hosts(rooms[last], t)
        then [LeftMessage(rooms[last], sid)] else []
  }

  /** The disconnect walk sends each socket exactly `LeftFor`: one `user-left`
      per room it shared with the departing socket, in registry order. */
  lemma {:induction false} DisconnectInbox(rooms: map<RoomId, Room>, ids: seq<RoomId>, sid: SocketId, t: SocketId)
    requires Distinct(ids)
    requires forall r :: r in rooms ==> Keyed(rooms[r].users)
    ensures Inbox(DisconnectNotices(rooms, ids, sid), t) == LeftFor(rooms, ids, sid, t)
  {
    if ids != [] {
      var init, last := ids[..|ids| - 1], ids[|ids| - 1];
      assert ids == init + [last];
      assert Distinct(init) && last !in init;
      DisconnectInbox(rooms, init, sid, t);
      DisconnectedUnvisited(rooms, init, sid, last);
      var mid := Disconnected(rooms, init, sid);
      LeaveInbox(mid, last, sid, t);
      InboxAppend(DisconnectNotices(rooms, init, sid), LeaveNotices(mid, last, sid), t);
    }
  }

  /** The visit of one room sends `t` one `user-left` iff the room held both
      `sid` and `t`. */
  lemma LeaveInbox(rooms: map<RoomId, Room>, roomId: RoomId, sid: SocketId, t: SocketId)
    requires roomId in rooms ==> Keyed(rooms[roomId].users)
    ensures Inbox(LeaveNotices(rooms, roomId, sid), t) ==
      if roomId in rooms && t != sid && Hosts(rooms[roomId], sid) && Hosts(rooms[roomId], t)
      then [LeftMessage(rooms[roomId], sid)] else []
  {
    if roomId in rooms && Hosts(rooms[roomId], sid) {
      var users := rooms[roomId].users;
      var rest := Remove(users, sid);
      RemoveKeyed(users, sid);
      BroadcastInbox(rest, sid, LeftMessage(rooms[roomId], sid), t);
      RemoveHasKey(users, sid, t);
    }
  }

  /** A room the walk has not visited yet is as it was. */
  lemma DisconnectedUnvisited(rooms: map<RoomId, Room>, ids: seq<RoomId>, sid: SocketId, r: RoomId)
    requires Distinct(ids) && r !in ids
    ensures r in Disconnected(rooms, ids, sid) <==> r in rooms
    ensures r in rooms ==> Disconnected(rooms, ids, sid)[r] == rooms[r]
  {
    DisconnectedAt(rooms, ids, sid, r);
  }

  lemma SharedRoomsSnoc(rooms: map<RoomId, Room>, init: seq<RoomId>, last: RoomId, sid: SocketId, t: SocketId)
    requires last !in init
    ensures |SharedRooms(rooms, init + [last], sid, t)| == |SharedRooms(rooms, init, sid, t)|
      + if last in rooms && t != sid && Hosts(rooms[last], sid) && Hosts(rooms[last], t) then 1 else 0
  {
    var before := SharedRooms(rooms, init, sid, t);
    if last in rooms && t != sid && Hosts(rooms[last], sid) && Hosts(rooms[last], t) {
      assert SharedRooms(rooms, init + [last], sid, t) == before + {last};
    } else {
      assert SharedRooms(rooms, init + [last], sid, t) == before;
    }
  }

  /** Each remaining socket receives exactly one `user-left` per room it shared
      with the departing socket; the departing socket itself receives nothing. */
  lemma {:induction false} DisconnectInboxCount(rooms: map<RoomId, Room>, ids: seq<RoomId>, sid: SocketId, t: SocketId)
    requires Distinct(ids)
    requires forall r :: r in rooms ==> Keyed(rooms[r].users)
    ensures |Inbox(DisconnectNotices(rooms, ids, sid), t)| == |SharedRooms(rooms, ids, sid, t)|
  {
    if ids == [] {
      assert SharedRooms(rooms, ids, sid, t) == {};
    } else {
      var init, last := ids[..|ids| - 1], ids[|ids| - 1];
      assert ids == init + [last];
      assert Distinct(init) && last !in init;
      DisconnectInboxCount(rooms, init, sid, t);
      DisconnectedUnvisited(rooms, init, sid, last);
      var mid := Disconnected(rooms, init, sid);
      LeaveInbox(mid, last, sid, t);
      InboxAppend(DisconnectNotices(rooms, init, sid), LeaveNotices(mid, last, sid), t);
      SharedRoomsSnoc(rooms, init, last, sid, t);
    }
  }

  /** Every `user-left` a socket receives comes from a room it shared with the
      departing socket and carries the departing entry's names from that room. */
  lemma {:induction false} DisconnectInboxContent(rooms: map<RoomId, Room>, ids: seq<RoomId>, sid: SocketId, t: SocketId)
    requires Distinct(ids)
    requires forall r :: r in rooms ==> Keyed(rooms[r].users)
    ensures forall m :: m in Inbox(DisconnectNotices(rooms, ids, sid), t) ==>
              exists r :: r in SharedRooms(rooms, ids, sid, t) && m == LeftMessage(rooms[r], sid)
  {
    if ids != [] {
      var init, last := ids[..|ids| - 1], ids[|ids| - 1];
      assert ids == init + [last];
      assert Distinct(init) && last !in init;
      DisconnectInboxContent(rooms, init, sid, t);
      DisconnectedUnvisited(rooms, init, sid, last);
      var mid := Disconnected(rooms, init, sid);
      LeaveInbox(mid, last, sid, t);
      InboxAppend(DisconnectNotices(rooms, init, sid), LeaveNotices(mid, last, sid), t);
      assert SharedRooms(rooms, init, sid, t) <= SharedRooms(rooms, ids, sid, t);
      if last in rooms && t != sid && Hosts(rooms[last], sid) && Hosts(rooms[last], t) {
        assert last in SharedRooms(rooms, ids, sid, t);
      }
    }
  }
}
