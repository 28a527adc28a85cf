/**
  The handlers that only read the registry, or do not look at it at all, and
  build the deliveries from their inputs: `accept-call`, the three
  negotiation relays and `toggle-mute`.
 */
module Relays {
  import opened Types
  import opened Members
  import opened Signals
  import opened Rooms

  /** JavaScript truthiness of `room.creator`: `null` and `""` are falsy. */
  predicate CreatorSet(creator: Option<UserId>) {
    creator.Some? && creator.value != ""
  }

  /** `accept-call`: resolve the room's creator id to the first member entry,
      in insertion order, with that `userId`, and send `call-accepted` with the
      acceptor's names to that entry's socket alone. `io.to` does not exclude
      the sender, so an acceptor that is itself the creator is answered too. */
  function AcceptCall(rooms: map<RoomId, Room>, roomId: RoomId, userName: UserName, userId: UserId): (out: seq<Event>)
    ensures |out| <= 1
    ensures out != [] <==>
      && roomId in rooms
      && CreatorSet(rooms[roomId].creator)
      && exists i :: 0 <= i < |rooms[roomId].users| && rooms[roomId].users[i].userId == rooms[roomId].creator.value
    ensures out != [] ==>
      && out[0].msg == CallAccepted(userId, userName)
      && exists i :: 0 <= i < |rooms[roomId].users|
           && rooms[roomId].users[i].socketId == out[0].target
           && rooms[roomId].users[i].userId == rooms[roomId].creator.value
           && forall j :: 0 <= j < i ==> rooms[roomId].users[j].userId != rooms[roomId].creator.value
  {
    if roomId in rooms && CreatorSet(rooms[roomId].creator) then
      match FindByUserId(rooms[roomId].users, rooms[roomId].creator.value)
      case Some(creator) => [Event(creator.socketId, CallAccepted(userId, userName))]
      case None => []
    else []
  }

  /** `offer`: relay the payload to the socket `to` alone, stamped with the
      sender's socket id as `from` and the client's `from` field as `userId`. */
  function RelayOffer(sender: SocketId, to: SocketId, offer: Payload, from: UserId, userName: UserName): (out: seq<Event>)
    ensures |out| <= 1 && (out == [] <==> to == sender)
    ensures forall e :: e in out ==>
      && e.target == to && e.msg.Offer? && e.msg.userName == userName
      && Carried(e.msg) == Some((offer, sender)) && e.msg.userId == from
  {
    Direct(sender, to, Offer(offer, sender, from, userName))
  }

  /** `answer`: as `offer`, without a user name. */
  function RelayAnswer(sender: SocketId, to: SocketId, answer: Payload, from: UserId): (out: seq<Event>)
    ensures |out| <= 1 && (out == [] <==> to == sender)
    ensures forall e :: e in out ==>
      && e.target == to && e.msg.Answer?
      && Carried(e.msg) == Some((answer, sender)) && e.msg.userId == from
  {
    Direct(sender, to, Answer(answer, sender, from))
  }

  /** `ice-candidate`: as `answer`. */
  function RelayIceCandidate(sender: SocketId, to: SocketId, candidate: Payload, from: UserId): (out: seq<Event>)
    ensures |out| <= 1 && (out == [] <==> to == sender)
    ensures forall e :: e in out ==>
      && e.target == to && e.msg.IceCandidate?
      && Carried(e.msg) == Some((candidate, sender)) && e.msg.userId == from
  {
    Direct(sender, to, IceCandidate(candidate, sender, from))
  }

  /** `toggle-mute`: tell the rest of the room; no state is kept. The room's
      transport group is its member table, so an unknown room reaches nobody. */
  function ToggleMute(rooms: map<RoomId, Room>, sender: SocketId, roomId: RoomId, userId: UserId, muted: bool): (out: seq<Event>)
    ensures forall e :: e in out ==> e.msg == UserMuted(userId, muted) && e.target != sender
    ensures roomId !in rooms ==> out == []
  {
    if roomId in rooms then Broadcast(rooms[roomId].users, sender, UserMuted(userId, muted)) else []
  }

  /** The payload a negotiation message carries, and the socket it names as
      its origin. */
  function Carried(m: Message): Option<(Payload, SocketId)>
  {
    match m
    case Offer(p, from, _, _) => Some((p, from))
    case Answer(p, from, _) => Some((p, from))
    case IceCandidate(p, from, _) => Some((p, from))
    case _ => None
  }

  /** Each negotiation relay delivers at most one message, only to `to`, never
      back to the sender, carrying the payload unchanged and the sender's own
      socket id as origin. */
  lemma NegotiationIsDirect(sender: SocketId, to: SocketId, p: Payload, from: UserId, userName: UserName, t: SocketId)
    ensures var relays := [RelayOffer(sender, to, p, from, userName), RelayAnswer(sender, to, p, from),
                           RelayIceCandidate(sender, to, p, from)];
      forall k :: 0 <= k < 3 ==>
        && |Inbox(relays[k], t)| == (if t == to && to != sender then 1 else 0)
        && forall m :: m in Inbox(relays[k], t) ==> Carried(m) == Some((p, sender))
  {
    var offer, answer, candidate := Offer(p, sender, from, userName), Answer(p, sender, from), IceCandidate(p, sender, from);
    assert RelayOffer(sender, to, p, from, userName) == Direct(sender, to, offer);
    assert RelayAnswer(sender, to, p, from) == Direct(sender, to, answer);
    assert RelayIceCandidate(sender, to, p, from) == Direct(sender, to, candidate);
    DirectInbox(sender, to, offer, t);
    DirectInbox(sender, to, answer, t);
    DirectInbox(sender, to, candidate, t);
  }

  /** `accept-call` reaches at most one socket, and that socket at most once. */
  lemma AcceptCallInbox(rooms: map<RoomId, Room>, roomId: RoomId, userName: UserName, userId: UserId)
    ensures var out := AcceptCall(rooms, roomId, userName, userId);
      forall t1, t2 :: Inbox(out, t1) != [] && Inbox(out, t2) != [] ==> t1 == t2 && |Inbox(out, t1)| == 1
  {
    var out := AcceptCall(rooms, roomId, userName, userId);
    if out != [] {
      assert out[1..] == [];
    }
  }

  /** `toggle-mute` reaches every other member of a known room exactly once
      and nobody else. */
  lemma ToggleMuteInbox(rooms: map<RoomId, Room>, sender: SocketId, roomId: RoomId, userId: UserId, muted: bool, t: SocketId)
    requires roomId in rooms ==> Keyed(rooms[roomId].users)
    ensures Inbox(ToggleMute(rooms, sender, roomId, userId, muted), t) ==
      if roomId in rooms && t in Keys(rooms[roomId].users) && t != sender then [UserMuted(userId, muted)] else []
  {
    if roomId in rooms {
      BroadcastInbox(rooms[roomId].users, sender, UserMuted(userId, muted), t);
    }
  }
}
