/**
  Outbound events. A handler does not talk to the transport itself; it returns
  the list of messages it asks the transport to deliver, each addressed to one
  socket.
 */
module Signals {
  import opened Types
  import opened Members

  /** The server-to-client events and their payload fields. */
  datatype Message =
    | UserJoined(userId: UserId, userName: UserName, socketId: SocketId)
    | RoomUsers(users: seq<User>)
    | IncomingCall(roomId: RoomId, creatorId: UserId, creatorName: UserName)
    | CallAccepted(userId: UserId, userName: UserName)
    | Offer(offer: Payload, from: SocketId, userId: UserId, userName: UserName)
    | Answer(answer: Payload, from: SocketId, userId: UserId)
    | IceCandidate(candidate: Payload, from: SocketId, userId: UserId)
    | UserMuted(userId: UserId, muted: bool)
    | CallEnded(userId: UserId)
    | UserLeft(userId: UserId, userName: UserName)

  /** One delivery: `msg` sent to the socket `target`. */
  datatype Event = Event(target: SocketId, msg: Message)

  /** `socket.to(roomId).emit(msg)` from `sender`: one delivery to every member
      of the room's group except the sender, in member order. */
  function Broadcast(users: seq<User>, sender: SocketId, msg: Message): (out: seq<Event>)
    ensures |out| <= |users|
    ensures forall e :: e in out ==> e.msg == msg && e.target != sender && e.target in Keys(users)
    ensures Keyed(users) ==> forall i, j :: 0 <= i < j < |out| ==> out[i].target != out[j].target
  {
    if users == [] then []
    else
      assert Keys(users) == [users[0].socketId] + Keys(users[1..]);
      assert Keyed(users) ==> Keyed(users[1..]) && users[0].socketId !in Keys(users[1..]);
      (if users[0].socketId == sender then [] else [Event(users[0].socketId, msg)])
      + Broadcast(users[1..], sender, msg)
  }

  /** `socket.to(to).emit(msg)` from `sender`, where `to` names one socket:
      the transport never delivers a `socket.to` emission back to its sender. */
  function Direct(sender: SocketId, to: SocketId, msg: Message): (out: seq<Event>)
    ensures |out| <= 1 && (out == [] <==> to == sender)
    ensures forall e :: e in out ==> e.target == to && e.msg == msg
  {
    if to == sender then [] else [Event(to, msg)]
  }

  /** The messages of `out` that socket `t` receives, in order. */
  function Inbox(out: seq<Event>, t: SocketId): (ms: seq<Message>)
    ensures |ms| <= |out|
    ensures forall m :: m in ms <==> Event(t, m) in out
  {
    if out == [] then []
    else
      assert out == [out[0]] + out[1..];
      (if out[0].target == t then [out[0].msg] else []) + Inbox(out[1..], t)
  }

  lemma {:induction false} InboxAppend(a: seq<Event>, b: seq<Event>, t: SocketId)
    ensures Inbox(a + b, t) == Inbox(a, t) + Inbox(b, t)
  {
    if a == [] {
      assert a + b == b;
    } else {
      assert (a + b)[1..] == a[1..] + b;
      InboxAppend(a[1..], b, t);
    }
  }

  /** A broadcast reaches every other member exactly once and nobody else. */
  lemma {:induction false} BroadcastInbox(users: seq<User>, sender: SocketId, msg: Message, t: SocketId)
    requires Keyed(users)
    ensures Inbox(Broadcast(users, sender, msg), t) == if t in Keys(users) && t != sender then [msg] else []
  {
    if users != [] {
      var tail := users[1..];
      assert Keyed(tail);
      assert Keys(users) == [users[0].socketId] + Keys(tail);
      BroadcastInbox(tail, sender, msg, t);
      var head := if users[0].socketId == sender then [] else [Event(users[0].socketId, msg)];
      InboxAppend(head, Broadcast(tail, sender, msg), t);
      if t == users[0].socketId {
        assert t !in Keys(tail);
      }
    }
  }

  /** A direct relay reaches the named socket once, unless it is the sender,
      and nobody else. */
  lemma DirectInbox(sender: SocketId, to: SocketId, msg: Message, t: SocketId)
    ensures Inbox(Direct(sender, to, msg), t) == if t == to && to != sender then [msg] else []
  {
    if to != sender {
      assert Direct(sender, to, msg)[1..] == [];
    }
  }
}
