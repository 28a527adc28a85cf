/**
  A client of the handlers: the two-party call from join to hang-up, followed
  by both peers leaving and a later join of the same room id. Every step is
  checked against the handlers' contracts alone.
 */
module Scenario {
  import opened Types
  import opened Members
  import opened Signals
  import opened Rooms
  import opened Registry
  import opened Relays

  const alice := User("alice", "Alice", "A")
  const bob := User("bob", "Bob", "B")
  const carol := User("carol", "Carol", "C")

  /** The whole run ends with one fresh room holding only the late joiner. */
  method TwoPartyCall() returns (s: Server)
    ensures s.Valid() && s.rooms == map["r1" := Room([carol], false, None)] && s.order == ["r1"]
  {
    s := new Server();
    JoinFirst(s);
    JoinSecond(s);
    Ring(s);
    var accepted := Accept(s.rooms);
    HangUp(s);
    LeaveBoth(s);
  }

  /** A joins the unknown room "r1": only the table with itself comes back. */
  method JoinFirst(s: Server)
    requires s.Valid() && s.rooms == map[] && s.order == []
    modifies s
    ensures s.Valid() && s.rooms == map["r1" := Room([alice], false, None)] && s.order == ["r1"]
  {
    var out := s.JoinRoom("A", "r1", "Alice", "alice");
    assert s.rooms["r1"].users == [alice];
    assert Broadcast([alice], "A", UserJoined("alice", "Alice", "A")) == [];
    assert out == [Event("A", RoomUsers([alice]))];
  }

  /** B joins: A hears of B, B gets both entries in join order. */
  method JoinSecond(s: Server)
    requires s.Valid() && s.rooms == map["r1" := Room([alice], false, None)] && s.order == ["r1"]
    modifies s
    ensures s.Valid() && s.rooms == map["r1" := Room([alice, bob], false, None)] && s.order == ["r1"]
  {
    SecondJoinState();
    SecondJoinNotices();
    var out := s.JoinRoom("B", "r1", "Bob", "bob");
    assert out == [Event("A", UserJoined("bob", "Bob", "B")), Event("B", RoomUsers([alice, bob]))];
  }

  /** B's entry goes after A's in the one room. */
  lemma SecondJoinState()
    ensures Joined(map["r1" := Room([alice], false, None)], "r1", bob) == map["r1" := Room([alice, bob], false, None)]
  {
    assert IndexOf([alice], "B") == None;
    assert Upsert([alice], bob) == [alice, bob];
  }

  /** A hears of B, and B gets both entries in join order. */
  lemma SecondJoinNotices()
    ensures JoinNotices([alice, bob], bob)
            == [Event("A", UserJoined("bob", "Bob", "B")), Event("B", RoomUsers([alice, bob]))]
  {
    var joined := UserJoined("bob", "Bob", "B");
    assert [alice, bob][1..] == [bob] && [bob][1..] == [];
    assert Broadcast([bob], "B", joined) == [];
    assert Broadcast([alice, bob], "B", joined) == [Event("A", joined)];
  }

  /** A rings: B is told, A becomes the creator. */
  method Ring(s: Server)
    requires s.Valid() && s.rooms == map["r1" := Room([alice, bob], false, None)] && s.order == ["r1"]
    modifies s
    ensures s.Valid() && s.rooms == map["r1" := Room([alice, bob], true, Some("alice"))] && s.order == ["r1"]
  {
    var ringing := IncomingCall("r1", "alice", "Alice");
    assert [alice, bob][1..] == [bob] && [bob][1..] == [];
    assert Broadcast([bob], "A", ringing) == [Event("B", ringing)];
    assert Broadcast([alice, bob], "A", ringing) == [Event("B", ringing)];
    var out := s.StartCall("A", "r1", "Alice", "alice");
    assert out == [Event("B", ringing)];
  }

  /** B accepts: the creator id resolves to A's socket. */
  method Accept(rooms: map<RoomId, Room>) returns (out: seq<Event>)
    requires rooms == map["r1" := Room([alice, bob], true, Some("alice"))]
    ensures out == [Event("A", CallAccepted("bob", "Bob"))]
  {
    assert FindByUserId([alice, bob], "alice") == Some(alice);
    out := AcceptCall(rooms, "r1", "Bob", "bob");
  }

  /** A hangs up: B is told, the call flag drops, the creator stays. */
  method HangUp(s: Server)
    requires s.Valid() && s.rooms == map["r1" := Room([alice, bob], true, Some("alice"))] && s.order == ["r1"]
    modifies s
    ensures s.Valid() && s.rooms == map["r1" := Room([alice, bob], false, Some("alice"))] && s.order == ["r1"]
  {
    var ended := CallEnded("alice");
    assert [alice, bob][1..] == [bob] && [bob][1..] == [];
    assert Broadcast([bob], "A", ended) == [Event("B", ended)];
    assert Broadcast([alice, bob], "A", ended) == [Event("B", ended)];
    var out := s.EndCall("A", "r1", "alice");
    assert out == [Event("B", ended)];
  }

  /** A and B disconnect; the room goes, and a later join starts afresh. */
  method LeaveBoth(s: Server)
    requires s.Valid() && s.rooms == map["r1" := Room([alice, bob], false, Some("alice"))] && s.order == ["r1"]
    modifies s
    ensures s.Valid() && s.rooms == map["r1" := Room([carol], false, None)] && s.order == ["r1"]
  {
    // A disconnects: B hears that A left; B is alone in "r1".
    FirstLeave();
    var out := s.Disconnect("A");
    assert s.rooms == map["r1" := Room([bob], false, Some("alice"))];
    assert out == [Event("B", UserLeft("alice", "Alice"))];

    // B disconnects: the room is deleted.
    LastLeave();
    out := s.Disconnect("B");
    assert "r1" !in s.rooms && out == [];
    assert s.order == [];

    // A later join of "r1" finds no trace of the old call.
    out := s.JoinRoom("C", "r1", "Carol", "carol");
    assert s.rooms["r1"] == Room([carol], false, None);
  }

  /** A's disconnect leaves B alone in "r1" and tells B. */
  lemma FirstLeave()
    ensures var before := map["r1" := Room([alice, bob], false, Some("alice"))];
      && Disconnected(before, ["r1"], "A") == map["r1" := Room([bob], false, Some("alice"))]
      && DisconnectNotices(before, ["r1"], "A") == [Event("B", UserLeft("alice", "Alice"))]
  {
    var before := map["r1" := Room([alice, bob], false, Some("alice"))];
    assert ["r1"][..0] == [];
    assert Remove([alice, bob], "A") == [bob];
    assert Get([alice, bob], "A") == Some(alice);
    assert Leave(before, "r1", "A") == map["r1" := Room([bob], false, Some("alice"))];
    assert [bob][1..] == [];
    assert LeaveNotices(before, "r1", "A") == [Event("B", UserLeft("alice", "Alice"))];
  }

  /** B's disconnect empties "r1", which is deleted; nobody is told. */
  lemma LastLeave()
    ensures var before := map["r1" := Room([bob], false, Some("alice"))];
      && Disconnected(before, ["r1"], "B") == map[]
      && DisconnectNotices(before, ["r1"], "B") == []
  {
    var before := map["r1" := Room([bob], false, Some("alice"))];
    assert ["r1"][..0] == [];
    assert Remove([bob], "B") == [];
    assert Leave(before, "r1", "B") == map[];
    assert LeaveNotices(before, "r1", "B") == [];
  }
}
