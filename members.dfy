/**
  A room's `users` table: a JavaScript `Map` from socket id to the entry
  `{userId, userName, socketId}`. A `Map` remembers insertion order, so it is
  modelled as a sequence of entries in that order, keyed by `socketId`.
 */
module Members {
  import opened Types

  /** One member entry; the table key is always the entry's own `socketId`. */
  datatype User = User(userId: UserId, userName: UserName, socketId: SocketId)

  /** The table's keys, in insertion order. */
  function Keys(users: seq<User>): (ks: seq<SocketId>)
    ensures |ks| == |users|
    ensures forall i :: 0 <= i < |users| ==> ks[i] == users[i].socketId
  {
    seq(|users|, i requires 0 <= i < |users| => users[i].socketId)
  }

  /** No two entries share a key: the sequence really is a map. */
  predicate Keyed(users: seq<User>) {
    forall i, j :: 0 <= i < j < |users| ==> users[i].socketId != users[j].socketId
  }

  /** Position of the entry stored under `sid`, if any. */
  function IndexOf(users: seq<User>, sid: SocketId): (r: Option<nat>)
    ensures r.None? <==> sid !in Keys(users)
    ensures r.Some? ==> r.value < |users| && users[r.value].socketId == sid
    ensures r.Some? ==> forall j :: 0 <= j < r.value ==> users[j].socketId != sid
  {
    if users == [] then None
    else if users[0].socketId == sid then Some(0)
    else
      assert Keys(users) == [users[0].socketId] + Keys(users[1..]);
      match IndexOf(users[1..], sid)
      case None => None
      case Some(k) => Some(k + 1)
  }

  /** `users.get(sid)`: the entry stored under `sid`, if any. */
  function Get(users: seq<User>, sid: SocketId): (r: Option<User>)
    ensures r.None? <==> sid !in Keys(users)
    ensures r.Some? ==> r.value in users && r.value.socketId == sid
  {
    match IndexOf(users, sid)
    case None => None
    case Some(i) => Some(users[i])
  }

  /** `users.set(u.socketId, u)`: overwrite the entry in place when the key is
      present (the key keeps its position), append it otherwise. */
  function Upsert(users: seq<User>, u: User): (r: seq<User>)
    ensures u in r
    ensures forall v :: v in r ==> v == u || v in users
    ensures forall v :: v in users && v.socketId != u.socketId ==> v in r
    ensures |r| == if u.socketId in Keys(users) then |users| else |users| + 1
  {
    match IndexOf(users, u.socketId)
    case None => users + [u]
    case Some(i) =>
      assert users[i := u][i] == u;
      assert forall j :: 0 <= j < |users| && j != i ==> users[i := u][j] == users[j];
      users[i := u]
  }

  /** `users.delete(sid)`: drop the entry under `sid`, keep the rest in order. */
  function Remove(users: seq<User>, sid: SocketId): (r: seq<User>)
    ensures sid !in Keys(r)
    ensures forall v :: v in r <==> v in users && v.socketId != sid
    ensures |r| <= |users|
  {
    if users == [] then []
    else if users[0].socketId == sid then Remove(users[1..], sid)
    else [users[0]] + Remove(users[1..], sid)
  }

  /** `Array.from(users.values()).find(u => u.userId === uid)`: the first entry,
      in insertion order, whose `userId` is `uid`. */
  function FindByUserId(users: seq<User>, uid: UserId): (r: Option<User>)
    ensures r.None? <==> forall i :: 0 <= i < |users| ==> users[i].userId != uid
    ensures r.Some? ==> exists i :: 0 <= i < |users| && users[i] == r.value && r.value.userId == uid
                                   && forall j :: 0 <= j < i ==> users[j].userId != uid
  {
    if users == [] then None
    else if users[0].userId == uid then Some(users[0])
    else
      var r := FindByUserId(users[1..], uid);
      assert r.Some? ==> exists i :: 0 <= i < |users[1..]| && users[1..][i] == r.value
                                     && forall j :: 0 <= j < i ==> users[1..][j].userId != uid;
      r
  }

  /** In a keyed table an entry is determined by its key. */
  lemma KeyedUnique(users: seq<User>, a: User, b: User)
    requires Keyed(users) && a in users && b in users && a.socketId == b.socketId
    ensures a == b
  {
    var i :| 0 <= i < |users| && users[i] == a;
    var j :| 0 <= j < |users| && users[j] == b;
    assert i == j;
  }

  /** Overwriting keeps the key's position; a new key is appended at the end. */
  lemma UpsertKeys(users: seq<User>, u: User)
    requires Keyed(users)
    ensures Keyed(Upsert(users, u))
    ensures Keys(Upsert(users, u)) == if u.socketId in Keys(users) then Keys(users) else Keys(users) + [u.socketId]
  {
    var r := Upsert(users, u);
    match IndexOf(users, u.socketId)
    case None =>
      assert r == users + [u];
    case Some(k) =>
      assert r == users[k := u];
  }

  /** Last write wins: afterwards the key maps to the new entry and every other
      key to what it mapped to before (`Map.set`). */
  lemma UpsertGet(users: seq<User>, u: User, k: SocketId)
    requires Keyed(users)
    ensures Get(Upsert(users, u), k) == if k == u.socketId then Some(u) else Get(users, k)
  {
    UpsertKeys(users, u);
    var r := Upsert(users, u);
    assert u in r;
    var g := Get(r, k);
    if k == u.socketId {
      KeyedUnique(r, g.value, u);
    } else if g.Some? {
      assert g.value in users;
      KeyedUnique(users, g.value, Get(users, k).value);
    } else {
      assert k !in Keys(users);
    }
  }

  /** Deleting an absent key changes nothing. */
  lemma {:induction false} RemoveAbsent(users: seq<User>, sid: SocketId)
    requires sid !in Keys(users)
    ensures Remove(users, sid) == users
  {
    if users != [] {
      assert Keys(users) == [users[0].socketId] + Keys(users[1..]);
      RemoveAbsent(users[1..], sid);
      assert users == [users[0]] + users[1..];
    }
  }

  /** Removing a key keeps the table keyed; a present key loses exactly one entry. */
  lemma {:induction false} RemoveKeyed(users: seq<User>, sid: SocketId)
    requires Keyed(users)
    ensures Keyed(Remove(users, sid))
    ensures sid in Keys(users) ==> |Remove(users, sid)| == |users| - 1
  {
    if users != [] {
      var tail := users[1..];
      assert Keyed(tail);
      RemoveKeyed(tail, sid);
      assert Keys(users) == [users[0].socketId] + Keys(tail);
      if users[0].socketId == sid {
        RemoveAbsent(tail, sid);
      } else {
        var r := [users[0]] + Remove(tail, sid);
        forall i, j | 0 <= i < j < |r| ensures r[i].socketId != r[j].socketId {
          if i == 0 {
            assert r[j] in tail;
          }
        }
      }
    }
  }

  /** Deleting a present key cuts its one entry out and keeps every other
      entry where it was, in insertion order. */
  lemma {:induction false} RemoveAt(users: seq<User>, sid: SocketId, k: nat)
    requires Keyed(users) && k < |users| && users[k].socketId == sid
    ensures Remove(users, sid) == users[..k] + users[k + 1..]
  {
    if k == 0 {
      RemoveFirst(users, sid);
    } else {
      var tail := users[1..];
      assert Keyed(tail);
      RemoveAt(tail, sid, k - 1);
      RemoveSkip(users, sid, k);
    }
  }

  /** `RemoveAt` for the first entry. */
  lemma RemoveFirst(users: seq<User>, sid: SocketId)
    requires Keyed(users) && |users| > 0 && users[0].socketId == sid
    ensures Remove(users, sid) == users[1..]
  {
    var tail := users[1..];
    assert forall i :: 0 <= i < |tail| ==> tail[i].socketId != sid;
    RemoveAbsent(tail, sid);
  }

  /** `RemoveAt` for a later entry, given it for the tail. */
  lemma RemoveSkip(users: seq<User>, sid: SocketId, k: nat)
    requires 0 < k < |users| && users[0].socketId != sid
    requires Remove(users[1..], sid) == users[1..][..k - 1] + users[1..][k..]
    ensures Remove(users, sid) == users[..k] + users[k + 1..]
  {
    assert Remove(users, sid) == [users[0]] + Remove(users[1..], sid);
    SpliceCons(users, k);
  }

  /** Exactly the other keys remain after a delete. */
  lemma RemoveHasKey(users: seq<User>, sid: SocketId, k: SocketId)
    ensures k in Keys(Remove(users, sid)) <==> k != sid && k in Keys(users)
  {
    var r := Remove(users, sid);
    if k in Keys(r) {
      var i :| 0 <= i < |r| && r[i].socketId == k;
      assert r[i] in users;
    }
    if k != sid && k in Keys(users) {
      var i :| 0 <= i < |users| && users[i].socketId == k;
      assert users[i] in r;
    }
  }

  /** `users.delete(sid)` seen as a map: the key is gone, nothing else changes. */
  lemma RemoveGet(users: seq<User>, sid: SocketId, k: SocketId)
    requires Keyed(users)
    ensures Get(Remove(users, sid), k) == if k == sid then None else Get(users, k)
  {
    RemoveKeyed(users, sid);
    var r := Remove(users, sid);
    var g, h := Get(r, k), Get(users, k);
    if k != sid {
      if g.Some? {
        KeyedUnique(users, g.value, h.value);
      }
    }
  }
}
