/** Identifiers and small value types shared by the signalling server model. */
module Types {

  /** Transport-assigned identity of one live connection. */
  type SocketId = string

  /** Client-chosen name of a room. */
  type RoomId = string

  /** Client-supplied logical user identity (not unique, not checked). */
  type UserId = string

  /** Client-supplied display name. */
  type UserName = string

  /** Body of an offer, answer or ICE candidate: relayed, never inspected. */
  type Payload = string

  /** A value that may be absent; `None` stands for JavaScript's `null`. */
  datatype Option<+T> = None | Some(value: T)

  /** Cutting element `k` out of a sequence is keeping its head and cutting
      element `k - 1` out of its tail. */
  lemma SpliceCons<T>(s: seq<T>, k: nat)
    requires 0 < k < |s|
    ensures [s[0]] + (s[1..][..k - 1] + s[1..][k..]) == s[..k] + s[k + 1..]
  {
    assert s[..k] == [s[0]] + s[1..][..k - 1];
    assert s[k + 1..] == s[1..][k..];
  }
}
