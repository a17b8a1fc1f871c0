/** The bookkeeping of the WebSocket manager: which users hold a live
    connection, and which users are in each exam's room. The sockets
    themselves are opaque handles; sending messages is not part of this
    model. */
module WebSocket {

  /** No user appears twice in a room. */
  predicate NoDup(s: seq<string>) {
    forall i, j | 0 <= i < j < |s| :: s[i] != s[j]
  }

  /** The room of an exam; an exam without a room has no participants. */
  function Room(rooms: map<string, seq<string>>, examId: string): seq<string> {
    if examId in rooms then rooms[examId] else []
  }

  /** A room after `user` joins it: appended unless already there. */
  function Join(room: seq<string>, user: string): (r: seq<string>)
    ensures user in r
    ensures forall x :: x in r <==> x in room || x == user
    ensures |r| >= |room| && r[..|room|] == room
    ensures NoDup(room) ==> NoDup(r)
  {
    if user in room then room else room + [user]
  }

  /** `list.remove(x)` guarded by `x in list`: the first occurrence of `x`
      dropped, the rest kept in order. */
  function RemoveFirst(s: seq<string>, x: string): (r: seq<string>)
    ensures x !in s ==> r == s
    ensures x in s ==> |r| == |s| - 1
    ensures x in s ==> r == s[..FirstIndex(s, x)] + s[FirstIndex(s, x) + 1..]
  {
    if s == [] then []
    else if s[0] == x then s[1..]
    else
      var rest := RemoveFirst(s[1..], x);
      if x in s then
        ConsSplice(s, FirstIndex(s[1..], x));
        [s[0]] + rest
      else [s[0]] + rest
  }

  /** Putting the head back in front of a tail with one element cut out. */
  lemma ConsSplice(s: seq<string>, k: nat)
    requires k + 1 < |s|
    ensures [s[0]] + (s[1..][..k] + s[1..][k + 1..]) == s[..k + 1] + s[k + 2..]
  {
    assert s[1..][..k] == s[1..k + 1];
    assert s[1..][k + 1..] == s[k + 2..];
  }

  /** Removing takes away one occurrence of the user and nothing else. */
  lemma {:induction false} RemoveFirstCount(s: seq<string>, x: string)
    ensures multiset(RemoveFirst(s, x)) == multiset(s) - multiset{x}
  {
    if s != [] {
      assert s == [s[0]] + s[1..];
      if s[0] != x {
        RemoveFirstCount(s[1..], x);
      }
    }
  }

  /** The tail of a room without duplicates has none either, and does not
      hold its head. */
  lemma NoDupTail(s: seq<string>)
    requires NoDup(s) && s != []
    ensures NoDup(s[1..]) && s[0] !in s[1..]
  {
    var rest := s[1..];
    forall i, j | 0 <= i < j < |rest| ensures rest[i] != rest[j] {
      assert rest[i] == s[i + 1] && rest[j] == s[j + 1];
    }
    forall i | 0 <= i < |rest| ensures rest[i] != s[0] {
      assert rest[i] == s[i + 1];
    }
  }

  /** A new head on a room without duplicates keeps it without duplicates. */
  lemma NoDupCons(h: string, t: seq<string>)
    requires NoDup(t) && h !in t
    ensures NoDup([h] + t)
  {
    var r := [h] + t;
    forall i, j | 0 <= i < j < |r| ensures r[i] != r[j] {
      assert r[j] == t[j - 1];
      if i > 0 {
        assert r[i] == t[i - 1];
      }
    }
  }

  /** In a room without duplicates, removing a user removes them entirely
      and leaves no duplicates. */
  lemma {:induction false} RemoveFirstNoDup(s: seq<string>, x: string)
    requires NoDup(s)
    ensures NoDup(RemoveFirst(s, x)) && x !in RemoveFirst(s, x)
  {
    if s != [] {
      NoDupTail(s);
      if s[0] != x {
        RemoveFirstNoDup(s[1..], x);
        var tail := RemoveFirst(s[1..], x);
        assert s[0] !in tail by {
          RemoveFirstCount(s[1..], x);
          assert s[0] !in multiset(s[1..]);
          assert multiset(tail) <= multiset(s[1..]);
        }
        NoDupCons(s[0], tail);
      }
    }
  }

  /** Removing the first occurrence keeps every other user. */
  lemma RemoveFirstKeepsOthers(s: seq<string>, x: string, y: string)
    requires y != x
    ensures y in RemoveFirst(s, x) <==> y in s
  {
    RemoveFirstCount(s, x);
    assert y in RemoveFirst(s, x) <==> y in multiset(RemoveFirst(s, x));
    assert y in s <==> y in multiset(s);
  }

  /** Joining twice is joining once. */
  lemma JoinIdempotent(room: seq<string>, user: string)
    ensures Join(Join(room, user), user) == Join(room, user)
  {
  }

  /** A user who was not in the room and joins, then leaves, leaves the room
      as it was. */
  lemma {:induction false} JoinThenLeave(room: seq<string>, user: string)
    requires user !in room
    ensures RemoveFirst(Join(room, user), user) == room
  {
    var joined := room + [user];
    assert Join(room, user) == joined;
    if room == [] {
      assert joined == [user];
    } else {
      JoinThenLeave(room[1..], user);
      assert joined[0] == room[0] && joined[1..] == room[1..] + [user];
      assert RemoveFirst(joined, user) == [room[0]] + RemoveFirst(room[1..] + [user], user);
    }
  }

  /** The room after each of `users` joins it in turn. */
  function JoinAll(room: seq<string>, users: seq<string>): seq<string>
    decreases |users|
  {
    if users == [] then room else Join(JoinAll(room, users[..|users| - 1]), users[|users| - 1])
  }

  /** The position of the first occurrence of `x` in `s`. */
  function FirstIndex(s: seq<string>, x: string): (k: nat)
    requires x in s
    ensures k < |s| && s[k] == x && x !in s[..k]
  {
    if s[0] == x then 0 else 1 + FirstIndex(s[1..], x)
  }

  /** Extending a sequence does not move the first occurrence of what it
      already holds. */
  lemma {:induction false} FirstIndexOfPrefix(s: seq<string>, y: string, x: string)
    requires x in s
    ensures FirstIndex(s + [y], x) == FirstIndex(s, x)
  {
    var k := FirstIndex(s, x);
    assert (s + [y])[k] == x;
  }

  /** The members of `room` appear in the order in which they first occur
      in `users`. */
  predicate InFirstJoinOrder(room: seq<string>, users: seq<string>) {
    forall i, j | 0 <= i < j < |room| ::
      room[i] in users && room[j] in users && FirstIndex(users, room[i]) < FirstIndex(users, room[j])
  }

  /** One more join keeps a room in the order of first joins. */
  lemma JoinKeepsOrder(prev: seq<string>, init: seq<string>, last: string)
    requires forall x :: x in prev <==> x in init
    requires InFirstJoinOrder(prev, init)
    ensures InFirstJoinOrder(Join(prev, last), init + [last])
  {
    var users := init + [last];
    var r := Join(prev, last);
    forall x | x in prev ensures x in users && FirstIndex(users, x) == FirstIndex(init, x) {
      FirstIndexOfPrefix(init, last, x);
    }
    if last in prev {
      forall i, j | 0 <= i < j < |r|
        ensures r[i] in users && r[j] in users && FirstIndex(users, r[i]) < FirstIndex(users, r[j])
      {
        assert r[i] == prev[i] && r[j] == prev[j];
      }
    } else {
      assert users[|init|] == last && users[..|init|] == init;
      forall i, j | 0 <= i < j < |r|
        ensures r[i] in users && r[j] in users && FirstIndex(users, r[i]) < FirstIndex(users, r[j])
      {
        assert r[i] == prev[i];
        if j < |prev| {
          assert r[j] == prev[j];
        } else {
          assert r[j] == last;
          assert FirstIndex(init, r[i]) < |init|;
        }
      }
    }
  }

  /** Users joining an empty room in turn leave it with each of them exactly
      once, in the order of their first join. */
  lemma {:induction false} JoinAllOrder(users: seq<string>)
    ensures NoDup(JoinAll([], users))
    ensures forall x :: x in JoinAll([], users) <==> x in users
    ensures InFirstJoinOrder(JoinAll([], users), users)
    decreases |users|
  {
    if users != [] {
      var init := users[..|users| - 1];
      var last := users[|users| - 1];
      assert users == init + [last];
      JoinAllOrder(init);
      JoinKeepsOrder(JoinAll([], init), init, last);
    }
  }

  /** Every room with the user removed. */
  function LeaveAll(rooms: map<string, seq<string>>, user: string): (r: map<string, seq<string>>)
    ensures r.Keys == rooms.Keys
    ensures forall e | e in rooms :: user !in rooms[e] ==> r[e] == rooms[e]
  {
    map e | e in rooms :: RemoveFirst(rooms[e], user)
  }

  /** After leaving every room a user is in none of them, while every other
      user keeps exactly the rooms they had. */
  lemma LeaveAllEffect(rooms: map<string, seq<string>>, user: string)
    requires forall e | e in rooms :: NoDup(rooms[e])
    ensures forall e | e in LeaveAll(rooms, user) :: user !in LeaveAll(rooms, user)[e] && NoDup(LeaveAll(rooms, user)[e])
    ensures forall e, v | e in rooms && v != user :: v in LeaveAll(rooms, user)[e] <==> v in rooms[e]
  {
    forall e | e in rooms ensures user !in LeaveAll(rooms, user)[e] && NoDup(LeaveAll(rooms, user)[e]) {
      RemoveFirstNoDup(rooms[e], user);
    }
    forall e, v | e in rooms && v != user ensures v in LeaveAll(rooms, user)[e] <==> v in rooms[e] {
      RemoveFirstKeepsOthers(rooms[e], user, v);
    }
  }

  /** The connection registry and the exam rooms. */
  class WebSocketManager {
    /** A handle of each connected user's socket. */
    var activeConnections: map<string, nat>
    /** The users in each exam's room, in joining order. */
    var examRooms: map<string, seq<string>>

    ghost predicate Valid()
      reads this
    {
      forall e | e in examRooms :: NoDup(examRooms[e])
    }

    constructor ()
      ensures activeConnections == map[] && examRooms == map[]
      ensures Valid()
    {
      activeConnections := map[];
      examRooms := map[];
    }

    method JoinExamRoom(userId: string, examId: string)
      modifies this
      ensures examRooms == old(examRooms)[examId := Join(Room(old(examRooms), examId), userId)]
      ensures activeConnections == old(activeConnections)
      ensures old(Valid()) ==> Valid()
    {
      if examId !in examRooms {
        examRooms := examRooms[examId := []];
      }
      if userId !in examRooms[examId] {
        examRooms := examRooms[examId := examRooms[examId] + [userId]];
      }
    }

    method LeaveExamRoom(userId: string, examId: string)
      modifies this
      ensures examRooms == if examId in old(examRooms) then old(examRooms)[examId := RemoveFirst(old(examRooms)[examId], userId)]
                           else old(examRooms)
      ensures activeConnections == old(activeConnections)
      ensures old(Valid()) ==> Valid()
    {
      if examId in examRooms && userId in examRooms[examId] {
        if Valid() {
          RemoveFirstNoDup(examRooms[examId], userId);
        }
        examRooms := examRooms[examId := RemoveFirst(examRooms[examId], userId)];
      }
    }

    method Disconnect(userId: string)
      modifies this
      ensures activeConnections == old(activeConnections) - {userId}
      ensures examRooms == LeaveAll(old(examRooms), userId)
      ensures old(Valid()) ==> Valid()
    {
      if userId in activeConnections {
        activeConnections := activeConnections - {userId};
      }
      var pending := examRooms.Keys;
      while pending != {}
        invariant pending <= examRooms.Keys && examRooms.Keys == old(examRooms).Keys
        invariant forall e | e in examRooms ::
          examRooms[e] == if e in pending then old(examRooms)[e] else RemoveFirst(old(examRooms)[e], userId)
        invariant activeConnections == old(activeConnections) - {userId}
        decreases pending
      {
        var examId :| examId in pending;
        var users := examRooms[examId];
        if userId in users {
          examRooms := examRooms[examId := RemoveFirst(users, userId)];
        }
        pending := pending - {examId};
      }
      assert examRooms == LeaveAll(old(examRooms), userId);
      if old(Valid()) {
        LeaveAllEffect(old(examRooms), userId);
      }
    }

    method GetExamParticipants(examId: string) returns (participants: seq<string>)
      ensures participants == Room(examRooms, examId)
      ensures Valid() ==> NoDup(participants)
      ensures examId !in examRooms ==> participants == []
    {
      participants := if examId in examRooms then examRooms[examId] else [];
    }
  }
}
