/**
 The session and presence engine of the notepad server: the Socket.IO
 handlers that keep the registry of connected participants and the shared
 document, and decide what is sent to whom.

 Each handler runs to completion without yielding, so the engine is one
 object whose methods each handle one inbound event. A send is recorded in
 an outbox instead of being delivered: `ToOne` for `socket.emit` (to the
 calling connection) and `ToOthers` for `socket.broadcast.emit` (to every
 other connection, authenticated or not).
 */
module Presence {

  datatype Option<T> = None | Some(value: T)

  /** A Socket.IO socket id. */
  type ConnId = string

  /** The record kept per authenticated connection. */
  datatype Participant = Participant(username: string, cursorPosition: int, selectionStart: int, selectionEnd: int)

  /** Outbound events, with the payload field names the server uses. */
  datatype Event =
    | DocumentState(content: string, users: seq<Participant>)
    | UserJoined(username: string, socketId: ConnId)
    | TextChange(content: string, userId: ConnId, username: string, cursorPosition: int)
    | CursorPosition(userId: ConnId, username: string, position: int, selectionStart: int, selectionEnd: int)
    | UserLeft(userId: ConnId, username: string)

  datatype Send = ToOne(target: ConnId, event: Event) | ToOthers(excluded: ConnId, event: Event)

  /** Whether connection `d` is among the receivers of `s`. */
  predicate Addressed(s: Send, d: ConnId) {
    match s
    case ToOne(target, _) => target == d
    case ToOthers(excluded, _) => excluded != d
  }

  /** The events connection `d` is sent, in the order they were sent. */
  function Inbox(outbox: seq<Send>, d: ConnId): (r: seq<Event>)
    ensures r == [] <==> forall i :: 0 <= i < |outbox| ==> !Addressed(outbox[i], d)
  {
    if outbox == [] then []
    else (if Addressed(outbox[0], d) then [outbox[0].event] else []) + Inbox(outbox[1..], d)
  }

  /** A later send never reorders or drops what a connection was sent before. */
  lemma {:induction false} InboxAppend(xs: seq<Send>, ys: seq<Send>, d: ConnId)
    ensures Inbox(xs + ys, d) == Inbox(xs, d) + Inbox(ys, d)
  {
    if xs != [] {
      assert (xs + ys)[1..] == xs[1..] + ys;
      InboxAppend(xs[1..], ys, d);
    } else {
      assert xs + ys == ys;
    }
  }

  /** `socket.emit` on connection `c`: only `c` is sent `e`. */
  lemma {:induction false} InboxAfterEmit(outbox: seq<Send>, c: ConnId, e: Event, d: ConnId)
    ensures Inbox(outbox + [ToOne(c, e)], d) == Inbox(outbox, d) + (if d == c then [e] else [])
  {
    InboxAppend(outbox, [ToOne(c, e)], d);
  }

  /** `socket.broadcast.emit` from connection `c`: every connection but `c` is sent `e`, and `c` nothing. */
  lemma {:induction false} InboxAfterBroadcast(outbox: seq<Send>, c: ConnId, e: Event, d: ConnId)
    ensures Inbox(outbox + [ToOthers(c, e)], d) == Inbox(outbox, d) + (if d == c then [] else [e])
  {
    InboxAppend(outbox, [ToOthers(c, e)], d);
  }

  /** The two sends of `authenticate`: the caller is sent the snapshot, everyone else the notice. */
  lemma {:induction false} InboxAfterJoin(outbox: seq<Send>, c: ConnId, snapshot: Event, joined: Event, d: ConnId)
    ensures Inbox(outbox + [ToOne(c, snapshot), ToOthers(c, joined)], d) ==
            Inbox(outbox, d) + [if d == c then snapshot else joined]
  {
    assert outbox + [ToOne(c, snapshot), ToOthers(c, joined)] == outbox + [ToOne(c, snapshot)] + [ToOthers(c, joined)];
    InboxAfterEmit(outbox, c, snapshot, d);
    InboxAfterBroadcast(outbox + [ToOne(c, snapshot)], c, joined, d);
  }

  /** JavaScript's `field || position` for a selection field; the falsy values
      modelled are an absent field and 0. */
  function SelectionOr(field: Option<int>, position: int): (r: int)
    ensures field.Some? && field.value != 0 ==> r == field.value
    ensures field.None? || field.value == 0 ==> r == position
  {
    match field
    case Some(v) => if v != 0 then v else position
    case None => position
  }

  ghost predicate Distinct(s: seq<ConnId>) {
    forall i, j :: 0 <= i < j < |s| ==> s[i] != s[j]
  }

  /** `order` lists the keys of `entries` once each: the iteration order of a JavaScript Map. */
  ghost predicate Tracks(order: seq<ConnId>, entries: map<ConnId, Participant>) {
    Distinct(order) && forall c :: c in order <==> c in entries
  }

  /** The values of `entries`, in the order of `order`. */
  function Values(order: seq<ConnId>, entries: map<ConnId, Participant>): (vs: seq<Participant>)
    requires forall c :: c in order ==> c in entries
    ensures |vs| == |order|
    ensures forall i :: 0 <= i < |order| ==> vs[i] == entries[order[i]]
  {
    if order == [] then [] else [entries[order[0]]] + Values(order[1..], entries)
  }

  /** `order` with `c` taken out: what `Map.delete` does to the iteration order. */
  function Without(order: seq<ConnId>, c: ConnId): (r: seq<ConnId>)
    ensures forall x :: x in r <==> x in order && x != c
    ensures Distinct(order) ==> Distinct(r)
  {
    if order == [] then []
    else if order[0] == c then Without(order[1..], c)
    else
      var rest := Without(order[1..], c);
      assert Distinct(order) ==> Distinct(order[1..]) && order[0] !in rest;
      [order[0]] + rest
  }

  /** Deleting a key that is not there leaves the order as it was. */
  lemma {:induction false} WithoutAbsent(order: seq<ConnId>, c: ConnId)
    requires c !in order
    ensures Without(order, c) == order
  {
    if order != [] {
      WithoutAbsent(order[1..], c);
    }
  }

  /** Deleting the key at position `k` cuts out that position and keeps the rest in order. */
  lemma {:induction false} WithoutAt(order: seq<ConnId>, k: int)
    requires Distinct(order) && 0 <= k < |order|
    ensures Without(order, order[k]) == order[..k] + order[k + 1..]
  {
    var c := order[k];
    if k == 0 {
      assert c !in order[1..];
      WithoutAbsent(order[1..], c);
    } else {
      var tail := order[1..];
      assert Distinct(tail) && tail[k - 1] == c;
      WithoutAt(tail, k - 1);
      assert order[..k] == [order[0]] + tail[..k - 1];
      assert order[k + 1..] == tail[k..];
    }
  }

  /** `Without` keeps the other keys in their order: it cuts out the one place where `c`
      stands, or changes nothing when `c` is absent. */
  lemma WithoutKeepsOrder(order: seq<ConnId>, c: ConnId)
    requires Distinct(order)
    ensures c !in order ==> Without(order, c) == order
    ensures c in order ==>
              exists k :: 0 <= k < |order| && order[k] == c && Without(order, c) == order[..k] + order[k + 1..]
  {
    if c in order {
      var k :| 0 <= k < |order| && order[k] == c;
      WithoutAt(order, k);
    } else {
      WithoutAbsent(order, c);
    }
  }

  /** Over a tracking order, the values list holds exactly the registered participants. */
  lemma ValuesExact(order: seq<ConnId>, entries: map<ConnId, Participant>)
    requires Tracks(order, entries)
    ensures forall p :: p in Values(order, entries) <==> p in entries.Values
  {
  }

  /** A tracking order is as long as the map has entries. */
  lemma {:induction false} TracksCount(order: seq<ConnId>, entries: map<ConnId, Participant>)
    requires Tracks(order, entries)
    ensures |order| == |entries|
    decreases |order|
  {
    if order == [] {
      assert entries == map[];
    } else {
      var rest := entries - {order[0]};
      forall c ensures c in order[1..] <==> c in rest {
        if c in order[1..] {
          var k :| 0 <= k < |order[1..]| && order[1..][k] == c;
          assert order[k + 1] == c;
        }
        if c in rest {
          var k :| 0 <= k < |order| && order[k] == c;
          assert k != 0;
          assert order[1..][k - 1] == c;
        }
      }
      TracksCount(order[1..], rest);
      assert entries.Keys == rest.Keys + {order[0]};
    }
  }

  /** `Map.set` keeps the position of a key already present and appends a new one. */
  lemma TracksInsert(order: seq<ConnId>, entries: map<ConnId, Participant>, c: ConnId, p: Participant)
    requires Tracks(order, entries)
    ensures Tracks(if c in entries then order else order + [c], entries[c := p])
  {
  }

  /** The engine's shared state: `connectedUsers` and `documentContent`, plus the
      outbox of sends and the Map's iteration order. */
  class Coordinator {
    var connectedUsers: map<ConnId, Participant>
    var joinOrder: seq<ConnId>
    var documentContent: string
    var outbox: seq<Send>

    ghost predicate Valid()
      reads this`connectedUsers, this`joinOrder
    {
      Tracks(joinOrder, connectedUsers)
    }

    /** `Array.from(connectedUsers.values())`. */
    function Users(): (us: seq<Participant>)
      reads this`connectedUsers, this`joinOrder
      requires Valid()
      ensures |us| == |joinOrder|
      ensures forall i :: 0 <= i < |joinOrder| ==> us[i] == connectedUsers[joinOrder[i]]
    {
      Values(joinOrder, connectedUsers)
    }

    /** Server start: nobody connected, empty document, nothing sent. */
    constructor ()
      ensures Valid()
      ensures connectedUsers == map[] && joinOrder == [] && documentContent == "" && outbox == []
    {
      connectedUsers := map[];
      joinOrder := [];
      documentContent := "";
      outbox := [];
    }

    /** The `authenticate` handler. */
    method OnAuthenticate(c: ConnId, username: string)
      requires Valid()
      modifies this
      ensures Valid()
      ensures connectedUsers == old(connectedUsers)[c := Participant(username, 0, 0, 0)]
      ensures joinOrder == if c in old(connectedUsers) then old(joinOrder) else old(joinOrder) + [c]
      ensures documentContent == old(documentContent)
      ensures Participant(username, 0, 0, 0) in Users()
      ensures outbox == old(outbox) + [ToOne(c, DocumentState(documentContent, Users())),
                                       ToOthers(c, UserJoined(username, c))]
    {
      TracksInsert(joinOrder, connectedUsers, c, Participant(username, 0, 0, 0));
      if c !in connectedUsers {
        joinOrder := joinOrder + [c];
      }
      connectedUsers := connectedUsers[c := Participant(username, 0, 0, 0)];
      // A new connection's record is the last one in the snapshot.
      assert c !in old(connectedUsers) ==> Users()[|joinOrder| - 1] == connectedUsers[c];
      // `socket.emit` of the snapshot, then `socket.broadcast.emit` of the notice.
      outbox := outbox + [ToOne(c, DocumentState(documentContent, Users())), ToOthers(c, UserJoined(username, c))];
    }

    /** The `text-change` handler: last write wins. */
    method OnTextChange(c: ConnId, content: string, cursorPosition: int)
      requires Valid()
      modifies this
      ensures Valid()
      ensures joinOrder == old(joinOrder)
      ensures c !in old(connectedUsers) ==>
                connectedUsers == old(connectedUsers) && documentContent == old(documentContent) &&
                outbox == old(outbox)
      ensures c in old(connectedUsers) ==>
                var user := old(connectedUsers)[c];
                && documentContent == content
                && connectedUsers == old(connectedUsers)[c := user.(cursorPosition := cursorPosition)]
                && outbox == old(outbox) + [ToOthers(c, TextChange(content, c, user.username, cursorPosition))]
    {
      if c in connectedUsers {
        var user := connectedUsers[c];
        documentContent := content;
        connectedUsers := connectedUsers[c := user.(cursorPosition := cursorPosition)];
        outbox := outbox + [ToOthers(c, TextChange(content, c, user.username, cursorPosition))];
      }
    }

    /** The `cursor-position` handler. */
    method OnCursorPosition(c: ConnId, position: int, selectionStart: Option<int>, selectionEnd: Option<int>)
      requires Valid()
      modifies this
      ensures Valid()
      ensures joinOrder == old(joinOrder) && documentContent == old(documentContent)
      ensures c !in old(connectedUsers) ==>
                connectedUsers == old(connectedUsers) && outbox == old(outbox)
      ensures c in old(connectedUsers) ==>
                var user := Participant(old(connectedUsers)[c].username, position,
                                        SelectionOr(selectionStart, position), SelectionOr(selectionEnd, position));
                var echo := CursorPosition(c, user.username, position, user.selectionStart, user.selectionEnd);
                && connectedUsers == old(connectedUsers)[c := user]
                && outbox == old(outbox) + [ToOthers(c, echo)]
    {
      if c in connectedUsers {
        var user := connectedUsers[c];
        user := user.(cursorPosition := position);
        user := user.(selectionStart := SelectionOr(selectionStart, position));
        user := user.(selectionEnd := SelectionOr(selectionEnd, position));
        connectedUsers := connectedUsers[c := user];
        outbox := outbox + [ToOthers(c, CursorPosition(c, user.username, position, user.selectionStart, user.selectionEnd))];
      }
    }

    /** The `disconnect` handler. */
    method OnDisconnect(c: ConnId)
      requires Valid()
      modifies this
      ensures Valid()
      ensures c !in connectedUsers
      ensures documentContent == old(documentContent)
      ensures c !in old(connectedUsers) ==>
                connectedUsers == old(connectedUsers) && joinOrder == old(joinOrder) && outbox == old(outbox)
      ensures c in old(connectedUsers) ==>
                var left := UserLeft(c, old(connectedUsers)[c].username);
                && connectedUsers == old(connectedUsers) - {c}
                && joinOrder == Without(old(joinOrder), c)
                && outbox == old(outbox) + [ToOthers(c, left)]
    {
      if c in connectedUsers {
        var user := connectedUsers[c];
        connectedUsers := connectedUsers - {c};
        joinOrder := Without(joinOrder, c);
        outbox := outbox + [ToOthers(c, UserLeft(c, user.username))];
      }
    }
  }

  // Client scenarios: each assertion below follows from the handlers' contracts and the
  // lemmas about `Inbox` alone.

  /** A second connection joins after "alice": its snapshot lists both records, in join order. */
  method SecondJoinSnapshot(engine: Coordinator)
    requires engine.Valid()
    requires engine.connectedUsers == map["A" := Participant("alice", 0, 0, 0)] && engine.joinOrder == ["A"]
    modifies engine
  {
    assert "B" !in engine.connectedUsers by { assert "A"[0] != "B"[0]; }
    ghost var sent := engine.outbox;
    engine.OnAuthenticate("B", "bob");
    assert engine.joinOrder == ["A", "B"];
    var users := engine.Users();
    assert users == [Participant("alice", 0, 0, 0), Participant("bob", 0, 0, 0)];
    InboxAfterJoin(sent, "B", DocumentState(engine.documentContent, users), UserJoined("bob", "B"), "B");
    assert Inbox(engine.outbox, "B") == Inbox(sent, "B") + [DocumentState(engine.documentContent, users)];
  }

  /** "alice" edits: every other connection is sent the echo, "alice" nothing. */
  method EditEchoedToOthers(engine: Coordinator)
    requires engine.Valid()
    requires "A" in engine.connectedUsers && engine.connectedUsers["A"].username == "alice"
    modifies engine
  {
    assert "A" != "B" by { assert "A"[0] != "B"[0]; }
    ghost var sent := engine.outbox;
    engine.OnTextChange("A", "hi", 2);
    assert engine.documentContent == "hi";
    InboxAfterBroadcast(sent, "A", TextChange("hi", "A", "alice", 2), "B");
    InboxAfterBroadcast(sent, "A", TextChange("hi", "A", "alice", 2), "A");
    assert Inbox(engine.outbox, "B") == Inbox(sent, "B") + [TextChange("hi", "A", "alice", 2)];
    assert Inbox(engine.outbox, "A") == Inbox(sent, "A");
  }

  /** A cursor update without a usable selection collapses the selection onto the cursor. */
  method CursorWithoutSelection(engine: Coordinator)
    requires engine.Valid()
    requires "B" in engine.connectedUsers && engine.connectedUsers["B"].username == "bob"
    modifies engine
  {
    engine.OnCursorPosition("B", 3, None, Some(0));
    assert engine.connectedUsers["B"] == Participant("bob", 3, 3, 3);
  }

  /** "alice" leaves twice: "bob" is told once, and the second disconnect and a
      later edit from the closed connection change nothing. */
  method LeaveTwice(engine: Coordinator)
    requires engine.Valid()
    requires "A" in engine.connectedUsers && engine.connectedUsers["A"].username == "alice"
    modifies engine
  {
    assert "A" != "B" by { assert "A"[0] != "B"[0]; }
    ghost var sent := engine.outbox;
    engine.OnDisconnect("A");
    InboxAfterBroadcast(sent, "A", UserLeft("A", "alice"), "B");
    assert Inbox(engine.outbox, "B") == Inbox(sent, "B") + [UserLeft("A", "alice")];

    sent := engine.outbox;
    var registry, document := engine.connectedUsers, engine.documentContent;
    engine.OnDisconnect("A");
    engine.OnTextChange("A", "lost", 4);
    assert engine.outbox == sent && engine.connectedUsers == registry && engine.documentContent == document;
  }
}
