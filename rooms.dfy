/**
 * One room record of the whiteboard server and what each socket handler
 * does to it: the roster, the stroke list with its undo and redo snapshot
 * stacks, and the chat messages.
 */
module Rooms {
  import opened Wrappers
  import opened Drawables

  type RoomId = string
  type SocketId = string

  /** The two values the roster schema admits for `permissions`. */
  datatype Permission = Edit | View

  datatype User = User(id: SocketId, name: string, permissions: Permission)

  /** A stored chat message; `timestamp` is the server clock at the time it was stored. */
  datatype Message = Message(senderId: SocketId, senderName: string, content: string, timestamp: int)

  /** The `new-message` object `send-message` builds and broadcasts; it carries no timestamp. */
  datatype NewMessage = NewMessage(senderId: SocketId, senderName: string, content: string)

  /** The subdocument the chat stores for a broadcast message, stamped with the server clock. */
  function Stamp(m: NewMessage, now: int): (s: Message)
    ensures s.senderId == m.senderId && s.senderName == m.senderName && s.content == m.content
    ensures s.timestamp == now
  {
    Message(m.senderId, m.senderName, m.content, now)
  }

  datatype Room = Room(
    roomId: RoomId,
    isPrivate: bool,
    creator: SocketId,
    users: seq<User>,
    strokes: seq<Drawable>,
    undoStack: seq<seq<Drawable>>,
    redoStack: seq<seq<Drawable>>,
    messages: seq<Message>)

  /** The one room anybody may draw in and whose chat is forgotten when it empties. */
  const PUBLIC: RoomId := "public"
  const ANONYMOUS: string := "Anonymous"

  /** The permission named by a client-supplied string, if the schema admits it. */
  function ParsePermission(s: string): (p: Option<Permission>)
    ensures p == Some(Edit) <==> s == "edit"
    ensures p == Some(View) <==> s == "view"
    ensures p.None? <==> s != "edit" && s != "view"
  {
    if s == "edit" then Some(Edit) else if s == "view" then Some(View) else None
  }

  // ---------------------------------------------------------------------
  // Lookups
  // ---------------------------------------------------------------------

  /** `users.find(u => u.id === id)`, as the index of the first entry with that id. */
  function FindUser(users: seq<User>, id: SocketId): (r: Option<nat>)
    ensures r.Some? ==> r.value < |users| && users[r.value].id == id
    ensures r.Some? ==> forall j :: 0 <= j < r.value ==> users[j].id != id
    ensures r.None? ==> forall j :: 0 <= j < |users| ==> users[j].id != id
  {
    if |users| == 0 then None
    else if users[0].id == id then Some(0)
    else
      match FindUser(users[1..], id)
      case None => None
      case Some(j) => Some(j + 1)
  }

  predicate InRoster(r: Room, id: SocketId)
  {
    exists j :: 0 <= j < |r.users| && r.users[j].id == id
  }

  /** `hasEditPermission`: the room exists and the caller's roster entry says `edit`. */
  predicate HasEditPermission(rooms: map<RoomId, Room>, caller: SocketId, roomId: RoomId)
  {
    roomId in rooms &&
    match FindUser(rooms[roomId].users, caller)
    case None => false
    case Some(j) => rooms[roomId].users[j].permissions == Edit
  }

  /** A caller passes the gate exactly when some entry of its in an existing room is the first one and says `edit`. */
  lemma EditPermissionIff(rooms: map<RoomId, Room>, caller: SocketId, roomId: RoomId)
    ensures HasEditPermission(rooms, caller, roomId) <==>
      roomId in rooms &&
      exists j :: 0 <= j < |rooms[roomId].users| && rooms[roomId].users[j].id == caller
        && rooms[roomId].users[j].permissions == Edit
        && forall i :: 0 <= i < j ==> rooms[roomId].users[i].id != caller
  {
    if roomId in rooms {
      var users := rooms[roomId].users;
      if j :| (0 <= j < |users| && users[j].id == caller && users[j].permissions == Edit
               && forall i :: 0 <= i < j ==> users[i].id != caller) {
        var f := FindUser(users, caller);
        assert f.Some? && f.value <= j;
      }
    }
  }

  /** Index of the first drawable whose `id` equals `id`; drawables without an id compare equal to `None`. */
  function FindById(strokes: seq<Drawable>, id: Option<string>): (r: Option<nat>)
    ensures r.Some? ==> r.value < |strokes| && IdOf(strokes[r.value]) == id
    ensures r.Some? ==> forall j :: 0 <= j < r.value ==> IdOf(strokes[j]) != id
    ensures r.None? ==> forall j :: 0 <= j < |strokes| ==> IdOf(strokes[j]) != id
  {
    if |strokes| == 0 then None
    else if IdOf(strokes[0]) == id then Some(0)
    else
      match FindById(strokes[1..], id)
      case None => None
      case Some(j) => Some(j + 1)
  }

  // ---------------------------------------------------------------------
  // Well-formed rooms
  // ---------------------------------------------------------------------

  /** At most one roster entry per connection. */
  predicate UniqueIds(users: seq<User>)
  {
    forall i, j :: 0 <= i < j < |users| ==> users[i].id != users[j].id
  }

  /** The creator's roster entry, if any, carries `edit`. */
  predicate CreatorIsEditor(r: Room)
  {
    forall j :: 0 <= j < |r.users| && r.users[j].id == r.creator ==> r.users[j].permissions == Edit
  }

  /**
   * What the schema's validators enforce on every stored room, plus one
   * entry per connection and the privacy the room was created with.
   */
  predicate WellFormed(r: Room)
  {
    r.roomId != "" && r.creator != "" && UniqueIds(r.users)
    && (r.isPrivate <==> r.roomId != PUBLIC)
    && (forall j :: 0 <= j < |r.users| ==> r.users[j].id != "")
    && (forall m :: 0 <= m < |r.messages| ==> r.messages[m].content != "" && r.messages[m].senderId != "")
  }

  /** The record `join-room` creates for a room id that is not stored yet. */
  function NewRoom(roomId: RoomId, caller: SocketId): (r: Room)
    ensures r.isPrivate <==> roomId != PUBLIC
    ensures r.creator == caller && r.roomId == roomId
    ensures r.users == [] && r.strokes == [] && r.undoStack == [] && r.redoStack == [] && r.messages == []
  {
    Room(roomId, roomId != PUBLIC, caller, [], [], [], [], [])
  }

  // ---------------------------------------------------------------------
  // join-room
  // ---------------------------------------------------------------------

  /** A successful join: the stored room, the caller's entry and whether the call created the room. */
  datatype Joined = Joined(room: Room, user: User, isCreator: bool)

  /** The display name of a new entry: the given one, or the schema default when none is given. */
  function DisplayName(username: string): (n: string)
    ensures n != ""
    ensures username != "" ==> n == username
    ensures username == "" ==> n == ANONYMOUS
  {
    if username == "" then ANONYMOUS else username
  }

  /**
   * `join-room`. The save is rejected, and the join fails, when the room id
   * or the caller's id is empty (both are required by the schema).
   */
  function Join(stored: Option<Room>, roomId: RoomId, caller: SocketId, username: string): Option<Joined>
  {
    if roomId == "" || caller == "" then None
    else
      var isCreator := stored.None?;
      var r0 := if stored.Some? then stored.value else NewRoom(roomId, caller);
      var r1 := if r0.roomId == PUBLIC && |r0.users| == 0 then r0.(messages := []) else r0;
      match FindUser(r1.users, caller)
      case None =>
        var u := User(caller, DisplayName(username), if isCreator || !r1.isPrivate then Edit else View);
        Some(Joined(r1.(users := r1.users + [u]), u, isCreator))
      case Some(j) =>
        var u0 := r1.users[j];
        var u1 := if username != "" && u0.name != username then u0.(name := username) else u0;
        var u2 := if u1.id == r1.creator then u1.(permissions := Edit) else u1;
        Some(Joined(r1.(users := r1.users[j := u2]), u2, isCreator))
  }

  /** A join fails exactly when the room id or the caller's id is empty. */
  lemma JoinFailsIff(stored: Option<Room>, roomId: RoomId, caller: SocketId, username: string)
    ensures Join(stored, roomId, caller, username).None? <==> roomId == "" || caller == ""
  {
  }

  /**
   * Joining a room that is not stored creates it: private unless it is the
   * public room, created by the caller, with an empty document and the
   * caller as its one editor.
   */
  lemma JoinCreates(roomId: RoomId, caller: SocketId, username: string)
    requires roomId != "" && caller != ""
    ensures var j := Join(None, roomId, caller, username);
      && j.Some? && j.value.isCreator
      && j.value.room.roomId == roomId && j.value.room.creator == caller
      && (j.value.room.isPrivate <==> roomId != PUBLIC)
      && j.value.room.users == [User(caller, DisplayName(username), Edit)]
      && j.value.room.strokes == [] && j.value.room.undoStack == [] && j.value.room.redoStack == []
      && j.value.room.messages == []
  {
  }

  /**
   * A caller without an entry gets one at the end of the roster, with
   * `edit` exactly when it created the room or the room is not private;
   * nothing else in the roster changes.
   */
  lemma JoinNewEntry(r: Room, caller: SocketId, username: string)
    requires caller != "" && r.roomId != ""
    requires !InRoster(r, caller)
    ensures var j := Join(Some(r), r.roomId, caller, username);
      && j.Some? && !j.value.isCreator
      && j.value.room.users == r.users + [j.value.user]
      && j.value.user.id == caller && j.value.user.name == DisplayName(username)
      && (j.value.user.permissions == Edit <==> !r.isPrivate)
  {
    var f := FindUser(r.users, caller);
    assert f.None? by {
      assert forall j :: 0 <= j < |r.users| ==> r.users[j].id != caller;
    }
  }

  /**
   * A caller with an entry is not added again: its entry stays where it
   * is, is renamed when a non-empty name is given, and says `edit` when it
   * is the creator's; otherwise it keeps its stored permission, in the
   * public room too.
   */
  lemma JoinRejoin(r: Room, caller: SocketId, username: string, k: nat)
    requires caller != "" && r.roomId != ""
    requires k < |r.users| && r.users[k].id == caller && UniqueIds(r.users)
    ensures var j := Join(Some(r), r.roomId, caller, username);
      && j.Some? && |j.value.room.users| == |r.users|
      && j.value.room.users == r.users[k := j.value.user]
      && j.value.user.id == caller
      && j.value.user.name == (if username != "" then username else r.users[k].name)
      && j.value.user.permissions == (if caller == r.creator then Edit else r.users[k].permissions)
  {
    var f := FindUser(r.users, caller);
    assert f == Some(k) by {
      if f.value != k {
        assert r.users[f.value].id == r.users[k].id;
      }
    }
  }

  /** Joining the public room while its roster is empty forgets its chat; any other join keeps it. */
  lemma JoinPublicEmptyClearsMessages(stored: Option<Room>, roomId: RoomId, caller: SocketId, username: string)
    requires Join(stored, roomId, caller, username).Some?
    requires stored.Some? ==> stored.value.roomId == roomId
    ensures var r := Join(stored, roomId, caller, username).value.room;
      r.messages == if stored.None? || (roomId == PUBLIC && |stored.value.users| == 0) then [] else stored.value.messages
  {
  }

  /** A join keeps the document and touches only the roster and, in the public room, the chat. */
  lemma JoinKeepsDocument(r: Room, caller: SocketId, username: string)
    requires Join(Some(r), r.roomId, caller, username).Some?
    ensures var r2 := Join(Some(r), r.roomId, caller, username).value.room;
      && r2.roomId == r.roomId && r2.isPrivate == r.isPrivate && r2.creator == r.creator
      && r2.strokes == r.strokes && r2.undoStack == r.undoStack && r2.redoStack == r.redoStack
  {
  }

  /** A join keeps a room well formed, with the creator an editor, and leaves the caller in its roster. */
  lemma JoinPreservesWellFormed(stored: Option<Room>, roomId: RoomId, caller: SocketId, username: string)
    requires stored.Some? ==> stored.value.roomId == roomId && WellFormed(stored.value)
    requires Join(stored, roomId, caller, username).Some?
    ensures var r := Join(stored, roomId, caller, username).value.room;
      && WellFormed(r) && InRoster(r, caller)
      && (stored.Some? ==> r.isPrivate == stored.value.isPrivate)
    ensures stored.None? ==> CreatorIsEditor(Join(stored, roomId, caller, username).value.room)
    ensures (stored.Some? && CreatorIsEditor(stored.value)
             && (caller == stored.value.creator && stored.value.isPrivate ==> InRoster(stored.value, caller))) ==>
      CreatorIsEditor(Join(stored, roomId, caller, username).value.room)
  {
    var jn := Join(stored, roomId, caller, username).value;
    var r0 := if stored.Some? then stored.value else NewRoom(roomId, caller);
    var f := FindUser(r0.users, caller);
    if f.Some? {
      assert jn.room.users[f.value].id == caller;
    } else {
      assert jn.room.users[|jn.room.users| - 1].id == caller;
    }
  }

  /**
   * The creator's entry can lose `edit` on a join: a creator with no entry
   * joining its own private room again is added with `view`, because only
   * the call that creates a room counts as the creator's.
   */
  lemma JoinCreatorWithoutEntryGetsView(r: Room, username: string)
    requires r.roomId != "" && r.creator != "" && r.isPrivate && !InRoster(r, r.creator)
    ensures var j := Join(Some(r), r.roomId, r.creator, username);
      j.Some? && j.value.user.permissions == View && !CreatorIsEditor(j.value.room)
  {
    JoinNewEntry(r, r.creator, username);
    var j := Join(Some(r), r.roomId, r.creator, username).value;
    assert j.room.users[|r.users|] == j.user;
  }

  /** The entry a public-room rejoin returns keeps a stored `view`: public rooms do not force `edit`. */
  lemma PublicRejoinKeepsStoredPermission(r: Room, caller: SocketId, k: nat)
    requires r.roomId == PUBLIC && caller != "" && caller != r.creator
    requires k < |r.users| && r.users[k].id == caller && r.users[k].permissions == View && UniqueIds(r.users)
    ensures Join(Some(r), r.roomId, caller, "").value.user.permissions == View
  {
    JoinRejoin(r, caller, "", k);
  }

  // ---------------------------------------------------------------------
  // change-permissions
  // ---------------------------------------------------------------------

  /**
   * `change-permissions`: only the creator may change an entry, the
   * target must be in the roster, and the new value must be one the schema
   * admits (otherwise the save is rejected). Returns the room and, when
   * the change was stored, the permission notified to the target.
   */
  function ChangePermission(r: Room, caller: SocketId, target: SocketId, newPermission: string): (Room, Option<Permission>)
  {
    if caller != r.creator then (r, None)
    else
      match FindUser(r.users, target)
      case None => (r, None)
      case Some(j) =>
        match ParsePermission(newPermission)
        case None => (r, None)
        case Some(p) => (r.(users := r.users[j := r.users[j].(permissions := p)]), Some(p))
  }

  /**
   * A permission change takes effect exactly when the caller is the
   * creator, the target has an entry and the value is `edit` or `view`;
   * it then sets that entry's permission and nothing else.
   */
  lemma ChangePermissionEffect(r: Room, caller: SocketId, target: SocketId, newPermission: string)
    ensures var (r2, notice) := ChangePermission(r, caller, target, newPermission);
      && (notice.Some? <==> caller == r.creator && InRoster(r, target) && ParsePermission(newPermission).Some?)
      && (notice.None? ==> r2 == r)
      && (notice.Some? ==>
            && notice == ParsePermission(newPermission)
            && exists k :: (0 <= k < |r.users| && r.users[k].id == target
                 && r2 == r.(users := r.users[k := User(target, r.users[k].name, notice.value)])))
  {
    var f := FindUser(r.users, target);
    if caller == r.creator && InRoster(r, target) {
      assert f.Some? by {
        var k :| 0 <= k < |r.users| && r.users[k].id == target;
        assert r.users[k].id == target;
      }
    }
  }

  /** A permission change keeps the room well formed. */
  lemma ChangePermissionPreservesWellFormed(r: Room, caller: SocketId, target: SocketId, newPermission: string)
    requires WellFormed(r)
    ensures WellFormed(ChangePermission(r, caller, target, newPermission).0)
  {
  }

  /** The creator can take `edit` away from its own entry. */
  lemma CreatorCanDemoteSelf(r: Room, k: nat)
    requires k < |r.users| && r.users[k].id == r.creator && UniqueIds(r.users)
    ensures var r2 := ChangePermission(r, r.creator, r.creator, "view").0;
      |r2.users| == |r.users| && r2.users[k].permissions == View && !CreatorIsEditor(r2)
  {
    var f := FindUser(r.users, r.creator);
    assert f.Some? && f.value <= k;
    assert f.value == k;
    assert ParsePermission("view") == Some(View);
    var r2 := ChangePermission(r, r.creator, r.creator, "view").0;
    assert r2.users[k].id == r2.creator;
  }

  // ---------------------------------------------------------------------
  // send-message
  // ---------------------------------------------------------------------

  /**
   * `send-message`: anybody may post to a stored room, in the name of its
   * roster entry or as "Anonymous"; an empty message is rejected by the
   * schema and nothing is stored.
   */
  function SendMessage(r: Room, caller: SocketId, content: string, now: int): (Room, Option<NewMessage>)
  {
    if content == "" || caller == "" then (r, None)
    else
      var name := match FindUser(r.users, caller) case None => ANONYMOUS case Some(j) => r.users[j].name;
      var m := NewMessage(caller, name, content);
      (r.(messages := r.messages + [Stamp(m, now)]), Some(m))
  }

  /**
   * A message is appended exactly when it is non-empty (and the caller has
   * an id); it carries the caller's roster name, or "Anonymous" for a caller
   * without an entry, and nothing but the chat changes. The chat stores the
   * broadcast object stamped with the clock.
   */
  lemma SendMessageEffect(r: Room, caller: SocketId, content: string, now: int)
    ensures var (r2, m) := SendMessage(r, caller, content, now);
      && (m.Some? <==> content != "" && caller != "")
      && (m.None? ==> r2 == r)
      && (m.Some? ==>
            && r2 == r.(messages := r.messages + [Message(caller, m.value.senderName, content, now)])
            && m.value.senderId == caller && m.value.content == content
            && (!InRoster(r, caller) ==> m.value.senderName == ANONYMOUS)
            && (forall k :: 0 <= k < |r.users| && r.users[k].id == caller && UniqueIds(r.users) ==>
                  m.value.senderName == r.users[k].name))
  {
    var f := FindUser(r.users, caller);
    if f.Some? {
      assert InRoster(r, caller) by {
        assert r.users[f.value].id == caller;
      }
    }
  }

  lemma SendMessagePreservesWellFormed(r: Room, caller: SocketId, content: string, now: int)
    requires WellFormed(r)
    ensures WellFormed(SendMessage(r, caller, content, now).0)
  {
  }

  // ---------------------------------------------------------------------
  // The document: mutations, undo and redo
  // ---------------------------------------------------------------------

  /** The shape every mutation has: snapshot the strokes, install new ones, forget the redo history. */
  function Mutate(r: Room, newStrokes: seq<Drawable>): (r2: Room)
    ensures r2.undoStack == r.undoStack + [r.strokes]
    ensures r2.strokes == newStrokes && r2.redoStack == []
    ensures r2.users == r.users && r2.messages == r.messages && r2.creator == r.creator
  {
    r.(undoStack := r.undoStack + [r.strokes], strokes := newStrokes, redoStack := [])
  }

  /** `drawing` and `text`: append one drawable. */
  function Draw(r: Room, data: Drawable): Room
  {
    Mutate(r, r.strokes + [data])
  }

  /** `clear`. */
  function Clear(r: Room): Room
  {
    Mutate(r, [])
  }

  /** `updateText`: replace the first drawable with the same id; nothing happens when there is none. */
  function UpdateText(r: Room, data: Drawable): (Room, bool)
  {
    match FindById(r.strokes, IdOf(data))
    case None => (r, false)
    case Some(j) => (Mutate(r, r.strokes[j := data]), true)
  }

  /**
   * `erase-commit`: the client's own copy of the strokes before its erase
   * is pushed as the snapshot, verbatim, and its result installed.
   */
  function EraseCommit(r: Room, originalStrokes: seq<Drawable>, finalStrokes: seq<Drawable>): Room
  {
    r.(undoStack := r.undoStack + [originalStrokes], strokes := finalStrokes, redoStack := [])
  }

  /** `undo`: nothing happens on an empty undo stack. */
  function Undo(r: Room): Room
  {
    if |r.undoStack| == 0 then r
    else r.(redoStack := r.redoStack + [r.strokes],
            strokes := r.undoStack[|r.undoStack| - 1],
            undoStack := r.undoStack[..|r.undoStack| - 1])
  }

  /** `redo`: nothing happens on an empty redo stack. */
  function Redo(r: Room): Room
  {
    if |r.redoStack| == 0 then r
    else r.(undoStack := r.undoStack + [r.strokes],
            strokes := r.redoStack[|r.redoStack| - 1],
            redoStack := r.redoStack[..|r.redoStack| - 1])
  }

  /** Every document operation keeps everything but the strokes and the two stacks. */
  predicate SameExceptDocument(r: Room, r2: Room)
  {
    r2.roomId == r.roomId && r2.isPrivate == r.isPrivate && r2.creator == r.creator
    && r2.users == r.users && r2.messages == r.messages
  }

  lemma DocumentOperationsKeepTheRest(r: Room, data: Drawable, orig: seq<Drawable>, final: seq<Drawable>)
    ensures SameExceptDocument(r, Draw(r, data)) && SameExceptDocument(r, Clear(r))
    ensures SameExceptDocument(r, UpdateText(r, data).0) && SameExceptDocument(r, EraseCommit(r, orig, final))
    ensures SameExceptDocument(r, Undo(r)) && SameExceptDocument(r, Redo(r))
  {
  }

  /** `undo` then `redo` restores the room, when there was something to undo. */
  lemma RedoUndo(r: Room)
    requires |r.undoStack| > 0
    ensures Redo(Undo(r)) == r
  {
    assert r.undoStack[..|r.undoStack| - 1] + [r.undoStack[|r.undoStack| - 1]] == r.undoStack;
  }

  /** `redo` then `undo` restores the room, when there was something to redo. */
  lemma UndoRedo(r: Room)
    requires |r.redoStack| > 0
    ensures Undo(Redo(r)) == r
  {
    assert r.redoStack[..|r.redoStack| - 1] + [r.redoStack[|r.redoStack| - 1]] == r.redoStack;
  }

  /** A mutation followed by `undo` brings back the strokes and the undo stack from before it. */
  lemma UndoAfterMutation(r: Room, newStrokes: seq<Drawable>)
    ensures Undo(Mutate(r, newStrokes)).strokes == r.strokes
    ensures Undo(Mutate(r, newStrokes)).undoStack == r.undoStack
    ensures Undo(Mutate(r, newStrokes)).redoStack == [newStrokes]
  {
    assert (r.undoStack + [r.strokes])[..|r.undoStack|] == r.undoStack;
  }

  /** After an erase commit, `undo` installs the client's original strokes, whatever the server held. */
  lemma UndoAfterEraseCommit(r: Room, orig: seq<Drawable>, final: seq<Drawable>)
    ensures Undo(EraseCommit(r, orig, final)).strokes == orig
    ensures orig != r.strokes ==> Undo(EraseCommit(r, orig, final)).strokes != r.strokes
  {
  }

  /** `updateText` changes only the first drawable with the data's id, and only when there is one. */
  lemma UpdateTextEffect(r: Room, data: Drawable)
    ensures var (r2, changed) := UpdateText(r, data);
      && (changed <==> exists k :: 0 <= k < |r.strokes| && IdOf(r.strokes[k]) == IdOf(data))
      && (!changed ==> r2 == r)
      && (changed ==> exists k :: (0 <= k < |r.strokes| && IdOf(r.strokes[k]) == IdOf(data)
            && (forall i :: 0 <= i < k ==> IdOf(r.strokes[i]) != IdOf(data))
            && r2 == Mutate(r, r.strokes[k := data])))
  {
    var f := FindById(r.strokes, IdOf(data));
    if f.Some? {
      assert IdOf(r.strokes[f.value]) == IdOf(data);
    }
  }

  /** Undo and redo move snapshots between the stacks without losing any. */
  lemma UndoRedoKeepHistorySize(r: Room)
    ensures |Undo(r).undoStack| + |Undo(r).redoStack| == |r.undoStack| + |r.redoStack|
    ensures |Redo(r).undoStack| + |Redo(r).redoStack| == |r.undoStack| + |r.redoStack|
    ensures |r.undoStack| > 0 ==> |Undo(r).undoStack| == |r.undoStack| - 1
    ensures |r.redoStack| > 0 ==> |Redo(r).redoStack| == |r.redoStack| - 1
  {
  }

  function UndoN(r: Room, n: nat): Room
    decreases n
  {
    if n == 0 then r else UndoN(Undo(r), n - 1)
  }

  function RedoN(r: Room, n: nat): Room
    decreases n
  {
    if n == 0 then r else RedoN(Redo(r), n - 1)
  }

  /** Undoing `n` steps and redoing `n` steps restores the room, for `n` up to the undo depth. */
  lemma {:induction false} RedoNUndoN(r: Room, n: nat)
    requires n <= |r.undoStack|
    ensures RedoN(UndoN(r, n), n) == r
    decreases n
  {
    if n > 0 {
      var u := Undo(r);
      assert |u.undoStack| == |r.undoStack| - 1;
      RedoNUndoN(u, n - 1);
      RedoNLast(UndoN(u, n - 1), n - 1);
      RedoUndo(r);
    }
  }

  /** The last of `n` redo steps can be taken first as the inner ones. */
  lemma {:induction false} RedoNLast(r: Room, n: nat)
    ensures RedoN(r, n + 1) == Redo(RedoN(r, n))
    decreases n
  {
    if n > 0 {
      RedoNLast(Redo(r), n - 1);
    }
  }

  // ---------------------------------------------------------------------
  // The history as a timeline
  // ---------------------------------------------------------------------

  function Reverse<T>(s: seq<T>): (r: seq<T>)
    ensures |r| == |s|
  {
    if |s| == 0 then [] else [s[|s| - 1]] + Reverse(s[..|s| - 1])
  }

  /**
   * The room sits at position `k` of the timeline `h` of documents: it
   * shows `h[k]`, the undo stack holds `base` followed by the documents
   * before it, and the redo stack the ones after it, the next one on top.
   */
  predicate AtHistory(r: Room, base: seq<seq<Drawable>>, h: seq<seq<Drawable>>, k: nat)
  {
    k < |h| && r.strokes == h[k] && r.undoStack == base + h[..k] && r.redoStack == Reverse(h[k + 1..])
  }

  /** A newly created room is at the start of a one-document timeline. */
  lemma NewRoomAtHistory(roomId: RoomId, caller: SocketId)
    ensures AtHistory(NewRoom(roomId, caller), [], [[]], 0)
  {
  }

  /** `undo` steps one document back in the timeline. */
  lemma UndoStepsBack(r: Room, base: seq<seq<Drawable>>, h: seq<seq<Drawable>>, k: nat)
    requires AtHistory(r, base, h, k) && k > 0
    ensures AtHistory(Undo(r), base, h, k - 1)
  {
    assert (base + h[..k])[..|base| + k - 1] == base + h[..k - 1];
    assert h[k..] == [h[k]] + h[k + 1..];
    assert Reverse(h[k..]) == Reverse(h[k + 1..]) + [h[k]] by {
      ReverseAppend(h[k..]);
    }
  }

  /** Reversing puts the first element last. */
  lemma {:induction false} ReverseAppend<T>(s: seq<T>)
    requires |s| > 0
    ensures Reverse(s) == Reverse(s[1..]) + [s[0]]
    decreases |s|
  {
    if |s| > 1 {
      var init := s[..|s| - 1];
      ReverseAppend(init);
      var tail := s[1..];
      assert tail[..|tail| - 1] == init[1..];
      assert tail[|tail| - 1] == s[|s| - 1];
      assert Reverse(tail) == [s[|s| - 1]] + Reverse(init[1..]);
      assert Reverse(s) == [s[|s| - 1]] + Reverse(init);
    }
  }

  /** `redo` steps one document forward in the timeline. */
  lemma RedoStepsForward(r: Room, base: seq<seq<Drawable>>, h: seq<seq<Drawable>>, k: nat)
    requires AtHistory(r, base, h, k) && k + 1 < |h|
    ensures AtHistory(Redo(r), base, h, k + 1)
  {
    assert h[k + 1..] == [h[k + 1]] + h[k + 2..];
    ReverseAppend(h[k + 1..]);
    assert h[k + 1..][1..] == h[k + 2..];
    assert h[..k + 1] == h[..k] + [h[k]];
  }

  /**
   * A mutation cuts the timeline after the current document and appends
   * the new one: the redo history is gone and the room is at its end.
   */
  lemma MutationTruncates(r: Room, base: seq<seq<Drawable>>, h: seq<seq<Drawable>>, k: nat, newStrokes: seq<Drawable>)
    requires AtHistory(r, base, h, k)
    ensures AtHistory(Mutate(r, newStrokes), base, h[..k + 1] + [newStrokes], k + 1)
  {
    var h2 := h[..k + 1] + [newStrokes];
    assert h2[..k + 1] == h[..k] + [h[k]];
    assert h2[k + 2..] == [];
  }

  /** An erase commit is such a mutation when the client's original strokes are the server's. */
  lemma EraseCommitTruncates(r: Room, base: seq<seq<Drawable>>, h: seq<seq<Drawable>>, k: nat, orig: seq<Drawable>, final: seq<Drawable>)
    requires AtHistory(r, base, h, k) && orig == r.strokes
    ensures AtHistory(EraseCommit(r, orig, final), base, h[..k + 1] + [final], k + 1)
  {
    MutationTruncates(r, base, h, k, final);
  }

  // ---------------------------------------------------------------------
  // disconnect
  // ---------------------------------------------------------------------

  function RemoveUser(users: seq<User>, id: SocketId): (us: seq<User>)
    ensures |us| <= |users|
  {
    if |users| == 0 then []
    else RemoveUser(users[..|users| - 1], id) + (if users[|users| - 1].id == id then [] else [users[|users| - 1]])
  }

  /** The caller leaves one room: its entries go, and the public room forgets its chat once empty. */
  function Leave(r: Room, caller: SocketId): Room
  {
    var r1 := r.(users := RemoveUser(r.users, caller));
    if r1.roomId == PUBLIC && |r1.users| == 0 then r1.(messages := []) else r1
  }

  /** Removing an id keeps every other entry, and only those. */
  lemma {:induction false} RemoveUserSound(users: seq<User>, id: SocketId)
    ensures forall j :: 0 <= j < |RemoveUser(users, id)| ==> RemoveUser(users, id)[j].id != id
    ensures forall u :: u in RemoveUser(users, id) <==> u in users && u.id != id
  {
    if |users| > 0 {
      var init := users[..|users| - 1];
      var last := users[|users| - 1];
      RemoveUserSound(init, id);
      assert users == init + [last];
      assert RemoveUser(users, id) == RemoveUser(init, id) + (if last.id == id then [] else [last]);
    }
  }

  /** The filter works entry by entry: the kept entries of `a + b` are those of `a`, then those of `b`, in order. */
  lemma {:induction false} RemoveUserAppend(a: seq<User>, b: seq<User>, id: SocketId)
    ensures RemoveUser(a + b, id) == RemoveUser(a, id) + RemoveUser(b, id)
    decreases |b|
  {
    if |b| == 0 {
      assert a + b == a;
    } else {
      var init := b[..|b| - 1];
      assert (a + b)[..|a + b| - 1] == a + init;
      assert (a + b)[|a + b| - 1] == b[|b| - 1];
      RemoveUserAppend(a, init, id);
    }
  }

  /** A single entry is kept exactly when it belongs to another connection. */
  lemma RemoveUserOne(u: User, id: SocketId)
    ensures RemoveUser([u], id) == if u.id == id then [] else [u]
  {
    assert [u][..0] == [];
  }

  /** Removing an id no entry carries changes nothing. */
  lemma {:induction false} RemoveAbsentUser(users: seq<User>, id: SocketId)
    requires forall j :: 0 <= j < |users| ==> users[j].id != id
    ensures RemoveUser(users, id) == users
  {
    if |users| > 0 {
      var init := users[..|users| - 1];
      RemoveAbsentUser(init, id);
      assert users == init + [users[|users| - 1]];
    }
  }

  /** Appending an entry whose id is new keeps the ids unique. */
  lemma UniqueSnoc(users: seq<User>, u: User)
    requires UniqueIds(users)
    requires forall i :: 0 <= i < |users| ==> users[i].id != u.id
    ensures UniqueIds(users + [u])
  {
  }

  /** Removing an id keeps the roster without duplicates. */
  lemma {:induction false} RemoveUserUnique(users: seq<User>, id: SocketId)
    requires UniqueIds(users)
    ensures UniqueIds(RemoveUser(users, id))
  {
    if |users| > 0 {
      var init := users[..|users| - 1];
      var last := users[|users| - 1];
      assert UniqueIds(init);
      RemoveUserUnique(init, id);
      RemoveUserSound(init, id);
      var rest := RemoveUser(init, id);
      if last.id != id {
        forall i | 0 <= i < |rest|
          ensures rest[i].id != last.id
        {
          assert rest[i] in init;
          var m :| 0 <= m < |init| && init[m] == rest[i];
          assert users[m] == rest[i];
        }
        UniqueSnoc(rest, last);
      }
    }
  }

  /**
   * After leaving, the caller has no entry, every other entry is kept, the
   * document is untouched, and the public room's chat is empty if nobody is
   * left.
   */
  lemma LeaveEffect(r: Room, caller: SocketId)
    ensures var r2 := Leave(r, caller);
      && !InRoster(r2, caller)
      && (forall u :: u in r2.users <==> u in r.users && u.id != caller)
      && r2.strokes == r.strokes && r2.undoStack == r.undoStack && r2.redoStack == r.redoStack
      && r2.creator == r.creator && r2.roomId == r.roomId && r2.isPrivate == r.isPrivate
      && r2.messages == (if r.roomId == PUBLIC && |r2.users| == 0 then [] else r.messages)
  {
    RemoveUserSound(r.users, caller);
  }

  lemma LeavePreservesWellFormed(r: Room, caller: SocketId)
    requires WellFormed(r)
    ensures WellFormed(Leave(r, caller))
    ensures CreatorIsEditor(r) ==> CreatorIsEditor(Leave(r, caller))
  {
    RemoveUserUnique(r.users, caller);
    RemoveUserSound(r.users, caller);
    var us := RemoveUser(r.users, caller);
    forall j | 0 <= j < |us|
      ensures us[j].id != "" && (CreatorIsEditor(r) && us[j].id == r.creator ==> us[j].permissions == Edit)
    {
      assert us[j] in r.users;
    }
  }

  /** Document operations keep the room well formed and the creator an editor. */
  lemma DocumentOperationsPreserveWellFormed(r: Room, data: Drawable, orig: seq<Drawable>, final: seq<Drawable>)
    requires WellFormed(r) && CreatorIsEditor(r)
    ensures WellFormed(Draw(r, data)) && CreatorIsEditor(Draw(r, data))
    ensures WellFormed(Clear(r)) && CreatorIsEditor(Clear(r))
    ensures WellFormed(UpdateText(r, data).0) && CreatorIsEditor(UpdateText(r, data).0)
    ensures WellFormed(EraseCommit(r, orig, final)) && CreatorIsEditor(EraseCommit(r, orig, final))
    ensures WellFormed(Undo(r)) && CreatorIsEditor(Undo(r))
    ensures WellFormed(Redo(r)) && CreatorIsEditor(Redo(r))
  {
    DocumentOperationsKeepTheRest(r, data, orig, final);
  }
}
