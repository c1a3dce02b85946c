/**
 * The whiteboard server's socket handlers over the store of rooms. Most
 * handlers read one stored room and write it back; `live-erase` only reads,
 * and `disconnect` rewrites every room that holds the caller. What the
 * server emits to the room is returned instead of sent.
 */
module Server {
  import opened Wrappers
  import opened Drawables
  import opened Rooms

  /** The `room-joined` payload sent back to the caller. */
  datatype RoomJoined = RoomJoined(
    roomId: RoomId, strokes: seq<Drawable>, permissions: Permission,
    messages: seq<Message>, users: seq<User>, creatorId: SocketId)

  /** The stored room a caller's `disconnect` leaves, or the room unchanged when the caller is not in it. */
  function DisconnectFrom(r: Room, caller: SocketId): Room
  {
    if InRoster(r, caller) then Leave(r, caller) else r
  }

  /** Every stored room after `disconnect`. */
  function DisconnectAll(rooms: map<RoomId, Room>, caller: SocketId): map<RoomId, Room>
  {
    map id | id in rooms :: DisconnectFrom(rooms[id], caller)
  }

  /** The rooms `disconnect` notifies: those whose roster held the caller. */
  function RoomsOf(rooms: map<RoomId, Room>, caller: SocketId): set<RoomId>
  {
    set id | id in rooms && InRoster(rooms[id], caller)
  }

  /** After a disconnect the caller is in no roster, and only the rooms that held it changed. */
  lemma DisconnectAllEffect(rooms: map<RoomId, Room>, caller: SocketId)
    ensures DisconnectAll(rooms, caller).Keys == rooms.Keys
    ensures forall id :: id in rooms ==> !InRoster(DisconnectAll(rooms, caller)[id], caller)
    ensures forall id :: id in rooms && id !in RoomsOf(rooms, caller) ==> DisconnectAll(rooms, caller)[id] == rooms[id]
  {
    forall id | id in rooms
      ensures !InRoster(DisconnectAll(rooms, caller)[id], caller)
    {
      LeaveEffect(rooms[id], caller);
    }
  }

  /** Every room is keyed by its own id and passed the schema's validators. */
  ghost predicate ValidRooms(rooms: map<RoomId, Room>)
  {
    forall id :: id in rooms ==> rooms[id].roomId == id && WellFormed(rooms[id])
  }

  /**
   * In a store of valid rooms the stored public room is never private, so a
   * connection joining it without an entry is added with `edit`.
   */
  lemma PublicNewcomerEdits(rooms: map<RoomId, Room>, caller: SocketId, username: string)
    requires ValidRooms(rooms) && PUBLIC in rooms
    requires caller != "" && !InRoster(rooms[PUBLIC], caller)
    ensures !rooms[PUBLIC].isPrivate
    ensures var j := Join(Some(rooms[PUBLIC]), PUBLIC, caller, username);
      j.Some? && j.value.user.permissions == Edit && j.value.user.id == caller
  {
    JoinNewEntry(rooms[PUBLIC], caller, username);
  }

  class RoomServer {
    /** The stored rooms, by room id. */
    var rooms: map<RoomId, Room>

    /** Every stored room is keyed by its own id, passed the schema's validators and has one entry per connection. */
    ghost predicate Valid()
      reads this
    {
      ValidRooms(rooms)
    }

    constructor ()
      ensures rooms == map[] && Valid()
    {
      rooms := map[];
    }

    /**
     * `join-room`: create the room if needed, add or refresh the caller's
     * entry, store the room, and answer with the room snapshot (the public
     * room's chat is never sent). A rejected save answers `false` and
     * stores nothing.
     */
    method JoinRoom(caller: SocketId, roomId: RoomId, username: string) returns (ack: bool, joined: Option<RoomJoined>)
      requires Valid()
      modifies this
      ensures Valid()
      ensures var j := Join(if roomId in old(rooms) then Some(old(rooms)[roomId]) else None, roomId, caller, username);
        && (ack <==> j.Some?)
        && (j.None? ==> rooms == old(rooms) && joined.None?)
        && (j.Some? ==>
              && rooms == old(rooms)[roomId := j.value.room] && joined.Some?
              && joined.value.roomId == roomId
              && joined.value.users == j.value.room.users
              && joined.value.creatorId == j.value.room.creator
              && joined.value.permissions == j.value.user.permissions
              && joined.value.strokes == j.value.room.strokes
              && joined.value.messages == (if roomId == PUBLIC then [] else j.value.room.messages))
    {
      var stored := if roomId in rooms then Some(rooms[roomId]) else None;
      var j := Join(stored, roomId, caller, username);
      if j.None? {
        return false, None;
      }
      JoinPreservesWellFormed(stored, roomId, caller, username);
      var room := j.value.room;
      rooms := rooms[roomId := room];
      ack := true;
      joined := Some(RoomJoined(room.roomId, room.strokes, j.value.user.permissions,
        if room.roomId == PUBLIC then [] else room.messages, room.users, room.creator));
    }

    /**
     * `change-permissions`: the creator sets a roster entry's permission;
     * the target is notified of its new permission when the change is stored.
     */
    method ChangePermissions(caller: SocketId, roomId: RoomId, target: SocketId, newPermission: string) returns (notice: Option<Permission>)
      requires Valid()
      modifies this
      ensures Valid()
      ensures roomId !in old(rooms) ==> rooms == old(rooms) && notice.None?
      ensures roomId in old(rooms) ==>
        var (r2, n) := ChangePermission(old(rooms)[roomId], caller, target, newPermission);
        rooms == old(rooms)[roomId := r2] && notice == n
    {
      if roomId !in rooms {
        return None;
      }
      var room := rooms[roomId];
      ChangePermissionPreservesWellFormed(room, caller, target, newPermission);
      var (r2, n) := ChangePermission(room, caller, target, newPermission);
      rooms := rooms[roomId := r2];
      notice := n;
    }

    /** `live-erase`: an editor's eraser position is relayed to the room as is; nothing is stored. */
    method LiveErase(caller: SocketId, roomId: RoomId) returns (relayed: bool)
      ensures relayed <==> (
        && roomId in rooms
        && exists j :: 0 <= j < |rooms[roomId].users| && rooms[roomId].users[j].id == caller
             && rooms[roomId].users[j].permissions == Edit
             && forall i :: 0 <= i < j ==> rooms[roomId].users[i].id != caller)
    {
      relayed := HasEditPermission(rooms, caller, roomId);
      EditPermissionIff(rooms, caller, roomId);
    }

    /** `send-message`: store and broadcast a chat message in a stored room. */
    method SendMessage(caller: SocketId, roomId: RoomId, content: string, now: int) returns (broadcast: Option<NewMessage>)
      requires Valid()
      modifies this
      ensures Valid()
      ensures roomId !in old(rooms) ==> rooms == old(rooms) && broadcast.None?
      ensures roomId in old(rooms) ==>
        var (r2, m) := Rooms.SendMessage(old(rooms)[roomId], caller, content, now);
        rooms == old(rooms)[roomId := r2] && broadcast == m
    {
      if roomId !in rooms {
        return None;
      }
      var room := rooms[roomId];
      SendMessagePreservesWellFormed(room, caller, content, now);
      var (r2, m) := Rooms.SendMessage(room, caller, content, now);
      rooms := rooms[roomId := r2];
      broadcast := m;
    }

    /** `drawing`: an editor appends a drawable; the new stroke list is broadcast. */
    method Drawing(caller: SocketId, roomId: RoomId, data: Drawable) returns (broadcast: Option<seq<Drawable>>)
      requires Valid()
      modifies this
      ensures Valid()
      ensures !HasEditPermission(old(rooms), caller, roomId) ==> rooms == old(rooms) && broadcast.None?
      ensures HasEditPermission(old(rooms), caller, roomId) ==>
        rooms == old(rooms)[roomId := Draw(old(rooms)[roomId], data)] && broadcast == Some(rooms[roomId].strokes)
    {
      if !HasEditPermission(rooms, caller, roomId) {
        return None;
      }
      var room := rooms[roomId];
      DocumentOperationsKeepTheRest(room, data, [], []);
      room := room.(undoStack := room.undoStack + [room.strokes]);
      room := room.(strokes := room.strokes + [data]);
      room := room.(redoStack := []);
      rooms := rooms[roomId := room];
      broadcast := Some(room.strokes);
    }

    /** `text`: the same as `drawing`, for a text drawable. */
    method Text(caller: SocketId, roomId: RoomId, data: Drawable) returns (broadcast: Option<seq<Drawable>>)
      requires Valid()
      modifies this
      ensures Valid()
      ensures !HasEditPermission(old(rooms), caller, roomId) ==> rooms == old(rooms) && broadcast.None?
      ensures HasEditPermission(old(rooms), caller, roomId) ==>
        rooms == old(rooms)[roomId := Draw(old(rooms)[roomId], data)] && broadcast == Some(rooms[roomId].strokes)
    {
      broadcast := Drawing(caller, roomId, data);
    }

    /** `clear`: an editor empties the stroke list, keeping the old one as a snapshot. */
    method Clear(caller: SocketId, roomId: RoomId) returns (broadcast: Option<seq<Drawable>>)
      requires Valid()
      modifies this
      ensures Valid()
      ensures !HasEditPermission(old(rooms), caller, roomId) ==> rooms == old(rooms) && broadcast.None?
      ensures HasEditPermission(old(rooms), caller, roomId) ==>
        rooms == old(rooms)[roomId := Rooms.Clear(old(rooms)[roomId])] && broadcast == Some([])
    {
      if !HasEditPermission(rooms, caller, roomId) {
        return None;
      }
      var room := rooms[roomId];
      room := room.(undoStack := room.undoStack + [room.strokes]);
      room := room.(strokes := []);
      room := room.(redoStack := []);
      rooms := rooms[roomId := room];
      broadcast := Some(room.strokes);
    }

    /** `undo`: an editor steps back one snapshot; nothing happens, and nothing is sent, on an empty undo stack. */
    method Undo(caller: SocketId, roomId: RoomId) returns (broadcast: Option<seq<Drawable>>)
      requires Valid()
      modifies this
      ensures Valid()
      ensures !HasEditPermission(old(rooms), caller, roomId) || |old(rooms)[roomId].undoStack| == 0 ==>
        rooms == old(rooms) && broadcast.None?
      ensures HasEditPermission(old(rooms), caller, roomId) && |old(rooms)[roomId].undoStack| > 0 ==>
        rooms == old(rooms)[roomId := Rooms.Undo(old(rooms)[roomId])] && broadcast == Some(rooms[roomId].strokes)
    {
      if !HasEditPermission(rooms, caller, roomId) {
        return None;
      }
      var room := rooms[roomId];
      if |room.undoStack| == 0 {
        return None;
      }
      var currentStrokes := room.strokes;
      room := room.(redoStack := room.redoStack + [currentStrokes]);
      var previousStrokes := room.undoStack[|room.undoStack| - 1];
      room := room.(undoStack := room.undoStack[..|room.undoStack| - 1]);
      room := room.(strokes := previousStrokes);
      rooms := rooms[roomId := room];
      broadcast := Some(room.strokes);
    }

    /** `redo`: an editor steps forward one snapshot; nothing happens, and nothing is sent, on an empty redo stack. */
    method Redo(caller: SocketId, roomId: RoomId) returns (broadcast: Option<seq<Drawable>>)
      requires Valid()
      modifies this
      ensures Valid()
      ensures !HasEditPermission(old(rooms), caller, roomId) || |old(rooms)[roomId].redoStack| == 0 ==>
        rooms == old(rooms) && broadcast.None?
      ensures HasEditPermission(old(rooms), caller, roomId) && |old(rooms)[roomId].redoStack| > 0 ==>
        rooms == old(rooms)[roomId := Rooms.Redo(old(rooms)[roomId])] && broadcast == Some(rooms[roomId].strokes)
    {
      if !HasEditPermission(rooms, caller, roomId) {
        return None;
      }
      var room := rooms[roomId];
      if |room.redoStack| == 0 {
        return None;
      }
      var currentStrokes := room.strokes;
      room := room.(undoStack := room.undoStack + [currentStrokes]);
      var nextStrokes := room.redoStack[|room.redoStack| - 1];
      room := room.(redoStack := room.redoStack[..|room.redoStack| - 1]);
      room := room.(strokes := nextStrokes);
      rooms := rooms[roomId := room];
      broadcast := Some(room.strokes);
    }

    /** `erase-commit`: an editor installs the result of an erase, with the client's original strokes as the snapshot. */
    method EraseCommit(caller: SocketId, roomId: RoomId, originalStrokes: seq<Drawable>, finalStrokes: seq<Drawable>)
      returns (broadcast: Option<seq<Drawable>>)
      requires Valid()
      modifies this
      ensures Valid()
      ensures !HasEditPermission(old(rooms), caller, roomId) ==> rooms == old(rooms) && broadcast.None?
      ensures HasEditPermission(old(rooms), caller, roomId) ==>
        rooms == old(rooms)[roomId := Rooms.EraseCommit(old(rooms)[roomId], originalStrokes, finalStrokes)]
        && broadcast == Some(finalStrokes)
    {
      if !HasEditPermission(rooms, caller, roomId) {
        return None;
      }
      var room := rooms[roomId];
      room := room.(undoStack := room.undoStack + [originalStrokes]);
      room := room.(strokes := finalStrokes);
      room := room.(redoStack := []);
      rooms := rooms[roomId := room];
      broadcast := Some(room.strokes);
    }

    /**
     * `updateText`: an editor replaces the first drawable with the data's
     * id; nothing happens, and nothing is sent, when no drawable has it.
     */
    method UpdateText(caller: SocketId, roomId: RoomId, data: Drawable) returns (broadcast: Option<seq<Drawable>>)
      requires Valid()
      modifies this
      ensures Valid()
      ensures !HasEditPermission(old(rooms), caller, roomId) ==> rooms == old(rooms) && broadcast.None?
      ensures HasEditPermission(old(rooms), caller, roomId) ==>
        var (r2, changed) := Rooms.UpdateText(old(rooms)[roomId], data);
        rooms == old(rooms)[roomId := r2] && broadcast == (if changed then Some(r2.strokes) else None)
    {
      if !HasEditPermission(rooms, caller, roomId) {
        return None;
      }
      var room := rooms[roomId];
      var originalStrokes := room.strokes;
      var strokeIndex := FindById(room.strokes, IdOf(data));
      if strokeIndex.None? {
        return None;
      }
      room := room.(undoStack := room.undoStack + [originalStrokes]);
      room := room.(strokes := room.strokes[strokeIndex.value := data]);
      room := room.(redoStack := []);
      rooms := rooms[roomId := room];
      broadcast := Some(room.strokes);
    }

    /**
     * `disconnect`: leave every room whose roster holds the caller; each of
     * them is notified of its new roster.
     */
    method Disconnect(caller: SocketId) returns (notified: set<RoomId>)
      requires Valid()
      modifies this
      ensures Valid()
      ensures rooms == DisconnectAll(old(rooms), caller)
      ensures notified == RoomsOf(old(rooms), caller)
    {
      var after;
      after, notified := LeaveAll(rooms, caller);
      DisconnectAllValid(rooms, caller);
      rooms := after;
    }
  }

  /** The loop of `disconnect`: leave, one by one, every room whose roster holds the caller. */
  method LeaveAll(rooms: map<RoomId, Room>, caller: SocketId) returns (after: map<RoomId, Room>, notified: set<RoomId>)
    ensures after == DisconnectAll(rooms, caller)
    ensures notified == RoomsOf(rooms, caller)
  {
    var pending := RoomsOf(rooms, caller);
    var current := rooms;
    notified := {};
    while pending != {}
      invariant pending !! notified && pending + notified == RoomsOf(rooms, caller)
      invariant Progress(rooms, current, notified, caller)
      decreases pending
    {
      var id :| id in pending;
      DisconnectStep(rooms, current, notified, id, caller);
      current := current[id := Leave(current[id], caller)];
      pending := pending - {id};
      notified := notified + {id};
    }
    DisconnectDone(rooms, current, caller);
    after := current;
  }

  /** The rooms in `done` have been left, and the others are as they were. */
  ghost predicate Progress(before: map<RoomId, Room>, rooms: map<RoomId, Room>, done: set<RoomId>, caller: SocketId)
  {
    rooms.Keys == before.Keys
    && forall id :: id in rooms ==> rooms[id] == (if id in done then Leave(before[id], caller) else before[id])
  }

  lemma DisconnectStep(before: map<RoomId, Room>, rooms: map<RoomId, Room>, done: set<RoomId>, id: RoomId, caller: SocketId)
    requires Progress(before, rooms, done, caller)
    requires id in rooms && id !in done
    ensures Progress(before, rooms[id := Leave(rooms[id], caller)], done + {id}, caller)
  {
  }

  /** Leaving rooms keeps every stored room valid. */
  lemma DisconnectAllValid(rooms: map<RoomId, Room>, caller: SocketId)
    requires ValidRooms(rooms)
    ensures ValidRooms(DisconnectAll(rooms, caller))
  {
    forall id | id in rooms
      ensures DisconnectAll(rooms, caller)[id].roomId == id && WellFormed(DisconnectAll(rooms, caller)[id])
    {
      LeavePreservesWellFormed(rooms[id], caller);
    }
  }

  lemma DisconnectDone(before: map<RoomId, Room>, rooms: map<RoomId, Room>, caller: SocketId)
    requires Progress(before, rooms, RoomsOf(before, caller), caller)
    ensures rooms == DisconnectAll(before, caller)
  {
    var after := DisconnectAll(before, caller);
    assert rooms.Keys == after.Keys;
    forall id | id in rooms
      ensures rooms[id] == after[id]
    {
    }
  }

  /** A caller with no entry in a room, or a room that is not stored, never passes the edit gate. */
  lemma NoEntryNoEdit(rooms: map<RoomId, Room>, caller: SocketId, roomId: RoomId)
    requires roomId !in rooms || !InRoster(rooms[roomId], caller)
    ensures !HasEditPermission(rooms, caller, roomId)
  {
  }
}
