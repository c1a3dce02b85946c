# Collaborative whiteboard: rooms and the eraser, in Dafny

This project models the two halves of a real-time collaborative whiteboard.

- **The server's room store** (`server/index.js`). A room is a stored record:
  - a roster of connections with `edit` or `view` permission;
  - a stroke list with undo and redo stacks of whole snapshots;
  - a chat.

  The socket handlers are `join-room`, `change-permissions`, `live-erase`, `send-message`, `drawing`, `text`, `clear`, `undo`, `redo`, `erase-commit`, `updateText` and `disconnect`. Most of them read one stored room and save it back. `live-erase` only reads a room and relays the eraser position. `disconnect` rewrites every room whose roster holds the caller, and saves the public room a second time when it empties. The document handlers and `live-erase` are gated by `hasEditPermission`.
- **The client's eraser** (`client/src/components/Whiteboard.jsx`).
  - `pointToSegmentDistance` and the hit test built on it.
  - The decomposition of rectangles and ellipses into segments.
  - `splitStrokeByEraser`, which cuts a stroke at every touched segment.
  - `handleErase`, one pass over the canvas for one eraser position. It drops touched lines, replaces touched strokes and shapes by the freehand pieces that survive, and keeps text.

Modules:

- `Wrappers`: `Option`.
- `Drawables`: segments and the five kinds of drawable.
- `Geometry`: distances, the hit test, the rectangle and ellipse outlines.
- `Eraser`: splitting, erasing one drawable, the canvas pass, and the `Canvas` class whose `strokes` field `handleErase` overwrites.
- `Rooms`: the room record and each handler as a function on it. Also the undo/redo timeline and well-formedness.
- `Server`: the `RoomServer` class, whose map of stored rooms each handler method updates.

The server does not enforce everything its own client assumes:

- The client lets everybody edit in the public room (`client/src/App.jsx:67-69`, `client/src/components/Whiteboard.jsx:104-105`). The server keeps a stored `view` when a connection rejoins the public room (`server/index.js:91-107`), and its edit gate reads that entry.
- The creator can set its own entry to `view` through `change-permissions` (`server/index.js:141-163`). A join puts `edit` back only on an entry the creator still has.
- A creator whose entry is gone is added back to its own private room with `view`. This is because only the call that creates a room counts as the creator's.

Hit test on squared distances: the eraser touches a segment when `pointToSegmentDistance(...) < radius`. The model states this without square roots, as `0 < radius && d² < radius²`. This is equivalent, because the distance is never negative.

## Model

| member | source | states |
|---|---|---|
| Geometry.ProjectionParam | client/src/components/Whiteboard.jsx:14 | the clamped projection parameter lies in [0, 1] |
| Geometry.PointToSegmentDistSq | client/src/components/Whiteboard.jsx:8-18 | the squared distance is non-negative, and for a zero-length segment it is the squared distance to its start point |
| Geometry.Hit | client/src/components/Whiteboard.jsx:26-28 | the `< radius` test on `pointToSegmentDistance`, on squared distances; no contract of its own; the concrete hits and misses are ExampleFirstMissed and ExampleSecondHit |
| Geometry.DistanceIsAttained | client/src/components/Whiteboard.jsx:14-17 | the distance is the distance to some point of the segment (parameter in [0, 1]) |
| Geometry.FracWhole | client/src/components/Whiteboard.jsx:53-54 | `i / steps` is 0 at the first step and 1 after the last |
| Geometry.RectEdge | client/src/components/Whiteboard.jsx:49-73 | each edge of the outline has `steps` segments |
| Geometry.RectOutline | client/src/components/Whiteboard.jsx:49-73 | the four edges of `rectToSegments` in order; no contract of its own; characterised by RectToSegments, RectOutlineAt, RectOutlineClosed and RectOutlineOnSides |
| Geometry.RectToSegments | client/src/components/Whiteboard.jsx:49-73 | the four loops produce the outline, `4 * steps` segments, each in the rectangle's colour and width |
| Geometry.EdgeOf | client/src/components/Whiteboard.jsx:49-73 | segment `k` of the outline is segment `i < steps` of edge `e < 4` |
| Geometry.RectOutlineAt | client/src/components/Whiteboard.jsx:49-73 | segment `k` of the outline is the one the loop for its edge pushes at its step |
| Geometry.RectEdgeContinues | client/src/components/Whiteboard.jsx:49-73 | within an edge each segment starts where the previous one ends |
| Geometry.RectCornerMeets | client/src/components/Whiteboard.jsx:49-73 | each edge starts at the corner where the previous edge ends |
| Geometry.RectOutlineClosed | client/src/components/Whiteboard.jsx:49-73 | the outline is a closed chain: consecutive segments meet, and the last ends where the first starts |
| Geometry.RectOutlineOnSides | client/src/components/Whiteboard.jsx:49-73 | the first `steps` segments lie on the top side, the next on the right, then the bottom, then the left |
| Geometry.CircleOutline | client/src/components/Whiteboard.jsx:75-89 | the chords of `circleToSegments`; no contract of its own; characterised by CircleToSegments |
| Geometry.CircleToSegments | client/src/components/Whiteboard.jsx:75-89 | the loop with its `prev` point yields `steps` segments; segment `k` runs from sample point `k` to sample point `k + 1`, each starts where the previous one ends, and each carries the ellipse's colour and width |
| Eraser.Unhit | client/src/components/Whiteboard.jsx:25-35 | the segments the split keeps are never more than the stroke's |
| Eraser.UnhitNotHit | client/src/components/Whiteboard.jsx:25-35 | no segment kept by the split is touched by the eraser |
| Eraser.UnhitAll | client/src/components/Whiteboard.jsx:25-35 | with nothing touched, the untouched segments are the whole stroke |
| Eraser.UnhitShorter | client/src/components/Whiteboard.jsx:25-35 | with some segment touched, fewer segments survive |
| Eraser.SplitStateSound | client/src/components/Whiteboard.jsx:25-38 | the finished sub-strokes are non-empty, and finished plus current laid end to end are the untouched segments |
| Eraser.RunsSound | client/src/components/Whiteboard.jsx:25-41 | the sub-strokes are non-empty and laid end to end are the untouched segments |
| Eraser.RunsCut | client/src/components/Whiteboard.jsx:28-32 | a touched segment is a cut point: the sub-strokes of `a + [s] + b` are those of `a` followed by those of `b` |
| Eraser.SplitStateFrom | client/src/components/Whiteboard.jsx:25-35 | once no sub-stroke is being collected after a prefix, the rest of the stroke adds its own sub-strokes after the prefix's |
| Eraser.NoHitOneRun | client/src/components/Whiteboard.jsx:25-38 | a non-empty stroke with nothing touched is one sub-stroke, the stroke itself |
| Eraser.NoHitNoCut | client/src/components/Whiteboard.jsx:25-35 | with nothing touched, no sub-stroke is closed |
| Eraser.RestyleAllShape | client/src/components/Whiteboard.jsx:41-46 | restyling keeps the geometry of every segment, in order |
| Eraser.RestyleAllAt | client/src/components/Whiteboard.jsx:41-46 | piece `k` after restyling is sub-stroke `k` restyled: the `map` keeps the order of the pieces |
| Eraser.RestyleGeom | client/src/components/Whiteboard.jsx:42 | restyling a segment keeps its coordinates |
| Eraser.Split | client/src/components/Whiteboard.jsx:20-47 | `splitStrokeByEraser`; no contract of its own; characterised by SplitSound, SplitEmpty, SplitNoHit, SplitShorter and computed by SplitStrokeByEraser |
| Eraser.SplitEmpty | client/src/components/Whiteboard.jsx:23 | an empty stroke splits into no pieces |
| Eraser.SplitSound | client/src/components/Whiteboard.jsx:20-47 | every piece is non-empty with a round first cap; no segment of a piece is touched; every segment carries the given colour and width; the pieces laid end to end have the geometry of the untouched segments, in order |
| Eraser.SplitNoHit | client/src/components/Whiteboard.jsx:20-47 | with nothing touched, a non-empty stroke comes back as one piece of its own length |
| Eraser.SplitShorter | client/src/components/Whiteboard.jsx:20-47 | with a segment touched, the pieces hold fewer segments than the stroke |
| Eraser.SplitStrokeByEraser | client/src/components/Whiteboard.jsx:20-47 | the loop computes the split: [] for an empty stroke, non-empty pieces, none of them touched, and the geometry of the untouched segments in order |
| Eraser.EraseStyle | client/src/components/Whiteboard.jsx:208 | the corrected style rule: a shape gives its own colour and width; a freehand stroke gives its first segment's |
| Eraser.EraseStyleAsWritten | client/src/components/Whiteboard.jsx:208 | as written: a shape gives its own colour and width, and a freehand stroke gives none |
| Eraser.EraseOne | client/src/components/Whiteboard.jsx:177-220 | the `forEach` body for one drawable under a style rule; no contract of its own; characterised by TextKept, LineErasedIffHit, ShapeErasedIff, UnerasedKept and EraseOneOutputsClean |
| Eraser.TextKept | client/src/components/Whiteboard.jsx:202-205 | text (and anything that is not a stroke, rectangle, ellipse or line) is kept and not erased |
| Eraser.LineErasedIffHit | client/src/components/Whiteboard.jsx:183-201 | a line is erased exactly when the eraser touches its segment: then it is dropped, otherwise kept as is |
| Eraser.ShapeErasedIff | client/src/components/Whiteboard.jsx:177-220 | a stroke, rectangle or ellipse is erased exactly when its outline is empty or the eraser touches one of its segments; otherwise it is kept as is |
| Eraser.EraseOneOutputsClean | client/src/components/Whiteboard.jsx:208-220 | what erasing one drawable leaves behind is not erased by the same eraser again |
| Eraser.UnerasedKept | client/src/components/Whiteboard.jsx:218-220 | a drawable that is not erased is pushed unchanged |
| Eraser.EraseAll | client/src/components/Whiteboard.jsx:168-221 | the new stroke list `handleErase` builds; no contract of its own; characterised by EraseAllSnoc, EraseAllAppend, NotErasedUnchanged, EraseIdempotent, TextsPreserved and LinesAfterErase |
| Eraser.AnyErased | client/src/components/Whiteboard.jsx:168-227 | the `somethingErased` flag; no contract of its own; characterised by AnyErasedIff and EraseAllSnoc |
| Eraser.EraseAllSnoc | client/src/components/Whiteboard.jsx:168-221 | the pass over a list is the pass over all but the last drawable followed by the last one's contribution; something was erased iff so before or in the last |
| Eraser.AnyStepIff | client/src/components/Whiteboard.jsx:168-221 | for any per-drawable step, the pass erased something iff some drawable's step did |
| Eraser.PassAppend | client/src/components/Whiteboard.jsx:168-221 | a pass over `a + b` is the pass over `a` followed by the pass over `b` |
| Eraser.AnyStepAppend | client/src/components/Whiteboard.jsx:168-221 | something in `a + b` was erased iff something in `a` or in `b` was |
| Eraser.PassUnchanged | client/src/components/Whiteboard.jsx:168-221 | when no step erases and unerased drawables are kept, the pass returns its input |
| Eraser.PassIdempotent | client/src/components/Whiteboard.jsx:168-221 | when a step's outputs are never erased again, a second pass erases nothing and changes nothing |
| Eraser.AnyErasedIff | client/src/components/Whiteboard.jsx:168-227 | `somethingErased` holds iff some drawable was erased |
| Eraser.EraseAllAppend | client/src/components/Whiteboard.jsx:168-221 | erasing a concatenation erases each part, and something was erased iff it was in one of the parts |
| Eraser.NotErasedUnchanged | client/src/components/Whiteboard.jsx:168-227 | when nothing is erased the new stroke list equals the old one |
| Eraser.EraseIdempotent | client/src/components/Whiteboard.jsx:168-227 | erasing again at the same position erases nothing and changes nothing |
| Eraser.TextsPreserved | client/src/components/Whiteboard.jsx:202-205 | the text drawables survive the pass unchanged and in order |
| Eraser.LinesAfterErase | client/src/components/Whiteboard.jsx:183-201 | the lines after the pass are exactly the lines the eraser does not touch, in order |
| Eraser.FreehandKeepsStyle | client/src/components/Whiteboard.jsx:208-216 | (corrected) a freehand stroke drawn in one colour and width is split into freehand pieces in that colour and width |
| Eraser.FreehandStyleLostAsWritten | client/src/components/Whiteboard.jsx:208-216 | (as written) a two-segment stroke whose second segment is touched is erased and replaced by one freehand piece with no colour and no width |
| Eraser.FreehandStyleKeptCorrected | client/src/components/Whiteboard.jsx:208-216 | (corrected) the same stroke comes back erased as one piece keeping its first segment's colour and width |
| Eraser.ExampleFirstMissed | client/src/components/Whiteboard.jsx:8-18 | an eraser of radius 1 at (15, 0) does not touch the segment (0, 0)–(10, 0) |
| Eraser.ExampleSecondHit | client/src/components/Whiteboard.jsx:8-18 | the same eraser touches the segment (10, 0)–(20, 0) |
| Eraser.FreehandStyleLossWitness | client/src/components/Whiteboard.jsx:208 | a concrete stroke and eraser meet the premise of the as-written lemma |
| Eraser.EraseStroke | client/src/components/Whiteboard.jsx:173-221 | the `forEach` body pushes what erasing that drawable gives under the given style rule, and an unerased drawable unchanged |
| Eraser.Canvas.constructor | client/src/components/Whiteboard.jsx:173 | the canvas starts with the given stroke list |
| Eraser.Canvas.HandleErase | client/src/components/Whiteboard.jsx:168-228 | returns whether anything was erased; the list becomes the erased pass when something was erased or the erase is local, and is unchanged otherwise; the style rule is a parameter: `EraseStyleAsWritten` gives the code as written, `EraseStyle` the corrected one |
| Rooms.ParsePermission | server/index.js:31 | only `edit` and `view` are admitted, each mapped to its permission |
| Rooms.FindUser | server/index.js:58 | `users.find`: the index of the first entry with the id, or none when no entry has it |
| Rooms.HasEditPermission | server/index.js:55-60 | `hasEditPermission`; no contract of its own; characterised by EditPermissionIff and Server.NoEntryNoEdit |
| Rooms.EditPermissionIff | server/index.js:55-60 | the gate passes iff the room is stored and the caller's first entry says `edit` |
| Rooms.FindById | server/index.js:303 | `findIndex` by id: the first drawable with the data's id, or none |
| Rooms.NewRoom | server/index.js:69-83 | a new room is private unless it is `public`, is created by the caller, and is empty |
| Rooms.DisplayName | server/index.js:91-96 | a new entry's name is the given name, or "Anonymous" when none is given |
| Rooms.Join | server/index.js:65-107 | `join-room` on the stored room; no contract of its own; characterised by JoinFailsIff, JoinCreates, JoinNewEntry, JoinRejoin, JoinPublicEmptyClearsMessages, JoinKeepsDocument and JoinPreservesWellFormed |
| Rooms.JoinFailsIff | server/index.js:65-139 | a join fails (the save is rejected and the callback gets `false`) iff the room id or the caller's id is empty |
| Rooms.JoinCreates | server/index.js:69-98 | joining an unknown room creates it with the caller as creator and sole editor, and an empty document and chat |
| Rooms.JoinNewEntry | server/index.js:90-98 | a caller without an entry is appended, with `edit` iff the room is not private |
| Rooms.JoinRejoin | server/index.js:90-106 | a caller with an entry keeps its place, is renamed when a name is given, and gets `edit` if it is the creator, else keeps its permission |
| Rooms.JoinPublicEmptyClearsMessages | server/index.js:85-88 | the chat is emptied exactly when the public room is joined with an empty roster (or the room is new) |
| Rooms.JoinKeepsDocument | server/index.js:65-107 | a join changes neither the document nor the room's identity, privacy or creator |
| Rooms.JoinPreservesWellFormed | server/index.js:65-107 | a join keeps the room well formed (including private exactly when it is not `public`) and keeps its privacy, and puts the caller in its roster; the creator stays an editor when it was one and is not re-added to a private room |
| Rooms.JoinCreatorWithoutEntryGetsView | server/index.js:90-93 | a creator with no entry re-joining its private room gets `view` |
| Rooms.PublicRejoinKeepsStoredPermission | server/index.js:99-105 | a public-room rejoin keeps a stored `view` |
| Rooms.ChangePermission | server/index.js:141-162 | `change-permissions` on the stored room; no contract of its own; characterised by ChangePermissionEffect, ChangePermissionPreservesWellFormed and CreatorCanDemoteSelf |
| Rooms.ChangePermissionEffect | server/index.js:141-162 | a change happens iff the caller is the creator, the target has an entry and the value is admitted; it then sets that one entry's permission and notifies the new value |
| Rooms.ChangePermissionPreservesWellFormed | server/index.js:141-162 | a permission change keeps the room well formed |
| Rooms.CreatorCanDemoteSelf | server/index.js:143-150 | the creator can set its own entry to `view` |
| Rooms.SendMessage | server/index.js:170-187 | `send-message` on the stored room; no contract of its own; characterised by SendMessageEffect and SendMessagePreservesWellFormed |
| Rooms.Stamp | server/index.js:175-180 | the stored message is the broadcast object plus the server clock as timestamp |
| Rooms.SendMessageEffect | server/index.js:170-187 | a message is appended iff its content (and sender id) is non-empty; the broadcast object has the sender's id, its roster name or "Anonymous", and the content; the chat stores it stamped with the clock; nothing else changes |
| Rooms.SendMessagePreservesWellFormed | server/index.js:170-187 | sending a message keeps the room well formed |
| Rooms.Draw | server/index.js:189-204 | `drawing` (and `text`, lines 280-294) on the stored room; no contract of its own; characterised by UndoAfterMutation, MutationTruncates and DocumentOperationsKeepTheRest |
| Rooms.Clear | server/index.js:206-220 | `clear` on the stored room; no contract of its own; characterised by UndoAfterMutation, MutationTruncates and DocumentOperationsKeepTheRest |
| Rooms.Undo | server/index.js:222-240 | `undo` on the stored room; no contract of its own; characterised by RedoUndo, UndoRedo, UndoStepsBack and UndoRedoKeepHistorySize |
| Rooms.Redo | server/index.js:242-260 | `redo` on the stored room; no contract of its own; characterised by RedoUndo, UndoRedo, RedoStepsForward and UndoRedoKeepHistorySize |
| Rooms.EraseCommit | server/index.js:262-278 | `erase-commit` on the stored room; no contract of its own; characterised by UndoAfterEraseCommit and EraseCommitTruncates |
| Rooms.UpdateText | server/index.js:296-316 | `updateText` on the stored room; no contract of its own; characterised by UpdateTextEffect |
| Rooms.Mutate | server/index.js:193-195 | a mutation pushes the current strokes on the undo stack, installs the new strokes, empties the redo stack and keeps roster and chat |
| Rooms.DocumentOperationsKeepTheRest | server/index.js:189-316 | every document handler keeps the room's id, privacy, creator, roster and chat |
| Rooms.RedoUndo | server/index.js:222-260 | `undo` then `redo` restores the room |
| Rooms.UndoRedo | server/index.js:222-260 | `redo` then `undo` restores the room |
| Rooms.UndoAfterMutation | server/index.js:189-240 | undoing a mutation brings back the strokes and undo stack from before it, with the undone strokes to redo |
| Rooms.UndoAfterEraseCommit | server/index.js:222-278 | undoing an erase commit installs the client's original strokes, which differ from the server's when the client's copy did |
| Rooms.UpdateTextEffect | server/index.js:296-316 | `updateText` changes the room iff some drawable has the data's id; it then replaces the first such one as a mutation |
| Rooms.UndoRedoKeepHistorySize | server/index.js:222-260 | undo and redo move one snapshot between the stacks and lose none |
| Rooms.RedoNUndoN | server/index.js:222-260 | `n` undos followed by `n` redos restore the room, for `n` up to the undo depth |
| Rooms.RedoNLast | server/index.js:242-260 | `n + 1` redos are `n` redos then one more |
| Rooms.NewRoomAtHistory | server/index.js:72-82 | a new room is at the start of a one-document timeline |
| Rooms.UndoStepsBack | server/index.js:222-240 | `undo` moves one document back in the timeline |
| Rooms.RedoStepsForward | server/index.js:242-260 | `redo` moves one document forward in the timeline |
| Rooms.MutationTruncates | server/index.js:189-316 | a mutation cuts the timeline after the current document and appends the new one |
| Rooms.EraseCommitTruncates | server/index.js:262-278 | an erase commit whose original strokes are the server's is such a mutation |
| Rooms.RemoveUser | server/index.js:323 | filtering the roster never lengthens it |
| Rooms.RemoveUserSound | server/index.js:323 | the filter keeps exactly the entries of other connections |
| Rooms.RemoveUserAppend | server/index.js:323 | the `filter` keeps the remaining entries in order: filtering `a + b` filters `a`, then `b` |
| Rooms.RemoveUserOne | server/index.js:323 | a single entry is kept exactly when its id is not the caller's |
| Rooms.RemoveAbsentUser | server/index.js:323 | filtering out an id no entry carries changes nothing |
| Rooms.RemoveUserUnique | server/index.js:323 | the filtered roster still has one entry per connection |
| Rooms.Leave | server/index.js:322-330 | `disconnect` on one room holding the caller; no contract of its own; characterised by LeaveEffect and LeavePreservesWellFormed |
| Rooms.LeaveEffect | server/index.js:322-330 | after leaving, the caller has no entry, every other entry is kept, the document, id, creator and privacy are untouched, and the public room's chat is empty iff nobody is left |
| Rooms.LeavePreservesWellFormed | server/index.js:322-330 | leaving keeps the room well formed and the creator an editor |
| Rooms.DocumentOperationsPreserveWellFormed | server/index.js:189-316 | every document handler keeps the room well formed and the creator an editor |
| Server.DisconnectAll | server/index.js:318-335 | every stored room after `disconnect`; no contract of its own; characterised by DisconnectAllEffect and DisconnectAllValid, and computed by LeaveAll |
| Server.DisconnectAllEffect | server/index.js:318-335 | after a disconnect the caller is in no roster, and rooms that did not hold it are unchanged |
| Server.PublicNewcomerEdits | server/index.js:70-99 | in a valid store the public room is not private, so a connection joining it without an entry gets `edit` |
| Server.RoomServer.constructor | server/index.js:39 | the store starts empty |
| Server.RoomServer.JoinRoom | server/index.js:65-139 | answers `true` and stores the joined room, or `false` and stores nothing; the snapshot carries the room id, the stored roster, the creator's id, the caller's permission, the strokes and, except in the public room, the chat |
| Server.RoomServer.ChangePermissions | server/index.js:141-162 | stores the changed room and notifies the target, or does nothing for an unknown room |
| Server.RoomServer.LiveErase | server/index.js:165-168 | the eraser position is relayed iff the caller's first entry in a stored room says `edit` |
| Server.RoomServer.SendMessage | server/index.js:170-187 | stores the stamped message and broadcasts the object without timestamp, or does nothing for an unknown room |
| Server.RoomServer.Drawing | server/index.js:189-204 | an editor's drawable is appended and the strokes broadcast; anyone else changes nothing |
| Server.RoomServer.Text | server/index.js:280-294 | the same as `drawing` |
| Server.RoomServer.Clear | server/index.js:206-220 | an editor empties the strokes, keeping a snapshot; anyone else changes nothing |
| Server.RoomServer.Undo | server/index.js:222-240 | an editor undoes one step; nothing happens on an empty undo stack or for anyone else |
| Server.RoomServer.Redo | server/index.js:242-260 | an editor redoes one step; nothing happens on an empty redo stack or for anyone else |
| Server.RoomServer.EraseCommit | server/index.js:262-278 | an editor installs the final strokes with the client's original strokes as snapshot |
| Server.RoomServer.UpdateText | server/index.js:296-316 | an editor replaces the first drawable with the data's id; nothing is stored or sent when there is none |
| Server.RoomServer.Disconnect | server/index.js:318-335 | every room whose roster held the caller is left and notified; the others are unchanged; every room stays valid |
| Server.LeaveAll | server/index.js:320-331 | the loop over the caller's rooms leaves each of them exactly once |
| Server.DisconnectStep | server/index.js:322-330 | leaving one more room advances the loop's progress |
| Server.DisconnectAllValid | server/index.js:318-335 | a disconnect keeps every stored room valid |
| Server.DisconnectDone | server/index.js:318-335 | when every room of the caller has been left, the store is the disconnected store |
| Server.NoEntryNoEdit | server/index.js:55-60 | a caller with no entry, or a room that is not stored, never passes the edit gate |

## Left out

- MongoDB and socket.io are not modelled. A stored room is a map entry. What a handler emits is its return value, and a broadcast to a room is not distinguished from one to a single socket.
- Concurrency is not modelled. Each handler is one atomic step, although the source can interleave two handlers at any `await`, between the read and the save. Lost updates between concurrent handlers are therefore not captured.
- Database errors are not modelled, apart from the schema validators. These are the failures the `try/catch` blocks swallow: a failed lookup, a failed save, a lost connection.
- The `user-list-updated` broadcasts of `join-room` and `change-permissions`, and the console logging, are left out.
- `disconnect` saves twice: first the roster, then the emptied public chat. The model takes both as one step, and the moment between the two saves is not captured.
- The WebRTC signalling handlers, the Express/CORS setup and the client UI (rendering, throttling, PDF export) are not part of this model.
- Floating point and `Math.hypot` are not modelled. Coordinates are reals, and the hit test compares squared distances.
- Geometry.PointToSegmentDistSq: proves that the clamped projection is attained on the segment, but not that it is the minimum distance over the segment. The model computes the code's own clamped-projection formula (`client/src/components/Whiteboard.jsx:8-18`), so minimality is a fact about that formula and changes no behaviour the model captures.
- Geometry.CircleToSegments: `Math.cos` and `Math.sin` of a fraction of a full turn are the parameter `turn`. The model does not state that the points lie on the ellipse.
- Rooms.JoinPreservesWellFormed: keeps the creator an editor only when it already was one and is not re-added to a private room. The code does not do more (see the list of cases above).
- Drawables are a closed union of five kinds. The client also keeps any other object unchanged in `handleErase`, which `Text` stands for.
- The `JSON.parse(JSON.stringify(...))` snapshot copies are values in the model, so aliasing between the strokes and the stacks cannot arise.
- The server clock (`Date.now`) is the parameter `now` of `send-message`.

## Findings

| source | as written | input that shows it | evidently intended | confidence | as-written member | corrected member |
|---|---|---|---|---|---|---|
| client/src/components/Whiteboard.jsx:208 | `handleErase` passes `{ color: stroke.color, lineWidth: stroke.lineWidth }` to the split. A freehand stroke is a bare array, so both are `undefined`, and every piece of a split freehand stroke loses its colour and width. | a black stroke (0,0)–(10,0)–(20,0), width 2, erased at (15, 0) with radius 1: one piece is left, with no colour and no width | the pieces keep the colour and width the stroke was drawn in (its segments' own) | not executed | Eraser.FreehandStyleLostAsWritten | Eraser.FreehandStyleKeptCorrected |
