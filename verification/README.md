# Gobblet tic-tac-toe server: a Dafny model

The repository is a multi-room server for a stacking variant of
tic-tac-toe. Each player holds two small, two medium and two large pieces.
A piece may go on an empty cell or cover a strictly smaller piece. Three
cells in a row whose top pieces share a colour win. The server keeps
the authoritative state of every room. It seats joiners as Blue, then
Orange, then spectator. It checks and applies `place_piece` commands and
records the winner or passes the turn. It also handles `restart_game`,
`disconnect`, `chat_message` and `cheer`. The browser client escapes log
text as HTML. It also keeps six fixed hand slots per owner whose
visibility is meant to follow the hand counts the server reports. It looks
those counts up under the keys `A` and `B`, while the server sends them under
`Blue` and `Orange`, so with this server every slot stays hidden.

The model, one module per concern:

- `Wrappers`: `Option`, `Result`, `Min`.
- `Rules` (`rules.dfy`) holds the pure rules:
  - size ranks, the board as a 3×3 grid of stacks, and the cover rule `CanPlaceAt`;
  - the eight-line winner scan `CheckWinner`, with `Wins` as an independent reference definition;
  - per-owner, per-size piece tallies over the board.
- `ChatLog`: text truncation and the 50-entry capped log.
- `Room` holds one room's state (`GameState`) and every handler as a pure transition.
  - Handlers that acknowledge return the new state together with the acknowledgement (`Outcome`).
  - It defines the room invariant `Inv` and the per-seat allotment predicate `Accounted`.
- `Registry` holds the room map, the per-connection session, room-id choice and the socket-level handlers.
  - It defines `Run`, which runs any sequence of events from an empty server.
  - It proves the room invariant over every run and that `game_over` is never acknowledged.
- `Scenarios`: a concrete game played through the model.
- `Html`: the client's `escapeHtml`, together with a decoder that inverts it.
- `HandSlots`: the client's `initHandSlots` and the reconciliation part of `renderHands3D`, with each mesh reduced to its `visible` flag.

Randomness is a parameter.
- The coin flip for the first turn is an `Owner` argument.
- The generated room ids are a supplied sequence of draws. The join takes the first draw that names no live room.
- The transport's "is anyone left in this room" answer on disconnect is a boolean argument.

Three behaviours of the code, each proved in the model:
- **No spectator queue.** The code has no spectator queue, no post-match rematch/spectate/leave protocol and no reseating of spectators. A spectator is only a slot tag, and `restart_game` is an unconditional reset that any connection may send.
- **Allotment can be exceeded.** A colour can end up with more than two pieces of a size in play:
  - a seated player leaves mid-game;
  - the next joiner gets a fresh full hand;
  - the old pieces stay on the board.

  `Room.RejoinExceedsAllotment` proves this. The model instead proves `Accounted` is kept by play and re-established by a restart.
- **No third piece of a size.** In the scenario of `Scenarios`, Blue's attempt to place a third large piece is refused with `no piece`, and `Scenarios.ThirdLargeRefused` proves that refusal. `Scenarios.TopRowCompletes` then completes the row with a medium piece.

## Model

| member | source | states |
|---|---|---|
| Rules.CoverNeedsStrictlyLarger | server.js:43-50 | An empty cell accepts any piece; a piece of equal or smaller rank never covers; a legal cover is never by a piece of the same size. |
| Rules.CanPlaceIffLargerThanAll | server.js:43-50 | On a legally built stack, the cover rule holds iff the new piece outranks every piece already in the cell. |
| Rules.OrderedStackHeight | server.js:40-50 | A stack built only by legal covers holds at most three pieces, and its top's rank is at least its height. |
| Rules.PushKeepsOrdered | server.js:184-186 | Pushing a piece the cover rule admits keeps the stack strictly increasing in rank. |
| Rules.PopKeepsOrdered | server.js:197 | Popping the top keeps a legally built stack legally built. |
| Rules.ScanLines | server.js:58-67 | The scan from line i returns the owner of the first line at or after i that is won (all three tops non-empty and of that owner), and no result iff no line from i on is won. |
| Rules.CheckWinner | server.js:52-68 | A reported winner owns all three tops of some line, with no earlier line in the scan order won; no winner iff none of the eight lines is won by anybody. |
| Rules.NoWonLineNoWinner | server.js:58-67 | A board on which no line is won reports no winner. |
| Rules.SoleWinnerReported | server.js:58-65 | If o wins any one line and the other colour wins none, o is the winner reported. |
| Rules.EmptyBoardHasNoWinner | server.js:26-30 | The fresh board has no winner. |
| Rules.EmptyBoardTally | server.js:26-30 | The fresh board holds no piece of any owner or size. |
| Rules.PushCounts | server.js:186 | Pushing one piece raises exactly that owner's tally of that size by one and the total piece count by one. |
| Rules.MoveTopConserves | server.js:197-198 | Moving a top piece between two different cells leaves every owner/size tally and the piece count unchanged. |
| ChatLog.Truncate | server.js:232 | The result is the first min(length, limit) characters of the text, and the whole text when it fits. |
| ChatLog.Append | server.js:243-244 | The new message is last; the log is a suffix of old log plus message; below capacity nothing is dropped; at capacity the length stays 50; on a capped log the result is the most recent fifty of old log plus message. |
| ChatLog.RecentDropsOldest | server.js:244 | Dropping the oldest entry of an over-full history does not change its most recent fifty. |
| ChatLog.AppendAllKeepsMostRecent | server.js:243-244 | After any run of appends the log is exactly the most recent fifty messages ever sent (all of them while fewer). |
| Room.Inventory.Take | server.js:187 | Playing a size lowers that size's count by exactly one and leaves the other sizes alone. |
| Room.NewGameState | server.js:24-37 | A new room has empty seats, nine empty stacks, no turn, no winner, is not started, has an empty log, and satisfies the room invariant. |
| Room.Join | server.js:127-149 | The joiner is Blue iff Blue is free, Orange iff only Orange is free, spectator iff both are taken; a new seat gets a full 2/2/2 hand and its colour; other seats, board, winner and log are kept; the game starts (with the supplied first turn) iff both seats are filled and it was neither running nor won. |
| Room.JoinPreservesInv | server.js:144-148 | Seating keeps the room invariant. |
| Room.Apply | server.js:180-199 | A command either fails with one of the per-action errors or changes only the board and the actor's own hand: the actor's id, name and colour, the other seat, turn, winner, started flag and log are all kept. |
| Room.PlacePiece | server.js:174-214 | Each guard error occurs exactly when the earlier guards pass and its own condition fails (spectator, not_started, game_over, not_your_turn); an accepted command passed all four; every rejection returns the state unchanged. |
| Room.PlacePieceActionGuards | server.js:180-199 | Past the common guards: no piece iff the hand lacks the size; illegal iff the hand has it but the cover rule fails; for moves, empty, then not yours, then illegal, each iff the earlier checks pass; an unrecognised action is accepted. |
| Room.PlaceFromHandEffect | server.js:180-187 | An accepted placement pushes exactly the piece (owner, size, seat colour) on the destination, leaves every other cell, decrements exactly that size in the actor's hand, leaves the other seat alone, and raises that tally and the piece count by one. |
| Room.MoveOnBoardEffect | server.js:189-198 | An accepted move has different cells, pops the actor's own top piece from the source and pushes that same piece on the destination, touches no other cell or hand, and keeps all tallies and the piece count. |
| Room.SameCellMoveRejected | server.js:189-195 | A move onto its own cell is never accepted and changes nothing; with the player's own piece on top it is refused as illegal. |
| Room.AcceptedEndsOrPassesTurn | server.js:201-209 | After an accepted command, a winning board records that winner and stops the game with the turn kept; otherwise no winner, still running, and the turn passes to the other colour. |
| Room.UnrecognisedActionPassesTurn | server.js:180-210 | An unrecognised action in a running room is accepted and changes nothing but passing the turn. |
| Room.GameOverUnreachable | server.js:175-183 | In a room satisfying the invariant, neither game_over nor the null-seat TypeError can be the answer. |
| Room.PlaceFromHandKeepsOrdered | server.js:184-186 | An accepted hand placement keeps every stack strictly increasing in rank. |
| Room.MoveOnBoardKeepsOrdered | server.js:195-198 | An accepted move keeps every stack strictly increasing in rank. |
| Room.PlacePieceKeepsOrdered | server.js:180-199 | Every place_piece command keeps every stack legally built. |
| Room.PlacePiecePreservesInv | server.js:174-209 | place_piece keeps the room invariant: recorded winner equals the board's winner, winner implies stopped, running implies both seats and a turn, stacks legally built, log within capacity. |
| Room.PlacePiecePreservesAccounted | server.js:180-198 | For each seat, board tally plus hand count per size stays at two through every command. |
| Room.Restart | server.js:286-292 | All nine stacks empty, occupied seats keep their occupant with a full hand, empty seats stay empty, no winner, the supplied first turn, running iff both seats are taken, log kept. |
| Room.RestartPreservesInv | server.js:286-292 | A restart keeps the room invariant. |
| Room.RestartEstablishesAccounted | server.js:287-289 | After a restart every occupied seat holds its whole allotment in hand. |
| Room.Vacate | server.js:303-308 | The leaver's seat (if any) is emptied, the other seat is kept, the game stops whoever left, and board, winner, turn and log are kept. |
| Room.VacatePreservesInv | server.js:305-308 | A disconnect keeps the room invariant. |
| Room.SpectatorLeavingStopsMatch | server.js:303-308 | A spectator leaving a running match leaves both seats but stops the game, so every player command is then refused with not_started. |
| Room.RejoinExceedsAllotment | server.js:128-133 | A seated player leaving mid-game with pieces on the board and being replaced by a joiner restarts the game on the same board with a full hand, so that colour has more than two pieces of a size. |
| Room.CheerSender | server.js:259-261 | The cheer's sender lookup fails exactly when the sender is Orange and the Orange seat is empty. |
| Room.PostChat | server.js:220-244 | An empty text changes nothing; otherwise the last log entry is the message with the sender's seat name (or the spectator name), the text cut to 200 characters, and the chat kind, and on a capped log the new log is exactly the most recent fifty of the old log plus that message; nothing outside the log changes and the cap is kept. |
| Room.PostCheer | server.js:252-276 | Fails iff the sender lookup throws; otherwise as chat with a 50-character limit and the cheer kind: the new log is the most recent fifty of the old log plus the cheer, and nothing but the log changes. |
| Room.ChatPreservesInv | server.js:243-244 | Chat and cheer keep the room invariant. |
| Registry.DisplayName | server.js:112 | A missing name becomes Guest; otherwise the first min(length, 50) characters; the name is never empty and never over 50. |
| Registry.FirstFreshDraw | server.js:106-110 | The chosen id names no live room and is the first such draw. |
| Registry.ChooseRoomId | server.js:103-110 | A requested id is used verbatim; otherwise the id is a generated draw not already in use. |
| Registry.JoinRoom | server.js:103-136 | The room id is chosen as above; the registry gains exactly that key; every other room is unchanged; a new room holds the joiner as Blue (id, display name, colour blue, full hand) with Orange empty, an empty board, no turn, no winner, an empty log and not started, and the reply slot is Blue; an existing room is joined as Room.Join says and the reply slot is the seat Room.Join assigned; the session remembers room and that slot. |
| Registry.LiveRoom | server.js:168-169 | A connection has a live room iff it joined one whose id is non-empty and that still exists. |
| Registry.EmptyIdIgnored | server.js:168-169 | A room stored under the empty id, which the generator can draw, never receives a place_piece: its connections get no acknowledgement and nothing changes. |
| Registry.PlacePieceIn | server.js:167-177 | No acknowledgement and no change without a live room; otherwise only that room changes, as Room.PlacePiece says, and a rejection changes nothing. |
| Registry.RestartIn | server.js:281-296 | Without a live room nothing happens and no ack is sent; otherwise exactly that room is restarted and acknowledged. |
| Registry.DisconnectIn | server.js:299-319 | Without a live room nothing changes; an emptied room is deleted; otherwise the room is vacated as Room.Vacate says. |
| Registry.ChatIn | server.js:220-248 | The set of rooms is unchanged; only the sender's live room receives the chat. |
| Registry.CheerIn | server.js:252-279 | Without a live room nothing changes; otherwise the handler fails iff the room's cheer fails, and else only that room changes. |
| Registry.JoinKeepsInv | server.js:103-149 | A join keeps every live room's invariant, the new or joined room included. |
| Registry.PlaceKeepsInv | server.js:167-215 | place_piece keeps every live room's invariant. |
| Registry.RestartKeepsInv | server.js:281-296 | restart_game keeps every live room's invariant. |
| Registry.DisconnectKeepsInv | server.js:299-319 | A disconnect keeps every live room's invariant, whether the room is deleted or vacated. |
| Registry.ChatKeepsInv | server.js:220-279 | Chat and cheer keep every live room's invariant. |
| Registry.StepPreservesInv | server.js:100-319 | Any single event keeps every live room's invariant. |
| Registry.RunPreservesInv | server.js:100-319 | Any run of events keeps every live room's invariant. |
| Registry.GameOverNeverAcknowledged | server.js:174-176 | From an empty server, after any run of events, place_piece is never answered with game_over. |
| Scenarios.NoWinnerInOpening | server.js:52-68 | None of the four opening boards has a winner. |
| Scenarios.OpeningMoves | server.js:174-209 | Four alternating large placements are each accepted, with the exact resulting board, hands and next turn. |
| Scenarios.ThirdLargeRefused | server.js:183 | With both large pieces used, a third large is refused with no piece and the room is unchanged. |
| Scenarios.BlueOnlyWinsFinal | server.js:53-65 | On the final board Blue owns the top row and Orange owns no line. |
| Scenarios.TopRowCompletes | server.js:180-205 | A medium completing the top row is accepted, the board is the expected one, Blue is recorded as winner and the game stops. |
| Html.EscapeHtml | public/client.js:962 | The output contains no <, >, double or single quote; a text without any of the five special characters comes back unchanged; the output is never shorter. |
| Html.EscapeHtmlConcat | public/client.js:962 | Escaping is character by character: the escape of a concatenation is the concatenation of the escapes. |
| Html.UnescapeEscapeChar | public/client.js:962 | Decoding an escaped character followed by any text gives back the character followed by the decoded text. |
| Html.EscapeRoundTrip | public/client.js:962 | Decoding the escaped text gives the original text back, so the escaping loses nothing. |
| HandSlots.FreshSlots | public/client.js:565-590 | One owner's slots are six hidden slots of sizes large, large, medium, medium, small, small, numbered 0 to 5. |
| HandSlots.InitHandSlots | public/client.js:562-602 | After the call the slots are built; a second call changes nothing; a first call adds six fresh slots for each owner. |
| HandSlots.InitHandSlotsLayout | public/client.js:562-602 | From the starting client each owner has exactly the six hidden slots in the fixed order, and calling again changes nothing. |
| HandSlots.OtherSizesUnchanged | public/client.js:986-990 | Changing only slots of one size leaves the slot and shown counts of every other size alone. |
| HandSlots.HideFromEndSpec | public/client.js:1011-1017 | Only shown slots of the size are hidden, nothing is shown, and exactly min(k, shown) slots are hidden. |
| HandSlots.ShowFromStartSpec | public/client.js:1025-1031 | Only hidden slots of the size are shown, nothing is hidden, and exactly min(k, hidden) slots are shown. |
| HandSlots.HideTakesHighest | public/client.js:1011-1017 | A shown slot is hidden only if every later shown slot of that size is hidden too. |
| HandSlots.ShowTakesLowest | public/client.js:1025-1031 | A hidden slot is shown only if every earlier hidden slot of that size is shown too. |
| HandSlots.FindVisible | public/client.js:1001 | The result is the first shown slot of the size with that id, or none exists. |
| HandSlots.HideOne | public/client.js:1002 | Hiding one shown slot lowers the shown count of its size by one and touches nothing else. |
| HandSlots.SyncSize | public/client.js:983-1032 | The shown count of the size becomes min(server count, slots of that size); other sizes untouched; when hiding, nothing is shown, and when showing, nothing is hidden; the last-played slot, when shown, is the one hidden first and its record is cleared; otherwise the record is kept. |
| HandSlots.SyncSizeOrder | public/client.js:986-1031 | Apart from the last-played slot, hiding takes the highest-numbered shown slots and showing the lowest-numbered hidden ones. |
| HandSlots.SyncOwnerReconciles | public/client.js:983-1032 | After one owner is reconciled, each size shows the server's count capped by its slots, and the other owner's slots are untouched. |
| HandSlots.RenderHandsReconciles | public/client.js:971-1050 | Slots are always built; with no player data, or for an owner without an entry, nothing changes beyond the build; an owner with an entry shows, per size, the capped server count. |
| HandSlots.ServerKeysLeaveSlotsAlone | public/client.js:977-979 | Player data keyed only by Blue and Orange, as the server sends it, leaves every slot as built. |

## Left out

- The Socket.IO and Express plumbing is not modelled: listeners, `socket.join`, the HTTP server and every broadcast. Acknowledgements are return values (`Ack`, `PlaceReply`, the boolean of `RestartIn`) and the `ack` callback is taken to be present.
- `Math.random` is not modelled. The room-id draws and the first-turn coin flip are parameters.
- `Date.now` timestamps on chat and cheer messages are not modelled. `Message` has no time field.
- `sanitizeState` is not modelled. It is a projection for transport and changes no state.
- Room deletion depends on the transport's membership set, which the model does not have. `DisconnectIn` takes `roomNowEmpty` as an argument instead.
- JavaScript duck typing is not modelled:
  - sizes are an enumeration;
  - coordinates are 0..2;
  - a command is a three-way `Action`;
  - names, room ids and texts are strings, and an absent one is the empty string;
  - there are no prototype keys such as `constructor` among room ids;
  - the out-of-range and non-string inputs that would throw are not modelled.
- Registry.ChooseRoomId: requires that some supplied draw is unused, because the server's generator loop has no bound and an infinite run of colliding draws cannot be represented.
- Registry.JoinRoom: requires the same as ChooseRoomId, for the same reason.
- ChatLog.Truncate: counts lengths in Unicode code points, because a Dafny string is a sequence of scalar values. The server's `.slice` counts UTF-16 code units, so a text with characters outside the Basic Multilingual Plane (emoji, for one) keeps fewer characters on the server than in the model, and a cut that splits a surrogate pair cannot be represented.
- Registry.DisplayName: the 50-character cut counts code points, not UTF-16 code units, for the reason given under ChatLog.Truncate.
- Room.PostChat: the 200-character cut counts code points, not UTF-16 code units, for the reason given under ChatLog.Truncate.
- Room.PostCheer: the 50-character cut counts code points, not UTF-16 code units, for the reason given under ChatLog.Truncate.
- Registry.Step: a cheer whose sender lookup throws leaves the registry as it was. The exception escapes the handler, and what the runtime then does with the process is not modelled.
- Room.GameError.NullSeat is an approximation. It stands for the TypeError that place_from_hand raises when the acting seat is empty, which the server catches and acknowledges with the runtime's message. `Room.GameOverUnreachable` proves it cannot happen in a room satisfying the invariant.
- The rest of `public/client.js` is not modelled: the Three.js scene, meshes, animation, audio, DOM, click handling and the mesh matching in `render`, which relies on floating-point distances. Only `escapeHtml`, `initHandSlots` and the reconciliation in `renderHands3D` are modelled. The highlight code in `renderHands3D` changes nothing and is omitted.
- The client and server models are kept apart. The client looks owners up under `'A'` and `'B'`; the server keys its players `Blue` and `Orange`. `HandSlots.ServerKeysLeaveSlotsAlone` states the consequence.
