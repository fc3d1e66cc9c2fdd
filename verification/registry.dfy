/** The server's map from room id to room state, the per-connection session
    record, and the socket handlers that look a room up before running the
    per-room transition. */
module Registry {
  import opened Wrappers
  import opened Rules
  import ChatLog
  import Room

  type Rooms = map<string, Room.GameState>

  /** What the server keeps on a connection: the room it joined, if any, and
      the slot it was given there. A connection that never joined holds no
      room and is treated as a spectator. */
  datatype Session = Session(room: Option<string>, slot: Slot)

  const GuestName: string := "Guest"
  const NameLimit: nat := 50

  /** The joiner's display name: the first 50 characters of the given name,
      or "Guest" when none is given. */
  function DisplayName(raw: string): (name: string)
    ensures raw == [] ==> name == GuestName
    ensures raw != [] ==> name <= raw && |name| == Min(|raw|, NameLimit)
    ensures 0 < |name| <= NameLimit
  {
    if raw == [] then GuestName else ChatLog.Truncate(raw, NameLimit)
  }

  // ------------------------------------------------------------ room ids

  /** Some draw of the random id generator names no live room. */
  ghost predicate HasFreshDraw(rooms: Rooms, draws: seq<string>) {
    exists i :: 0 <= i < |draws| && draws[i] !in rooms
  }

  /** The id the generator loop settles on: the first draw that names no live room. */
  function FirstFreshDraw(rooms: Rooms, draws: seq<string>): (id: string)
    requires HasFreshDraw(rooms, draws)
    ensures id !in rooms
    ensures exists i :: 0 <= i < |draws| && draws[i] == id && forall j :: 0 <= j < i ==> draws[j] in rooms
  {
    if draws[0] !in rooms then draws[0]
    else
      var i :| 0 <= i < |draws| && draws[i] !in rooms;
      assert draws[1..][i - 1] == draws[i];
      var id := FirstFreshDraw(rooms, draws[1..]);
      var k :| 0 <= k < |draws| - 1 && draws[1..][k] == id && forall j :: 0 <= j < k ==> draws[1..][j] in rooms;
      assert forall j :: 0 <= j < k + 1 ==> draws[j] in rooms by {
        forall j | 0 <= j < k + 1
          ensures draws[j] in rooms
        {
          if j > 0 {
            assert draws[j] == draws[1..][j - 1];
          }
        }
      }
      assert draws[k + 1] == id;
      id
  }

  /** The room id of a join: the requested id verbatim when one is given,
      otherwise the first generated id not already in use. */
  function ChooseRoomId(rooms: Rooms, requested: string, draws: seq<string>): (id: string)
    requires requested != [] || HasFreshDraw(rooms, draws)
    ensures requested != [] ==> id == requested
    ensures requested == [] ==> id !in rooms && id in draws
  {
    if requested != [] then requested else FirstFreshDraw(rooms, draws)
  }

  // ------------------------------------------------------------ handlers

  datatype JoinReply = JoinReply(rooms: Rooms, session: Session, roomId: string, slot: Slot)

  /** The join handler: choose the room id, create the room only if it is
      absent, seat the joiner there, and remember the room and slot on the
      connection. Every other room is left as it was. */
  function JoinRoom(rooms: Rooms, requested: string, draws: seq<string>, rawName: string,
                    socketId: string, firstTurn: Owner): (r: JoinReply)
    requires requested != [] || HasFreshDraw(rooms, draws)
    ensures requested != [] ==> r.roomId == requested
    ensures requested == [] ==> r.roomId !in rooms && r.roomId in draws
    ensures r.rooms.Keys == rooms.Keys + {r.roomId}
    ensures forall k :: k in rooms && k != r.roomId ==> r.rooms[k] == rooms[k]
    ensures r.session == Session(Some(r.roomId), r.slot)
    ensures r.roomId !in rooms ==>
      var room := r.rooms[r.roomId];
      && r.slot == Seat(Blue) && !room.started && room.winner.None? && room.chatLog == []
      && room.blue == Some(Room.Player(socketId, DisplayName(rawName), Room.ColorOf(Blue), Room.FullHand))
      && room.orange.None? && room.currentTurn.None? && forall x :: At(room.board, x) == []
    ensures r.roomId in rooms ==> r.slot == Room.Join(rooms[r.roomId], socketId, DisplayName(rawName), firstTurn).slot
    ensures r.roomId in rooms ==> r.rooms[r.roomId] == Room.Join(rooms[r.roomId], socketId, DisplayName(rawName), firstTurn).state
  {
    var id := ChooseRoomId(rooms, requested, draws);
    var before := if id in rooms then rooms[id] else Room.NewGameState();
    var j := Room.Join(before, socketId, DisplayName(rawName), firstTurn);
    JoinReply(rooms[id := j.state], Session(Some(id), j.slot), id, j.slot)
  }

  /** The live room of a connection, if it joined one that still exists. An
      empty id fails the server's truthiness test and counts as no room, even
      when the generator produced it and a room is stored under it. */
  function LiveRoom(rooms: Rooms, session: Session): (id: Option<string>)
    ensures id.Some? <==> session.room.Some? && session.room.value != [] && session.room.value in rooms
    ensures id.Some? ==> id == session.room
  {
    if session.room.Some? && session.room.value != [] && session.room.value in rooms then session.room else None
  }

  datatype PlaceReply = PlaceReply(rooms: Rooms, ack: Option<Room.Ack>)

  /** The place_piece handler. A connection without a live room gets no
      acknowledgement at all and nothing changes. */
  function PlacePieceIn(rooms: Rooms, session: Session, action: Room.Action): (r: PlaceReply)
    ensures r.ack.None? <==> LiveRoom(rooms, session).None?
    ensures r.ack.None? ==> r.rooms == rooms
    ensures r.ack.Some? ==>
      var id := session.room.value;
      var out := Room.PlacePiece(rooms[id], session.slot, action);
      r.rooms == rooms[id := out.state] && r.ack.value == out.ack
    ensures r.ack.Some? && r.ack.value.Rejected? ==> r.rooms == rooms
  {
    var id := LiveRoom(rooms, session);
    if id.None? then PlaceReply(rooms, None)
    else
      var out := Room.PlacePiece(rooms[id.value], session.slot, action);
      PlaceReply(rooms[id.value := out.state], Some(out.ack))
  }

  /** A room stored under the empty id, which the generator can draw, is never
      acted on: its connections get no acknowledgement and change nothing. */
  lemma EmptyIdIgnored(rooms: Rooms, slot: Slot, action: Room.Action)
    requires [] in rooms
    ensures PlacePieceIn(rooms, Session(Some([]), slot), action) == PlaceReply(rooms, None)
  {
  }

  /** The restart_game handler: any connection with a live room may reset it;
      the result tells whether an acknowledgement was sent. */
  function RestartIn(rooms: Rooms, session: Session, firstTurn: Owner): (r: (Rooms, bool))
    ensures r.1 <==> LiveRoom(rooms, session).Some?
    ensures !r.1 ==> r.0 == rooms
    ensures r.1 ==> r.0 == rooms[session.room.value := Room.Restart(rooms[session.room.value], firstTurn)]
  {
    var id := LiveRoom(rooms, session);
    if id.None? then (rooms, false)
    else (rooms[id.value := Room.Restart(rooms[id.value], firstTurn)], true)
  }

  /** The disconnect handler. `roomNowEmpty` says whether the transport still
      has any connection in the room; an emptied room is deleted. */
  function DisconnectIn(rooms: Rooms, session: Session, roomNowEmpty: bool): (r: Rooms)
    ensures LiveRoom(rooms, session).None? ==> r == rooms
    ensures LiveRoom(rooms, session).Some? && roomNowEmpty ==>
      r == rooms - {session.room.value} && session.room.value !in r
    ensures LiveRoom(rooms, session).Some? && !roomNowEmpty ==>
      r == rooms[session.room.value := Room.Vacate(rooms[session.room.value], session.slot)]
  {
    var id := LiveRoom(rooms, session);
    if id.None? then rooms
    else if roomNowEmpty then rooms - {id.value}
    else rooms[id.value := Room.Vacate(rooms[id.value], session.slot)]
  }

  /** The chat_message handler. */
  function ChatIn(rooms: Rooms, session: Session, text: string): (r: Rooms)
    ensures r.Keys == rooms.Keys
    ensures LiveRoom(rooms, session).None? ==> r == rooms
    ensures LiveRoom(rooms, session).Some? ==>
      r == rooms[session.room.value := Room.PostChat(rooms[session.room.value], session.slot, text)]
  {
    var id := LiveRoom(rooms, session);
    if id.None? then rooms
    else rooms[id.value := Room.PostChat(rooms[id.value], session.slot, text)]
  }

  /** The cheer handler; None when the sender lookup throws. */
  function CheerIn(rooms: Rooms, session: Session, text: string): (r: Option<Rooms>)
    ensures LiveRoom(rooms, session).None? ==> r == Some(rooms)
    ensures LiveRoom(rooms, session).Some? ==>
      var c := Room.PostCheer(rooms[session.room.value], session.slot, text);
      (r.None? <==> c.None?) && (r.Some? ==> r.value == rooms[session.room.value := c.value])
  {
    var id := LiveRoom(rooms, session);
    if id.None? then Some(rooms)
    else
      var c := Room.PostCheer(rooms[id.value], session.slot, text);
      if c.None? then None else Some(rooms[id.value := c.value])
  }

  // ------------------------------------------------------------ whole-server runs

  /** One inbound event, with the randomness it consumes supplied. */
  datatype Event =
    | JoinEvent(requested: string, draws: seq<string>, name: string, socketId: string, firstTurn: Owner)
    | PlaceEvent(session: Session, action: Room.Action)
    | RestartEvent(session: Session, firstTurn: Owner)
    | DisconnectEvent(session: Session, roomNowEmpty: bool)
    | ChatEvent(session: Session, text: string)
    | CheerEvent(session: Session, text: string)

  /** A join is possible when an id was requested or the generator eventually
      produces an unused one. */
  ghost predicate Enabled(rooms: Rooms, e: Event) {
    e.JoinEvent? ==> e.requested != [] || HasFreshDraw(rooms, e.draws)
  }

  /** The registry after one event; a cheer that throws changes nothing. */
  function Step(rooms: Rooms, e: Event): Rooms
    requires Enabled(rooms, e)
  {
    match e
    case JoinEvent(requested, draws, name, socketId, firstTurn) =>
      JoinRoom(rooms, requested, draws, name, socketId, firstTurn).rooms
    case PlaceEvent(session, action) => PlacePieceIn(rooms, session, action).rooms
    case RestartEvent(session, firstTurn) => RestartIn(rooms, session, firstTurn).0
    case DisconnectEvent(session, empty) => DisconnectIn(rooms, session, empty)
    case ChatEvent(session, text) => ChatIn(rooms, session, text)
    case CheerEvent(session, text) => CheerIn(rooms, session, text).GetOr(rooms)
  }

  ghost predicate AllEnabled(rooms: Rooms, es: seq<Event>)
    decreases |es|
  {
    es != [] ==> Enabled(rooms, es[0]) && AllEnabled(Step(rooms, es[0]), es[1..])
  }

  function Run(rooms: Rooms, es: seq<Event>): Rooms
    requires AllEnabled(rooms, es)
    decreases |es|
  {
    if es == [] then rooms else Run(Step(rooms, es[0]), es[1..])
  }

  /** Every live room satisfies the room invariant. */
  ghost predicate RegistryInv(rooms: Rooms) {
    forall k :: k in rooms ==> Room.Inv(rooms[k])
  }

  lemma UpdateKeepsInv(rooms: Rooms, id: string, room: Room.GameState)
    requires RegistryInv(rooms) && Room.Inv(room)
    ensures RegistryInv(rooms[id := room])
  {
  }

  lemma JoinKeepsInv(rooms: Rooms, requested: string, draws: seq<string>, name: string, socketId: string, firstTurn: Owner)
    requires RegistryInv(rooms)
    requires requested != [] || HasFreshDraw(rooms, draws)
    ensures RegistryInv(JoinRoom(rooms, requested, draws, name, socketId, firstTurn).rooms)
  {
    var id := ChooseRoomId(rooms, requested, draws);
    var before := if id in rooms then rooms[id] else Room.NewGameState();
    Room.JoinPreservesInv(before, socketId, DisplayName(name), firstTurn);
    UpdateKeepsInv(rooms, id, Room.Join(before, socketId, DisplayName(name), firstTurn).state);
  }

  lemma PlaceKeepsInv(rooms: Rooms, session: Session, action: Room.Action)
    requires RegistryInv(rooms)
    ensures RegistryInv(PlacePieceIn(rooms, session, action).rooms)
  {
    if LiveRoom(rooms, session).Some? {
      var id := session.room.value;
      Room.PlacePiecePreservesInv(rooms[id], session.slot, action);
      UpdateKeepsInv(rooms, id, Room.PlacePiece(rooms[id], session.slot, action).state);
    }
  }

  lemma RestartKeepsInv(rooms: Rooms, session: Session, firstTurn: Owner)
    requires RegistryInv(rooms)
    ensures RegistryInv(RestartIn(rooms, session, firstTurn).0)
  {
    if LiveRoom(rooms, session).Some? {
      var id := session.room.value;
      Room.RestartPreservesInv(rooms[id], firstTurn);
      UpdateKeepsInv(rooms, id, Room.Restart(rooms[id], firstTurn));
    }
  }

  lemma DisconnectKeepsInv(rooms: Rooms, session: Session, roomNowEmpty: bool)
    requires RegistryInv(rooms)
    ensures RegistryInv(DisconnectIn(rooms, session, roomNowEmpty))
  {
    if LiveRoom(rooms, session).Some? && !roomNowEmpty {
      var id := session.room.value;
      Room.VacatePreservesInv(rooms[id], session.slot);
      UpdateKeepsInv(rooms, id, Room.Vacate(rooms[id], session.slot));
    }
  }

  lemma ChatKeepsInv(rooms: Rooms, session: Session, text: string)
    requires RegistryInv(rooms)
    ensures RegistryInv(ChatIn(rooms, session, text))
    ensures RegistryInv(CheerIn(rooms, session, text).GetOr(rooms))
  {
    if LiveRoom(rooms, session).Some? {
      var id := session.room.value;
      Room.ChatPreservesInv(rooms[id], session.slot, text);
      UpdateKeepsInv(rooms, id, Room.PostChat(rooms[id], session.slot, text));
      if Room.PostCheer(rooms[id], session.slot, text).Some? {
        UpdateKeepsInv(rooms, id, Room.PostCheer(rooms[id], session.slot, text).value);
      }
    }
  }

  lemma StepPreservesInv(rooms: Rooms, e: Event)
    requires RegistryInv(rooms) && Enabled(rooms, e)
    ensures RegistryInv(Step(rooms, e))
  {
    match e
    case JoinEvent(requested, draws, name, socketId, firstTurn) =>
      JoinKeepsInv(rooms, requested, draws, name, socketId, firstTurn);
    case PlaceEvent(session, action) => PlaceKeepsInv(rooms, session, action);
    case RestartEvent(session, firstTurn) => RestartKeepsInv(rooms, session, firstTurn);
    case DisconnectEvent(session, empty) => DisconnectKeepsInv(rooms, session, empty);
    case ChatEvent(session, text) => ChatKeepsInv(rooms, session, text);
    case CheerEvent(session, text) => ChatKeepsInv(rooms, session, text);
  }

  /** Every room reachable from an empty server by any run of events keeps the
      room invariant. */
  lemma {:induction false} RunPreservesInv(rooms: Rooms, es: seq<Event>)
    requires RegistryInv(rooms) && AllEnabled(rooms, es)
    ensures RegistryInv(Run(rooms, es))
    decreases |es|
  {
    if es != [] {
      StepPreservesInv(rooms, es[0]);
      RunPreservesInv(Step(rooms, es[0]), es[1..]);
    }
  }

  /** In any server state reachable from startup, no place_piece command is
      ever answered with `game_over`. */
  lemma GameOverNeverAcknowledged(es: seq<Event>, session: Session, action: Room.Action)
    requires AllEnabled(map[], es)
    ensures PlacePieceIn(Run(map[], es), session, action).ack != Some(Room.Rejected(Room.GameOver))
  {
    RunPreservesInv(map[], es);
    var rooms := Run(map[], es);
    if LiveRoom(rooms, session).Some? {
      Room.GameOverUnreachable(rooms[session.room.value], session.slot, action);
    }
  }
}
