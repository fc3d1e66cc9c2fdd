/** The authoritative state of one room and the handlers of the game server
    (join seating, place_piece, restart_game, disconnect, chat_message, cheer)
    written as pure transitions over that state. */
module Room {
  import opened Wrappers
  import opened Rules
  import ChatLog

  // ------------------------------------------------------------ data model

  /** Pieces still in a player's hand, per size. */
  datatype Inventory = Inventory(small: nat, medium: nat, large: nat) {
    function Count(sz: Size): nat {
      match sz
      case Small => small
      case Medium => medium
      case Large => large
    }

    /** The hand with one piece of size `sz` played. */
    function Take(sz: Size): (inv: Inventory)
      requires Count(sz) > 0
      ensures inv.Count(sz) == Count(sz) - 1
      ensures forall other :: other != sz ==> inv.Count(other) == Count(other)
    {
      match sz
      case Small => this.(small := small - 1)
      case Medium => this.(medium := medium - 1)
      case Large => this.(large := large - 1)
    }
  }

  /** The hand every newly seated and every restarted player receives. */
  const FullHand: Inventory := Inventory(2, 2, 2)

  /** The piece colour the server stores with each seat. */
  function ColorOf(o: Owner): string {
    if o == Blue then "blue" else "orange"
  }

  datatype Player = Player(id: string, name: string, color: string, pieces: Inventory)

  datatype GameState = GameState(
    board: Board,
    blue: Option<Player>,
    orange: Option<Player>,
    currentTurn: Option<Owner>,
    winner: Option<Owner>,
    started: bool,
    chatLog: seq<ChatLog.Message>)
  {
    function SeatOf(o: Owner): Option<Player> {
      if o == Blue then blue else orange
    }

    /** The state with seat `o` replaced and everything else kept. */
    function WithSeat(o: Owner, p: Option<Player>): (s: GameState)
      ensures s.SeatOf(o) == p && s.SeatOf(o.Other()) == SeatOf(o.Other())
      ensures s.board == board && s.currentTurn == currentTurn && s.winner == winner
      ensures s.started == started && s.chatLog == chatLog
    {
      if o == Blue then this.(blue := p) else this.(orange := p)
    }

    predicate BothSeated() {
      blue.Some? && orange.Some?
    }
  }

  /** The state of a freshly created room. */
  function NewGameState(): (s: GameState)
    ensures Inv(s)
    ensures s.blue.None? && s.orange.None? && s.currentTurn.None?
    ensures !s.started && s.winner.None? && s.chatLog == []
    ensures forall x :: At(s.board, x) == []
  {
    EmptyBoardHasNoWinner();
    GameState(EmptyBoard, None, None, None, None, false, [])
  }

  // ------------------------------------------------------------ invariants

  /** The room invariant every handler keeps: the recorded winner is the board's
      winner, a won game is not running, a running game has both seats and a
      turn, every stack was built by legal covers, and the chat log is capped. */
  ghost predicate Inv(s: GameState) {
    && s.winner == CheckWinner(s.board)
    && (s.winner.Some? ==> !s.started)
    && (s.started ==> s.BothSeated() && s.currentTurn.Some?)
    && BoardOrdered(s.board)
    && |s.chatLog| <= ChatLog.Capacity
  }

  /** Seat `o`, when occupied, has exactly its allotment of two pieces per size
      between its hand and the board. */
  ghost predicate Accounted(s: GameState, o: Owner) {
    s.SeatOf(o).Some? ==> forall sz :: Tally(s.board, o, sz) + s.SeatOf(o).value.pieces.Count(sz) == 2
  }

  // ------------------------------------------------------------ join seating

  datatype Joined = Joined(state: GameState, slot: Slot)

  /** Seats a joiner in an existing room: Blue if free, else Orange if free,
      else spectator; then starts the game with `firstTurn` (the server's coin
      flip) when both seats are filled and the room is neither running nor won. */
  function Join(s: GameState, id: string, name: string, firstTurn: Owner): (j: Joined)
    ensures j.slot == Seat(Blue) <==> s.blue.None?
    ensures j.slot == Seat(Orange) <==> s.blue.Some? && s.orange.None?
    ensures j.slot == Spectator <==> s.BothSeated()
    ensures j.slot.Seat? ==> j.state.SeatOf(j.slot.owner) == Some(Player(id, name, ColorOf(j.slot.owner), FullHand))
    ensures forall o :: j.slot != Seat(o) ==> j.state.SeatOf(o) == s.SeatOf(o)
    ensures j.state.board == s.board && j.state.winner == s.winner && j.state.chatLog == s.chatLog
    ensures j.state.started <==> s.started || (j.state.BothSeated() && s.winner.None?)
    ensures j.state.started && !s.started ==> j.state.currentTurn == Some(firstTurn)
    ensures j.state.started == s.started ==> j.state.currentTurn == s.currentTurn
  {
    var (s1, slot) :=
      if s.blue.None? then (s.(blue := Some(Player(id, name, ColorOf(Blue), FullHand))), Seat(Blue))
      else if s.orange.None? then (s.(orange := Some(Player(id, name, ColorOf(Orange), FullHand))), Seat(Orange))
      else (s, Spectator);
    if s1.BothSeated() && !s1.started && s1.winner.None? then
      Joined(s1.(currentTurn := Some(firstTurn), started := true), slot)
    else
      Joined(s1, slot)
  }

  lemma JoinPreservesInv(s: GameState, id: string, name: string, firstTurn: Owner)
    requires Inv(s)
    ensures Inv(Join(s, id, name, firstTurn).state)
  {
    var j := Join(s, id, name, firstTurn);
    assert j.state.board == s.board;
  }

  // ------------------------------------------------------------ place_piece

  /** The rejection reasons of place_piece, one per error string the server
      acknowledges (`spectator`, `not_started`, `game_over`, `not_your_turn`,
      `no piece`, `illegal`, `empty`, `not yours`). `NullSeat` stands for the
      TypeError raised when the acting seat is empty, which the server catches
      and acknowledges with the runtime's message. */
  datatype GameError =
    | Spectating | NotStarted | GameOver | NotYourTurn
    | NoPiece | Illegal | EmptySource | NotYours | NullSeat

  /** A place_piece command. `Unrecognised` is any other `action` string,
      which the server lets fall through to the end-of-turn code. */
  datatype Action =
    | PlaceFromHand(size: Size, to: Cell)
    | MoveOnBoard(from: Cell, to: Cell)
    | Unrecognised

  datatype Ack = Accepted | Rejected(error: GameError)

  datatype Outcome = Outcome(state: GameState, ack: Ack)

  /** The board and hand effect of one command by `o`, or the error it throws. */
  function Apply(s: GameState, o: Owner, action: Action): (r: Result<GameState, GameError>)
    ensures r.Failure? ==> r.error in {NoPiece, Illegal, EmptySource, NotYours, NullSeat}
    ensures r.Success? ==> r.value.winner == s.winner && r.value.started == s.started
    ensures r.Success? ==> r.value.currentTurn == s.currentTurn && r.value.chatLog == s.chatLog
    ensures r.Success? ==> r.value.SeatOf(o.Other()) == s.SeatOf(o.Other())
    ensures r.Success? ==> (r.value.SeatOf(o).Some? <==> s.SeatOf(o).Some?)
    ensures r.Success? && s.SeatOf(o).Some? ==>
      r.value.SeatOf(o) == Some(s.SeatOf(o).value.(pieces := r.value.SeatOf(o).value.pieces))
  {
    match action
    case PlaceFromHand(sz, to) =>
      var seat := s.SeatOf(o);
      if seat.None? then Failure(NullSeat)
      else if seat.value.pieces.Count(sz) == 0 then Failure(NoPiece)
      else if !CanPlaceAt(s.board, to, sz) then Failure(Illegal)
      else
        var board := Put(s.board, to, At(s.board, to) + [Piece(o, sz, seat.value.color)]);
        var p := seat.value.(pieces := seat.value.pieces.Take(sz));
        Success(s.(board := board).WithSeat(o, Some(p)))
    case MoveOnBoard(from, to) =>
      var src := At(s.board, from);
      if |src| == 0 then Failure(EmptySource)
      else if Top(src).owner != o then Failure(NotYours)
      else if !CanPlaceAt(s.board, to, Top(src).size) then Failure(Illegal)
      else Success(s.(board := MoveTop(s.board, from, to)))
    case Unrecognised =>
      Success(s)
  }

  /** End of an accepted command: record the winner and stop the game, or pass
      the turn to the other colour. */
  function Conclude(s: GameState, o: Owner): GameState {
    var w := CheckWinner(s.board);
    if w.Some? then s.(winner := w, started := false)
    else s.(currentTurn := Some(o.Other()))
  }

  /** The place_piece handler. The guards run in the server's order and every
      rejection returns the state it was given. */
  function PlacePiece(s: GameState, slot: Slot, action: Action): (out: Outcome)
    ensures out.ack.Rejected? ==> out.state == s
    ensures out.ack == Rejected(Spectating) <==> slot.Spectator?
    ensures out.ack == Rejected(NotStarted) <==> slot.Seat? && !s.started
    ensures out.ack == Rejected(GameOver) <==> slot.Seat? && s.started && s.winner.Some?
    ensures out.ack == Rejected(NotYourTurn) <==>
              slot.Seat? && s.started && s.winner.None? && s.currentTurn != Some(slot.owner)
    ensures out.ack.Accepted? ==>
              slot.Seat? && s.started && s.winner.None? && s.currentTurn == Some(slot.owner)
    ensures out.state.chatLog == s.chatLog
  {
    if slot.Spectator? then Outcome(s, Rejected(Spectating))
    else if !s.started then Outcome(s, Rejected(NotStarted))
    else if s.winner.Some? then Outcome(s, Rejected(GameOver))
    else if s.currentTurn != Some(slot.owner) then Outcome(s, Rejected(NotYourTurn))
    else
      match Apply(s, slot.owner, action)
      case Failure(e) => Outcome(s, Rejected(e))
      case Success(s1) => Outcome(Conclude(s1, slot.owner), Accepted)
  }

  /** Past the common guards, the per-action checks run in the server's order:
      `no piece`, then `illegal` for a hand placement; `empty`, `not yours`,
      then `illegal` for a move; any other action is accepted. */
  lemma PlacePieceActionGuards(s: GameState, o: Owner, action: Action)
    requires s.started && s.winner.None? && s.currentTurn == Some(o)
    requires s.SeatOf(o).Some?
    ensures var ack := PlacePiece(s, Seat(o), action).ack;
      match action
      case PlaceFromHand(sz, to) =>
        && (ack == Rejected(NoPiece) <==> s.SeatOf(o).value.pieces.Count(sz) == 0)
        && (ack == Rejected(Illegal) <==> s.SeatOf(o).value.pieces.Count(sz) > 0 && !CanPlaceAt(s.board, to, sz))
        && (ack == Accepted <==> s.SeatOf(o).value.pieces.Count(sz) > 0 && CanPlaceAt(s.board, to, sz))
      case MoveOnBoard(from, to) =>
        && (ack == Rejected(EmptySource) <==> |At(s.board, from)| == 0)
        && (ack == Rejected(NotYours) <==> |At(s.board, from)| > 0 && Top(At(s.board, from)).owner != o)
        && (ack == Rejected(Illegal) <==>
              |At(s.board, from)| > 0 && Top(At(s.board, from)).owner == o
              && !CanPlaceAt(s.board, to, Top(At(s.board, from)).size))
        && (ack == Accepted <==>
              |At(s.board, from)| > 0 && Top(At(s.board, from)).owner == o
              && CanPlaceAt(s.board, to, Top(At(s.board, from)).size))
      case Unrecognised => ack == Accepted
  {
  }

  /** An accepted hand placement pushes exactly one new piece of the player's
      colour onto the destination and takes exactly one piece of that size
      from the hand; nothing else on the board or in the hands changes. */
  lemma PlaceFromHandEffect(s: GameState, o: Owner, sz: Size, to: Cell)
    requires PlacePiece(s, Seat(o), PlaceFromHand(sz, to)).ack == Accepted
    ensures var s' := PlacePiece(s, Seat(o), PlaceFromHand(sz, to)).state;
      && s.SeatOf(o).Some? && s'.SeatOf(o).Some?
      && At(s'.board, to) == At(s.board, to) + [Piece(o, sz, s.SeatOf(o).value.color)]
      && (forall y :: y != to ==> At(s'.board, y) == At(s.board, y))
      && s.SeatOf(o).value.pieces.Count(sz) > 0
      && s'.SeatOf(o).value.pieces.Count(sz) == s.SeatOf(o).value.pieces.Count(sz) - 1
      && (forall other :: other != sz ==> s'.SeatOf(o).value.pieces.Count(other) == s.SeatOf(o).value.pieces.Count(other))
      && s'.SeatOf(o) == Some(s.SeatOf(o).value.(pieces := s'.SeatOf(o).value.pieces))
      && s'.SeatOf(o.Other()) == s.SeatOf(o.Other())
      && PieceCount(s'.board) == PieceCount(s.board) + 1
      && (forall p, z :: Tally(s'.board, p, z) == Tally(s.board, p, z) + (if p == o && z == sz then 1 else 0))
  {
    var seat := s.SeatOf(o).value;
    var p := Piece(o, sz, seat.color);
    var board := Put(s.board, to, At(s.board, to) + [p]);
    var s1 := s.(board := board).WithSeat(o, Some(seat.(pieces := seat.pieces.Take(sz))));
    assert Apply(s, o, PlaceFromHand(sz, to)) == Success(s1);
    assert PlacePiece(s, Seat(o), PlaceFromHand(sz, to)).state.board == board;
    assert PlacePiece(s, Seat(o), PlaceFromHand(sz, to)).state.SeatOf(o) == s1.SeatOf(o);
    assert PlacePiece(s, Seat(o), PlaceFromHand(sz, to)).state.SeatOf(o.Other()) == s.SeatOf(o.Other());
    PushCounts(s.board, to, p);
  }

  /** An accepted move pops the source's top piece and pushes that same piece
      onto a different destination; hands, tallies and the piece count stay. */
  lemma MoveOnBoardEffect(s: GameState, o: Owner, from: Cell, to: Cell)
    requires PlacePiece(s, Seat(o), MoveOnBoard(from, to)).ack == Accepted
    ensures var s' := PlacePiece(s, Seat(o), MoveOnBoard(from, to)).state;
      && from != to
      && |At(s.board, from)| > 0 && Top(At(s.board, from)).owner == o
      && At(s'.board, from) == Pop(At(s.board, from))
      && At(s'.board, to) == At(s.board, to) + [Top(At(s.board, from))]
      && (forall y :: y != from && y != to ==> At(s'.board, y) == At(s.board, y))
      && s'.blue == s.blue && s'.orange == s.orange
      && PieceCount(s'.board) == PieceCount(s.board)
      && (forall p, z :: Tally(s'.board, p, z) == Tally(s.board, p, z))
  {
    MoveTopConserves(s.board, from, to);
  }

  /** Moving a piece onto its own cell is always refused, and once the
      player's own piece tops that cell the refusal is `illegal`. */
  lemma SameCellMoveRejected(s: GameState, slot: Slot, x: Cell)
    ensures PlacePiece(s, slot, MoveOnBoard(x, x)).ack != Accepted
    ensures PlacePiece(s, slot, MoveOnBoard(x, x)).state == s
    ensures slot.Seat? && s.started && s.winner.None? && s.currentTurn == Some(slot.owner)
            && |At(s.board, x)| > 0 && Top(At(s.board, x)).owner == slot.owner ==>
              PlacePiece(s, slot, MoveOnBoard(x, x)).ack == Rejected(Illegal)
  {
    var st := At(s.board, x);
    if |st| > 0 {
      assert !CanPlaceAt(s.board, x, Top(st).size);
    }
  }

  /** After an accepted command either the board's winner is recorded and the
      game stops, or the turn passes to the other colour and play goes on. */
  lemma AcceptedEndsOrPassesTurn(s: GameState, o: Owner, action: Action)
    requires PlacePiece(s, Seat(o), action).ack == Accepted
    ensures var s' := PlacePiece(s, Seat(o), action).state;
      && (CheckWinner(s'.board).Some? ==> s'.winner == CheckWinner(s'.board) && !s'.started && s'.currentTurn == s.currentTurn)
      && (CheckWinner(s'.board).None? ==> s'.winner.None? && s'.started && s'.currentTurn == Some(o.Other()))
  {
  }

  /** With the room invariant, an unrecognised action changes nothing but the
      turn, which passes to the other colour. */
  lemma UnrecognisedActionPassesTurn(s: GameState, o: Owner)
    requires Inv(s) && s.started && s.currentTurn == Some(o)
    ensures PlacePiece(s, Seat(o), Unrecognised) == Outcome(s.(currentTurn := Some(o.Other())), Accepted)
  {
  }

  /** The `game_over` rejection and the null-seat TypeError can never be
      produced in a room that satisfies the invariant: `not_started` is checked
      first and a winner is always recorded together with `started = false`. */
  lemma GameOverUnreachable(s: GameState, slot: Slot, action: Action)
    requires Inv(s)
    ensures PlacePiece(s, slot, action).ack != Rejected(GameOver)
    ensures PlacePiece(s, slot, action).ack != Rejected(NullSeat)
  {
  }

  /** An accepted hand placement keeps every stack legally built. */
  lemma PlaceFromHandKeepsOrdered(s: GameState, o: Owner, sz: Size, to: Cell)
    requires BoardOrdered(s.board)
    requires PlacePiece(s, Seat(o), PlaceFromHand(sz, to)).ack == Accepted
    ensures BoardOrdered(PlacePiece(s, Seat(o), PlaceFromHand(sz, to)).state.board)
  {
    var b' := PlacePiece(s, Seat(o), PlaceFromHand(sz, to)).state.board;
    PlaceFromHandEffect(s, o, sz, to);
    PushKeepsOrdered(s.board, to, Piece(o, sz, s.SeatOf(o).value.color));
    forall y
      ensures StackOrdered(At(b', y))
    {
      if y != to {
        assert At(b', y) == At(s.board, y);
      }
    }
  }

  /** An accepted move keeps every stack legally built. */
  lemma MoveOnBoardKeepsOrdered(s: GameState, o: Owner, from: Cell, to: Cell)
    requires BoardOrdered(s.board)
    requires PlacePiece(s, Seat(o), MoveOnBoard(from, to)).ack == Accepted
    ensures BoardOrdered(PlacePiece(s, Seat(o), MoveOnBoard(from, to)).state.board)
  {
    var b' := PlacePiece(s, Seat(o), MoveOnBoard(from, to)).state.board;
    var src := At(s.board, from);
    MoveOnBoardEffect(s, o, from, to);
    PopKeepsOrdered(src);
    PushKeepsOrdered(Put(s.board, from, Pop(src)), to, Top(src));
    forall y
      ensures StackOrdered(At(b', y))
    {
      if y != from && y != to {
        assert At(b', y) == At(s.board, y);
      }
    }
  }

  /** Every command keeps every stack legally built: a placement or a move
      only ever pushes a piece the cover rule admits. */
  lemma PlacePieceKeepsOrdered(s: GameState, slot: Slot, action: Action)
    requires BoardOrdered(s.board)
    ensures BoardOrdered(PlacePiece(s, slot, action).state.board)
  {
    if PlacePiece(s, slot, action).ack.Accepted? {
      match action
      case PlaceFromHand(sz, to) => PlaceFromHandKeepsOrdered(s, slot.owner, sz, to);
      case MoveOnBoard(from, to) => MoveOnBoardKeepsOrdered(s, slot.owner, from, to);
      case Unrecognised =>
    }
  }

  lemma PlacePiecePreservesInv(s: GameState, slot: Slot, action: Action)
    requires Inv(s)
    ensures Inv(PlacePiece(s, slot, action).state)
  {
    PlacePieceKeepsOrdered(s, slot, action);
    if PlacePiece(s, slot, action).ack.Accepted? {
      AcceptedEndsOrPassesTurn(s, slot.owner, action);
    }
  }

  /** Play keeps each seat's allotment: a hand placement moves one piece from
      the hand to the board, a move only relocates pieces. */
  lemma PlacePiecePreservesAccounted(s: GameState, slot: Slot, action: Action, o: Owner)
    requires Accounted(s, o)
    ensures Accounted(PlacePiece(s, slot, action).state, o)
  {
    var out := PlacePiece(s, slot, action);
    if out.ack.Accepted? {
      match action
      case PlaceFromHand(sz, to) =>
        PlaceFromHandEffect(s, slot.owner, sz, to);
      case MoveOnBoard(from, to) =>
        MoveOnBoardEffect(s, slot.owner, from, to);
      case Unrecognised =>
    }
  }

  // ------------------------------------------------------------ restart_game

  /** Restarts unconditionally: empty board, full hands for occupied seats, no
      winner, a fresh first turn, and the game running iff both seats are taken. */
  function Restart(s: GameState, firstTurn: Owner): (s': GameState)
    ensures forall x :: At(s'.board, x) == []
    ensures forall o :: s'.SeatOf(o).Some? <==> s.SeatOf(o).Some?
    ensures forall o :: s.SeatOf(o).Some? ==> s'.SeatOf(o) == Some(s.SeatOf(o).value.(pieces := FullHand))
    ensures s'.winner.None? && s'.currentTurn == Some(firstTurn)
    ensures s'.started <==> s.BothSeated()
    ensures s'.chatLog == s.chatLog
  {
    var reset := (p: Option<Player>) => if p.Some? then Some(p.value.(pieces := FullHand)) else None;
    GameState(EmptyBoard, reset(s.blue), reset(s.orange), Some(firstTurn), None, s.blue.Some? && s.orange.Some?, s.chatLog)
  }

  lemma RestartPreservesInv(s: GameState, firstTurn: Owner)
    requires Inv(s)
    ensures Inv(Restart(s, firstTurn))
  {
    EmptyBoardHasNoWinner();
  }

  /** After a restart every occupied seat holds its full allotment in hand. */
  lemma RestartEstablishesAccounted(s: GameState, firstTurn: Owner, o: Owner)
    ensures Accounted(Restart(s, firstTurn), o)
  {
    forall sz {
      EmptyBoardTally(o, sz);
    }
  }

  // ------------------------------------------------------------ disconnect

  /** The room-side effect of a disconnect: the leaver's seat (if any) is
      emptied and the game stops, whoever left. */
  function Vacate(s: GameState, slot: Slot): (s': GameState)
    ensures slot.Seat? ==> s'.SeatOf(slot.owner).None?
    ensures forall o :: slot != Seat(o) ==> s'.SeatOf(o) == s.SeatOf(o)
    ensures !s'.started
    ensures s'.board == s.board && s'.winner == s.winner && s'.currentTurn == s.currentTurn
    ensures s'.chatLog == s.chatLog
  {
    var s1 := if slot.Seat? then s.WithSeat(slot.owner, None) else s;
    s1.(started := false)
  }

  lemma VacatePreservesInv(s: GameState, slot: Slot)
    requires Inv(s)
    ensures Inv(Vacate(s, slot))
  {
  }

  /** A spectator leaving stops a running match: the players are then refused
      with `not_started` until a join or a restart starts the game again. */
  lemma SpectatorLeavingStopsMatch(s: GameState, o: Owner, action: Action)
    requires s.started
    ensures Vacate(s, Spectator).blue == s.blue && Vacate(s, Spectator).orange == s.orange
    ensures PlacePiece(Vacate(s, Spectator), Seat(o), action) == Outcome(Vacate(s, Spectator), Rejected(NotStarted))
  {
  }

  /** The allotment is not kept across a reseat: when a seated player leaves
      mid-game with pieces on the board, the next joiner takes the seat with a
      full hand and the game resumes on the same board, so that colour then has
      more than two pieces of a size. */
  lemma RejoinExceedsAllotment(s: GameState, o: Owner, sz: Size, id: string, name: string, firstTurn: Owner)
    requires Inv(s) && s.started && Accounted(s, o)
    requires Tally(s.board, o, sz) > 0
    requires o == Blue || s.blue.Some?
    ensures var j := Join(Vacate(s, Seat(o)), id, name, firstTurn);
      && j.slot == Seat(o)
      && j.state.started
      && j.state.board == s.board
      && Tally(j.state.board, o, sz) + j.state.SeatOf(o).value.pieces.Count(sz) > 2
      && !Accounted(j.state, o)
  {
  }

  // ------------------------------------------------------------ chat and cheer

  /** The display name stored with messages from connections without a seat. */
  const SpectatorName: string := "観戦者"

  /** Longest text kept for chat messages and for cheers. */
  const ChatTextLimit: nat := 200
  const CheerTextLimit: nat := 50

  /** The sender name of a chat message: the seat's name when the sender's
      seat is occupied, else the spectator name. */
  function ChatSender(s: GameState, slot: Slot): string {
    if slot == Seat(Blue) && s.blue.Some? then s.blue.value.name
    else if slot == Seat(Orange) && s.orange.Some? then s.orange.value.name
    else SpectatorName
  }

  /** The chat_message handler: the text is cut to 200 characters, an empty
      text is dropped, and otherwise the message is appended to the capped log. */
  function PostChat(s: GameState, slot: Slot, rawText: string): (s': GameState)
    ensures s'.board == s.board && s'.blue == s.blue && s'.orange == s.orange
    ensures s'.currentTurn == s.currentTurn && s'.winner == s.winner && s'.started == s.started
    ensures rawText == [] ==> s' == s
    ensures rawText != [] ==>
      && |s'.chatLog| > 0
      && var last := s'.chatLog[|s'.chatLog| - 1];
      && last == ChatLog.Message(ChatSender(s, slot), last.text, slot, ChatLog.Chat)
      && last.text <= rawText && |last.text| == Min(|rawText|, ChatTextLimit)
    ensures rawText != [] && |s.chatLog| <= ChatLog.Capacity ==>
      s'.chatLog == ChatLog.Recent(s.chatLog + [s'.chatLog[|s'.chatLog| - 1]])
    ensures |s.chatLog| <= ChatLog.Capacity ==> |s'.chatLog| <= ChatLog.Capacity
  {
    var text := ChatLog.Truncate(rawText, ChatTextLimit);
    if text == [] then s
    else s.(chatLog := ChatLog.Append(s.chatLog, ChatLog.Message(ChatSender(s, slot), text, slot, ChatLog.Chat)))
  }

  /** The sender name of a cheer. Unlike chat, an Orange sender's seat is
      read without a null check; None stands for the TypeError that follows. */
  function CheerSender(s: GameState, slot: Slot): (name: Option<string>)
    ensures name.None? <==> slot == Seat(Orange) && s.orange.None?
  {
    if slot == Seat(Blue) && s.blue.Some? then Some(s.blue.value.name)
    else if slot == Seat(Orange) then
      if s.orange.Some? then Some(s.orange.value.name) else None
    else Some(SpectatorName)
  }

  /** The cheer handler: as chat, with a 50-character limit and the cheer kind;
      None when the sender lookup throws, before anything is stored. */
  function PostCheer(s: GameState, slot: Slot, rawText: string): (r: Option<GameState>)
    ensures r.None? <==> slot == Seat(Orange) && s.orange.None?
    ensures r.Some? ==> r.value == s.(chatLog := r.value.chatLog)
    ensures r.Some? && rawText == [] ==> r.value == s
    ensures r.Some? && rawText != [] ==>
      var log := r.value.chatLog;
      && |log| > 0
      && log[|log| - 1] == ChatLog.Message(ChatSender(s, slot), log[|log| - 1].text, slot, ChatLog.Cheer)
      && log[|log| - 1].text <= rawText && |log[|log| - 1].text| == Min(|rawText|, CheerTextLimit)
    ensures r.Some? && rawText != [] && |s.chatLog| <= ChatLog.Capacity ==>
      var log := r.value.chatLog;
      |log| > 0 && log == ChatLog.Recent(s.chatLog + [log[|log| - 1]])
    ensures r.Some? && |s.chatLog| <= ChatLog.Capacity ==> |r.value.chatLog| <= ChatLog.Capacity
  {
    var name := CheerSender(s, slot);
    if name.None? then None
    else
      var text := ChatLog.Truncate(rawText, CheerTextLimit);
      if text == [] then Some(s)
      else Some(s.(chatLog := ChatLog.Append(s.chatLog, ChatLog.Message(name.value, text, slot, ChatLog.Cheer))))
  }

  lemma ChatPreservesInv(s: GameState, slot: Slot, text: string)
    requires Inv(s)
    ensures Inv(PostChat(s, slot, text))
    ensures PostCheer(s, slot, text).Some? ==> Inv(PostCheer(s, slot, text).value)
  {
  }
}
