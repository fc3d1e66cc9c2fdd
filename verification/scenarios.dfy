/** A concrete play worked through the model: Blue and Orange alternate
    large pieces at (0,0), (1,1), (0,1), (2,2); Blue then completes the top
    row at (0,2). */
module Scenarios {
  import opened Wrappers
  import opened Rules
  import opened Room

  const BluePlayer: Player := Player("b", "Bea", "blue", FullHand)
  const OrangePlayer: Player := Player("o", "Oda", "orange", FullHand)

  const BL: Piece := Piece(Blue, Size.Large, "blue")
  const BM: Piece := Piece(Blue, Size.Medium, "blue")
  const OL: Piece := Piece(Orange, Size.Large, "orange")

  const B1: Board := [[[BL], [], []], [[], [], []], [[], [], []]]
  const B2: Board := [[[BL], [], []], [[], [OL], []], [[], [], []]]
  const B3: Board := [[[BL], [BL], []], [[], [OL], []], [[], [], []]]
  const B4: Board := [[[BL], [BL], []], [[], [OL], []], [[], [], [OL]]]
  const B5: Board := [[[BL], [BL], [BM]], [[], [OL], []], [[], [], [OL]]]

  function Running(b: Board, blueHand: Inventory, orangeHand: Inventory, turn: Owner): GameState {
    GameState(b, Some(BluePlayer.(pieces := blueHand)), Some(OrangePlayer.(pieces := orangeHand)), Some(turn), None, true, [])
  }

  /** Two boards with the same stack in every cell are the same board. */
  lemma SameCells(a: Board, b: Board)
    requires forall r: Coord, c: Coord :: At(a, Cell(r, c)) == At(b, Cell(r, c))
    ensures a == b
  {
    forall r | 0 <= r < 3
      ensures a[r] == b[r]
    {
      assert a[r][0] == At(a, Cell(r, 0)) && a[r][1] == At(a, Cell(r, 1)) && a[r][2] == At(a, Cell(r, 2));
    }
  }

  /** Every board of the opening lies below B4, where each line has an empty
      cell except the main diagonal, whose tops are Blue, Orange, Orange. */
  lemma NoLineWonInOpening(b: Board)
    requires b in {B1, B2, B3, B4}
    ensures forall k, o :: 0 <= k < |Lines| ==> !Wins(b, Lines[k], o)
  {
    forall k, o | 0 <= k < |Lines|
      ensures !Wins(b, Lines[k], o)
    {
      if k == 0 || k == 5 || k == 7 {
        assert At(b, Cell(0, 2)) == [];
      } else if k == 1 || k == 3 {
        assert At(b, Cell(1, 0)) == [];
      } else if k == 2 {
        assert At(b, Cell(2, 0)) == [];
      } else if k == 4 {
        assert At(b, Cell(2, 1)) == [];
      } else {
        assert |At(b, Cell(2, 2))| == 0 || Top(At(b, Cell(0, 0))).owner != Top(At(b, Cell(1, 1))).owner;
      }
    }
  }

  lemma NoWinnerInOpening(b: Board)
    requires b in {B1, B2, B3, B4}
    ensures CheckWinner(b) == None
  {
    NoLineWonInOpening(b);
    NoWonLineNoWinner(b);
  }

  /** The four opening moves are accepted, no line completes, and the turn
      alternates Blue, Orange, Blue, Orange, Blue. */
  lemma OpeningMoves()
    ensures PlacePiece(Running(EmptyBoard, FullHand, FullHand, Blue), Seat(Blue), PlaceFromHand(Size.Large, Cell(0, 0)))
      == Outcome(Running(B1, Inventory(2, 2, 1), FullHand, Orange), Accepted)
    ensures PlacePiece(Running(B1, Inventory(2, 2, 1), FullHand, Orange), Seat(Orange), PlaceFromHand(Size.Large, Cell(1, 1)))
      == Outcome(Running(B2, Inventory(2, 2, 1), Inventory(2, 2, 1), Blue), Accepted)
    ensures PlacePiece(Running(B2, Inventory(2, 2, 1), Inventory(2, 2, 1), Blue), Seat(Blue), PlaceFromHand(Size.Large, Cell(0, 1)))
      == Outcome(Running(B3, Inventory(2, 2, 0), Inventory(2, 2, 1), Orange), Accepted)
    ensures PlacePiece(Running(B3, Inventory(2, 2, 0), Inventory(2, 2, 1), Orange), Seat(Orange), PlaceFromHand(Size.Large, Cell(2, 2)))
      == Outcome(Running(B4, Inventory(2, 2, 0), Inventory(2, 2, 0), Blue), Accepted)
  {
    OpeningMove1();
    OpeningMove2();
    OpeningMove3();
    OpeningMove4();
  }

  lemma OpeningMove1()
    ensures PlacePiece(Running(EmptyBoard, FullHand, FullHand, Blue), Seat(Blue), PlaceFromHand(Size.Large, Cell(0, 0)))
      == Outcome(Running(B1, Inventory(2, 2, 1), FullHand, Orange), Accepted)
  {
    SameCells(Put(EmptyBoard, Cell(0, 0), [] + [BL]), B1);
    NoWinnerInOpening(B1);
  }

  lemma OpeningMove2()
    ensures PlacePiece(Running(B1, Inventory(2, 2, 1), FullHand, Orange), Seat(Orange), PlaceFromHand(Size.Large, Cell(1, 1)))
      == Outcome(Running(B2, Inventory(2, 2, 1), Inventory(2, 2, 1), Blue), Accepted)
  {
    SameCells(Put(B1, Cell(1, 1), [] + [OL]), B2);
    NoWinnerInOpening(B2);
  }

  lemma OpeningMove3()
    ensures PlacePiece(Running(B2, Inventory(2, 2, 1), Inventory(2, 2, 1), Blue), Seat(Blue), PlaceFromHand(Size.Large, Cell(0, 1)))
      == Outcome(Running(B3, Inventory(2, 2, 0), Inventory(2, 2, 1), Orange), Accepted)
  {
    SameCells(Put(B2, Cell(0, 1), [] + [BL]), B3);
    NoWinnerInOpening(B3);
  }

  lemma OpeningMove4()
    ensures PlacePiece(Running(B3, Inventory(2, 2, 0), Inventory(2, 2, 1), Orange), Seat(Orange), PlaceFromHand(Size.Large, Cell(2, 2)))
      == Outcome(Running(B4, Inventory(2, 2, 0), Inventory(2, 2, 0), Blue), Accepted)
  {
    SameCells(Put(B3, Cell(2, 2), [] + [OL]), B4);
    NoWinnerInOpening(B4);
  }

  /** Blue has used both large pieces, so a third large at (0,2) is refused
      with `no piece` and the room is left as it was. */
  lemma ThirdLargeRefused()
    ensures var s4 := Running(B4, Inventory(2, 2, 0), Inventory(2, 2, 0), Blue);
      PlacePiece(s4, Seat(Blue), PlaceFromHand(Size.Large, Cell(0, 2))) == Outcome(s4, Rejected(NoPiece))
  {
  }

  /** On the final board Blue owns the top row and Orange owns no line. */
  lemma BlueOnlyWinsFinal()
    ensures Wins(B5, Lines[0], Blue)
    ensures forall j :: 0 <= j < |Lines| ==> !Wins(B5, Lines[j], Orange)
  {
    forall j | 0 <= j < |Lines|
      ensures !Wins(B5, Lines[j], Orange)
    {
      assert Top(At(B5, Cell(0, 0))).owner == Blue;
      assert At(B5, Cell(1, 0)) == [] && At(B5, Cell(2, 0)) == [] && At(B5, Cell(2, 1)) == [] && At(B5, Cell(1, 2)) == [];
      assert Top(At(B5, Cell(0, 2))).owner == Blue && Top(At(B5, Cell(0, 1))).owner == Blue;
    }
  }

  /** A medium at (0,2) completes the top row: Blue is recorded as winner
      and the game stops. */
  lemma TopRowCompletes()
    ensures var s4 := Running(B4, Inventory(2, 2, 0), Inventory(2, 2, 0), Blue);
      var out := PlacePiece(s4, Seat(Blue), PlaceFromHand(Size.Medium, Cell(0, 2)));
      out.ack == Accepted && out.state.board == B5 && out.state.winner == Some(Blue) && !out.state.started
  {
    SameCells(Put(B4, Cell(0, 2), [] + [BM]), B5);
    BlueOnlyWinsFinal();
    SoleWinnerReported(B5, Blue, 0);
  }
}
