/** The pure rules of the stacking tic-tac-toe game: piece ranks, the cover
    ("gobble") rule, and the scan of the eight lines for a winner. */
module Rules {
  import opened Wrappers

  /** The two player colours, named as the server names its seats. */
  datatype Owner = Blue | Orange {
    function Other(): (o: Owner)
      ensures o != this
    {
      if this == Blue then Orange else Blue
    }
  }

  /** The role a connection holds in its room. */
  datatype Slot = Seat(owner: Owner) | Spectator

  datatype Size = Small | Medium | Large

  /** The fixed rank table of the server: small 1, medium 2, large 3. */
  function Rank(sz: Size): nat {
    match sz
    case Small => 1
    case Medium => 2
    case Large => 3
  }

  datatype Piece = Piece(owner: Owner, size: Size, color: string)

  /** One board cell: a LIFO stack whose last element is the top piece. */
  type Stack = seq<Piece>

  type Coord = i: int | 0 <= i < 3

  datatype Cell = Cell(r: Coord, c: Coord)

  type Row = row: seq<Stack> | |row| == 3 witness [[], [], []]

  const EmptyRow: Row := [[], [], []]

  /** The 3x3 board, indexed as `board[r][c]`. */
  type Board = b: seq<Row> | |b| == 3 witness [EmptyRow, EmptyRow, EmptyRow]

  const EmptyBoard: Board := [EmptyRow, EmptyRow, EmptyRow]

  function At(b: Board, x: Cell): Stack {
    b[x.r][x.c]
  }

  /** The board with the stack at `x` replaced and every other stack kept. */
  function Put(b: Board, x: Cell, st: Stack): (b': Board)
    ensures At(b', x) == st
    ensures forall y :: y != x ==> At(b', y) == At(b, y)
  {
    b[x.r := b[x.r][x.c := st]]
  }

  function Top(st: Stack): Piece
    requires |st| > 0
  {
    st[|st| - 1]
  }

  function Pop(st: Stack): Stack
    requires |st| > 0
  {
    st[..|st| - 1]
  }

  /** The cover rule: a piece may go on an empty cell, or on a cell whose top
      piece has a strictly smaller rank. */
  predicate CanPlaceAt(b: Board, to: Cell, sz: Size) {
    var st := At(b, to);
    |st| == 0 || Rank(sz) > Rank(Top(st).size)
  }

  /** A stack built by legal covers: ranks strictly increase from bottom to top. */
  ghost predicate StackOrdered(st: Stack) {
    forall i, j :: 0 <= i < j < |st| ==> Rank(st[i].size) < Rank(st[j].size)
  }

  ghost predicate BoardOrdered(b: Board) {
    forall x :: StackOrdered(At(b, x))
  }

  /** Equal or smaller pieces never cover, and an empty cell always accepts. */
  lemma CoverNeedsStrictlyLarger(b: Board, to: Cell, sz: Size)
    ensures |At(b, to)| == 0 ==> CanPlaceAt(b, to, sz)
    ensures |At(b, to)| > 0 && Rank(sz) <= Rank(Top(At(b, to)).size) ==> !CanPlaceAt(b, to, sz)
    ensures CanPlaceAt(b, to, sz) && |At(b, to)| > 0 ==> sz != Top(At(b, to)).size
  {
  }

  /** On a legally built stack the top is its largest piece, so the cover rule
      is the same as "larger than every piece already in the cell". */
  lemma CanPlaceIffLargerThanAll(b: Board, to: Cell, sz: Size)
    requires StackOrdered(At(b, to))
    ensures CanPlaceAt(b, to, sz) <==> forall i :: 0 <= i < |At(b, to)| ==> Rank(At(b, to)[i].size) < Rank(sz)
  {
    var st := At(b, to);
    if CanPlaceAt(b, to, sz) && |st| > 0 {
      forall i | 0 <= i < |st|
        ensures Rank(st[i].size) < Rank(sz)
      {
        if i < |st| - 1 {
          assert Rank(st[i].size) < Rank(st[|st| - 1].size);
        }
      }
    }
  }

  /** A legally built stack holds at most one piece of each size. */
  lemma {:induction false} OrderedStackHeight(st: Stack)
    requires StackOrdered(st)
    ensures |st| <= 3
    ensures |st| > 0 ==> Rank(Top(st).size) >= |st|
  {
    if |st| > 0 {
      var p := Pop(st);
      assert StackOrdered(p);
      OrderedStackHeight(p);
      if |p| > 0 {
        assert Rank(Top(p).size) < Rank(Top(st).size);
      }
    }
  }

  /** Pushing a piece the cover rule admits keeps a stack ordered. */
  lemma PushKeepsOrdered(b: Board, to: Cell, p: Piece)
    requires StackOrdered(At(b, to))
    requires CanPlaceAt(b, to, p.size)
    ensures StackOrdered(At(b, to) + [p])
  {
    CanPlaceIffLargerThanAll(b, to, p.size);
  }

  lemma PopKeepsOrdered(st: Stack)
    requires |st| > 0 && StackOrdered(st)
    ensures StackOrdered(Pop(st))
  {
  }

  // ---------------------------------------------------------------- lines

  datatype Line = Line(a: Cell, b: Cell, c: Cell)

  /** The eight lines in the order the server scans them: rows, columns, diagonals. */
  const Lines: seq<Line> := [
    Line(Cell(0, 0), Cell(0, 1), Cell(0, 2)),
    Line(Cell(1, 0), Cell(1, 1), Cell(1, 2)),
    Line(Cell(2, 0), Cell(2, 1), Cell(2, 2)),
    Line(Cell(0, 0), Cell(1, 0), Cell(2, 0)),
    Line(Cell(0, 1), Cell(1, 1), Cell(2, 1)),
    Line(Cell(0, 2), Cell(1, 2), Cell(2, 2)),
    Line(Cell(0, 0), Cell(1, 1), Cell(2, 2)),
    Line(Cell(0, 2), Cell(1, 1), Cell(2, 0))
  ]

  function TopOwner(b: Board, x: Cell): Option<Owner> {
    if |At(b, x)| == 0 then None else Some(Top(At(b, x)).owner)
  }

  /** The owner of the line when all three top owners agree and none is empty. */
  function LineOwner(b: Board, l: Line): Option<Owner> {
    var o := TopOwner(b, l.a);
    if o.Some? && TopOwner(b, l.b) == o && TopOwner(b, l.c) == o then o else None
  }

  /** Reference definition: `o` shows on top of all three non-empty cells of `l`. */
  ghost predicate Wins(b: Board, l: Line, o: Owner) {
    && |At(b, l.a)| > 0 && Top(At(b, l.a)).owner == o
    && |At(b, l.b)| > 0 && Top(At(b, l.b)).owner == o
    && |At(b, l.c)| > 0 && Top(At(b, l.c)).owner == o
  }

  /** No line among `Lines[from..upto]` is won by anybody. */
  ghost predicate NoWinBetween(b: Board, from: nat, upto: nat)
    requires upto <= |Lines|
  {
    forall k, o :: from <= k < upto ==> !Wins(b, Lines[k], o)
  }

  /** The scan from line `i` on: the owner of the first won line, if any. */
  function ScanLines(b: Board, i: nat): (r: Option<Owner>)
    requires i <= |Lines|
    ensures r.Some? ==> exists k :: i <= k < |Lines| && Wins(b, Lines[k], r.value) && NoWinBetween(b, i, k)
    ensures r.None? <==> NoWinBetween(b, i, |Lines|)
    decreases |Lines| - i
  {
    if i == |Lines| then None
    else
      var o := LineOwner(b, Lines[i]);
      if o.Some? then
        assert Wins(b, Lines[i], o.value);
        assert NoWinBetween(b, i, i);
        o
      else
        assert forall p :: !Wins(b, Lines[i], p);
        ScanLines(b, i + 1)
  }

  /** The winner of the board: the owner of the first won line in scan order,
      and no winner exactly when no line is won. */
  function CheckWinner(b: Board): (r: Option<Owner>)
    ensures r.Some? ==> exists k :: 0 <= k < |Lines| && Wins(b, Lines[k], r.value) && NoWinBetween(b, 0, k)
    ensures r.None? <==> forall k, o :: 0 <= k < |Lines| ==> !Wins(b, Lines[k], o)
  {
    ScanLines(b, 0)
  }

  /** A board on which no line is won has no winner. */
  lemma NoWonLineNoWinner(b: Board)
    requires forall k, o :: 0 <= k < |Lines| ==> !Wins(b, Lines[k], o)
    ensures CheckWinner(b) == None
  {
  }

  /** When `o` wins some line and the other colour wins none, `o` is the
      winner reported, whichever line it is. */
  lemma SoleWinnerReported(b: Board, o: Owner, k: nat)
    requires k < |Lines| && Wins(b, Lines[k], o)
    requires forall j :: 0 <= j < |Lines| ==> !Wins(b, Lines[j], o.Other())
    ensures CheckWinner(b) == Some(o)
  {
  }

  lemma EmptyBoardHasNoWinner()
    ensures CheckWinner(EmptyBoard) == None
  {
    forall k, o | 0 <= k < |Lines|
      ensures !Wins(EmptyBoard, Lines[k], o)
    {
      assert At(EmptyBoard, Lines[k].a) == [];
    }
    NoWonLineNoWinner(EmptyBoard);
  }

  // ------------------------------------------------------------- counting

  /** Every cell of the board, each once. */
  const AllCells: seq<Cell> := [
    Cell(0, 0), Cell(0, 1), Cell(0, 2),
    Cell(1, 0), Cell(1, 1), Cell(1, 2),
    Cell(2, 0), Cell(2, 1), Cell(2, 2)
  ]

  ghost predicate Distinct(cells: seq<Cell>) {
    forall i, j :: 0 <= i < j < |cells| ==> cells[i] != cells[j]
  }

  lemma AllCellsComplete(x: Cell)
    ensures x in AllCells
    ensures Distinct(AllCells)
  {
  }

  /** The sum of `f` over the stacks of the given cells. */
  function SumCells(b: Board, cells: seq<Cell>, f: Stack -> nat): nat {
    if cells == [] then 0 else f(At(b, cells[0])) + SumCells(b, cells[1..], f)
  }

  /** Replacing one stack changes a sum over distinct cells by that stack's share only. */
  lemma {:induction false} SumCellsPut(b: Board, cells: seq<Cell>, f: Stack -> nat, x: Cell, st: Stack)
    requires Distinct(cells)
    ensures x in cells ==> SumCells(Put(b, x, st), cells, f) + f(At(b, x)) == SumCells(b, cells, f) + f(st)
    ensures x !in cells ==> SumCells(Put(b, x, st), cells, f) == SumCells(b, cells, f)
  {
    if cells != [] {
      assert Distinct(cells[1..]);
      SumCellsPut(b, cells[1..], f, x, st);
      if cells[0] == x {
        assert x !in cells[1..];
      }
    }
  }

  /** How many pieces of owner `o` and size `sz` a stack holds. */
  function StackTally(st: Stack, o: Owner, sz: Size): nat {
    if st == [] then 0
    else StackTally(Pop(st), o, sz) + (if Top(st).owner == o && Top(st).size == sz then 1 else 0)
  }

  lemma StackTallyPush(st: Stack, p: Piece, o: Owner, sz: Size)
    ensures StackTally(st + [p], o, sz) == StackTally(st, o, sz) + (if p.owner == o && p.size == sz then 1 else 0)
  {
    assert Pop(st + [p]) == st;
  }

  /** Pieces of owner `o` and size `sz` on the whole board. */
  function Tally(b: Board, o: Owner, sz: Size): nat {
    SumCells(b, AllCells, st => StackTally(st, o, sz))
  }

  /** Pieces on the whole board. */
  function PieceCount(b: Board): nat {
    SumCells(b, AllCells, st => |st|)
  }

  lemma {:induction false} SumCellsEmpty(cells: seq<Cell>, f: Stack -> nat)
    requires f([]) == 0
    ensures SumCells(EmptyBoard, cells, f) == 0
  {
    if cells != [] {
      SumCellsEmpty(cells[1..], f);
    }
  }

  lemma EmptyBoardTally(o: Owner, sz: Size)
    ensures Tally(EmptyBoard, o, sz) == 0
    ensures PieceCount(EmptyBoard) == 0
  {
    SumCellsEmpty(AllCells, st => StackTally(st, o, sz));
    SumCellsEmpty(AllCells, st => |st|);
  }

  /** Moves the top piece of `from` onto `to`: pop, then push. */
  function MoveTop(b: Board, from: Cell, to: Cell): Board
    requires |At(b, from)| > 0
  {
    var top := Top(At(b, from));
    var b1 := Put(b, from, Pop(At(b, from)));
    Put(b1, to, At(b1, to) + [top])
  }

  /** Pushing one piece adds exactly that piece to the tallies and one to the count. */
  lemma PushCounts(b: Board, to: Cell, p: Piece)
    ensures forall o, sz ::
              Tally(Put(b, to, At(b, to) + [p]), o, sz) == Tally(b, o, sz) + (if p.owner == o && p.size == sz then 1 else 0)
    ensures PieceCount(Put(b, to, At(b, to) + [p])) == PieceCount(b) + 1
  {
    AllCellsComplete(to);
    var b' := Put(b, to, At(b, to) + [p]);
    forall o, sz
      ensures Tally(b', o, sz) == Tally(b, o, sz) + (if p.owner == o && p.size == sz then 1 else 0)
    {
      SumCellsPut(b, AllCells, st => StackTally(st, o, sz), to, At(b, to) + [p]);
      StackTallyPush(At(b, to), p, o, sz);
    }
    SumCellsPut(b, AllCells, st => |st|, to, At(b, to) + [p]);
  }

  /** Moving a top piece relocates it: every owner/size tally and the total
      piece count are unchanged. */
  lemma MoveTopConserves(b: Board, from: Cell, to: Cell)
    requires |At(b, from)| > 0 && from != to
    ensures forall o, sz :: Tally(MoveTop(b, from, to), o, sz) == Tally(b, o, sz)
    ensures PieceCount(MoveTop(b, from, to)) == PieceCount(b)
  {
    AllCellsComplete(from);
    var st := At(b, from);
    var top := Top(st);
    var b1 := Put(b, from, Pop(st));
    assert Pop(st) + [top] == st;
    forall o, sz
      ensures Tally(b1, o, sz) + (if top.owner == o && top.size == sz then 1 else 0) == Tally(b, o, sz)
    {
      SumCellsPut(b, AllCells, st => StackTally(st, o, sz), from, Pop(st));
    }
    SumCellsPut(b, AllCells, st => |st|, from, Pop(st));
    PushCounts(b1, to, top);
  }
}
