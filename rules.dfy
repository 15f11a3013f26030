/**
 The pure half of the game: the empty board, the winning lines, cell lookup and
 replacement, win and tie detection, and the move that computes the next
 `MoveResult` from a board.
 */
module Rules {
  import opened Domain

  /** A winning combination: three positions. */
  type Line = seq<CellPosition>

  const AllHorizPositions: seq<HorizontalPosition> := [Left, HCenter, Right]
  const AllVertPositions: seq<VerticalPosition> := [Top, VCenter, Bottom]

  predicate Distinct<T(==)>(s: seq<T>) {
    forall i, j :: 0 <= i < j < |s| ==> s[i] != s[j]
  }

  /** The positions of a list of cells, in list order. */
  function Positions(cells: seq<Cell>): seq<CellPosition> {
    seq(|cells|, i requires 0 <= i < |cells| => cells[i].position)
  }

  lemma PositionsMembers(cells: seq<Cell>)
    ensures forall p :: p in Positions(cells) <==> HasCellAt(cells, p)
  {
    forall p | HasCellAt(cells, p) ensures p in Positions(cells) {
      var i :| 0 <= i < |cells| && cells[i].position == p;
      assert Positions(cells)[i] == p;
    }
  }

  /** Some cell of the list sits at `pos`. */
  predicate HasCellAt(cells: seq<Cell>, pos: CellPosition) {
    exists i :: 0 <= i < |cells| && cells[i].position == pos
  }

  // ---------------------------------------------------------------------------
  // Positions and lines
  // ---------------------------------------------------------------------------

  /** Concatenating two duplicate-free lists with no common element gives a
      duplicate-free list. */
  lemma DistinctConcat<T>(a: seq<T>, b: seq<T>)
    requires Distinct(a) && Distinct(b)
    requires forall x :: x in a ==> x !in b
    ensures Distinct(a + b)
  {
    forall i, j | 0 <= i < j < |a + b|
      ensures (a + b)[i] != (a + b)[j]
    {
      if j < |a| {
      } else if i < |a| {
        assert (a + b)[i] in a && (a + b)[j] in b;
      } else {
        assert (a + b)[i] == b[i - |a|] && (a + b)[j] == b[j - |a|];
      }
    }
  }

  /** `vs.map { v in make(h, v) }`: the positions with horizontal coordinate `h`. */
  function Along(h: HorizontalPosition, vs: seq<VerticalPosition>): Line {
    seq(|vs|, i requires 0 <= i < |vs| => Make(h, vs[i]))
  }

  /** `hs.map { h in make(h, v) }`: the positions with vertical coordinate `v`. */
  function Across(v: VerticalPosition, hs: seq<HorizontalPosition>): Line {
    seq(|hs|, i requires 0 <= i < |hs| => Make(hs[i], v))
  }

  /** `hs.flatMap { h in vs.map { v in make(h, v) } }`. */
  function Grid(hs: seq<HorizontalPosition>, vs: seq<VerticalPosition>): seq<CellPosition> {
    if hs == [] then [] else Along(hs[0], vs) + Grid(hs[1..], vs)
  }

  lemma AlongMembers(h: HorizontalPosition, vs: seq<VerticalPosition>)
    ensures forall p :: p in Along(h, vs) <==> p.hPosition == h && p.vPosition in vs
    ensures Distinct(vs) ==> Distinct(Along(h, vs))
  {
    forall p: CellPosition | p.hPosition == h && p.vPosition in vs
      ensures p in Along(h, vs)
    {
      var i :| 0 <= i < |vs| && vs[i] == p.vPosition;
      assert Along(h, vs)[i] == p;
    }
  }

  /** The flat map pairs every horizontal with every vertical coordinate, and
      pairs each combination once when the coordinate lists have no repeats. */
  lemma {:induction false} GridMembers(hs: seq<HorizontalPosition>, vs: seq<VerticalPosition>)
    ensures |Grid(hs, vs)| == |hs| * |vs|
    ensures forall p :: p in Grid(hs, vs) <==> p.hPosition in hs && p.vPosition in vs
    ensures Distinct(hs) && Distinct(vs) ==> Distinct(Grid(hs, vs))
  {
    if hs != [] {
      AlongMembers(hs[0], vs);
      GridMembers(hs[1..], vs);
      assert forall h :: h in hs <==> h == hs[0] || h in hs[1..];
      if Distinct(hs) && Distinct(vs) {
        assert Distinct(hs[1..]);
        DistinctConcat(Along(hs[0], vs), Grid(hs[1..], vs));
      }
    }
  }

  function AllPositions(): seq<CellPosition> {
    Grid(AllHorizPositions, AllVertPositions)
  }

  lemma AlongAll(h: HorizontalPosition)
    ensures Along(h, AllVertPositions) == [Make(h, Top), Make(h, VCenter), Make(h, Bottom)]
  {
    var vs := AllVertPositions;
    assert vs[1..] == [VCenter, Bottom] && vs[1..][1..] == [Bottom] && vs[1..][1..][1..] == [];
  }

  lemma AcrossAll(v: VerticalPosition)
    ensures Across(v, AllHorizPositions) == [Make(Left, v), Make(HCenter, v), Make(Right, v)]
  {
    var hs := AllHorizPositions;
    assert hs[1..] == [HCenter, Right] && hs[1..][1..] == [Right] && hs[1..][1..][1..] == [];
  }

  /** The nine positions in horizontal-major order. */
  lemma AllPositionsInOrder()
    ensures AllPositions() == [
      Make(Left, Top), Make(Left, VCenter), Make(Left, Bottom),
      Make(HCenter, Top), Make(HCenter, VCenter), Make(HCenter, Bottom),
      Make(Right, Top), Make(Right, VCenter), Make(Right, Bottom)]
  {
    var hs := AllHorizPositions;
    assert hs[1..] == [HCenter, Right] && hs[1..][1..] == [Right] && hs[1..][1..][1..] == [];
    AlongAll(Left);
    AlongAll(HCenter);
    AlongAll(Right);
  }

  /** There are exactly nine positions: every position occurs, and once. */
  lemma AllPositionsComplete()
    ensures |AllPositions()| == 9 && Distinct(AllPositions())
    ensures forall p :: p in AllPositions()
  {
    GridMembers(AllHorizPositions, AllVertPositions);
    assert Distinct(AllHorizPositions) && Distinct(AllVertPositions);
    forall p ensures p in AllPositions() {
      AxesListed(p.hPosition, p.vPosition);
    }
  }

  lemma AxesListed(h: HorizontalPosition, v: VerticalPosition)
    ensures h in AllHorizPositions && v in AllVertPositions
  {
    assert AllHorizPositions[Column(h)] == h;
    assert AllVertPositions[Row(v)] == v;
  }

  /** `emptyGameBoard`: one empty cell per position. */
  function EmptyGameBoard(): Board {
    seq(|AllPositions()|, i requires 0 <= i < |AllPositions()| => Cell(Empty, AllPositions()[i]))
  }

  /** `linesToCheck`: the two diagonals, then the lines of fixed horizontal
      coordinate, then the lines of fixed vertical coordinate. */
  function LinesToCheck(): seq<Line> {
    var horizontal := seq(|AllHorizPositions|, i requires 0 <= i < |AllHorizPositions| =>
      Along(AllHorizPositions[i], AllVertPositions));
    var vertical := seq(|AllVertPositions|, i requires 0 <= i < |AllVertPositions| =>
      Across(AllVertPositions[i], AllHorizPositions));
    var diagonalLine1 := [Make(Left, Top), Make(HCenter, VCenter), Make(Right, Bottom)];
    var diagonalLine2 := [Make(Right, Top), Make(HCenter, VCenter), Make(Left, Bottom)];
    [diagonalLine1, diagonalLine2] + horizontal + vertical
  }

  // Geometry of the 3x3 grid, independent of LinesToCheck.

  function Column(h: HorizontalPosition): int {
    match h
    case Left => 0
    case HCenter => 1
    case Right => 2
  }

  function Row(v: VerticalPosition): int {
    match v
    case Top => 0
    case VCenter => 1
    case Bottom => 2
  }

  /** Three distinct positions on one straight line of the grid. */
  predicate Aligned(a: CellPosition, b: CellPosition, c: CellPosition) {
    && a != b && b != c && a != c
    && (|| (a.hPosition == b.hPosition && b.hPosition == c.hPosition)
        || (a.vPosition == b.vPosition && b.vPosition == c.vPosition)
        || (Column(a.hPosition) == Row(a.vPosition) && Column(b.hPosition) == Row(b.vPosition)
            && Column(c.hPosition) == Row(c.vPosition))
        || (Column(a.hPosition) + Row(a.vPosition) == 2 && Column(b.hPosition) + Row(b.vPosition) == 2
            && Column(c.hPosition) + Row(c.vPosition) == 2))
  }

  /** The eight checked lines, written out. */
  lemma LinesToCheckInOrder()
    ensures LinesToCheck() == [
      [Make(Left, Top), Make(HCenter, VCenter), Make(Right, Bottom)],
      [Make(Right, Top), Make(HCenter, VCenter), Make(Left, Bottom)],
      [Make(Left, Top), Make(Left, VCenter), Make(Left, Bottom)],
      [Make(HCenter, Top), Make(HCenter, VCenter), Make(HCenter, Bottom)],
      [Make(Right, Top), Make(Right, VCenter), Make(Right, Bottom)],
      [Make(Left, Top), Make(HCenter, Top), Make(Right, Top)],
      [Make(Left, VCenter), Make(HCenter, VCenter), Make(Right, VCenter)],
      [Make(Left, Bottom), Make(HCenter, Bottom), Make(Right, Bottom)]]
  {
    AlongAll(Left);
    AlongAll(HCenter);
    AlongAll(Right);
    AcrossAll(Top);
    AcrossAll(VCenter);
    AcrossAll(Bottom);
  }

  /** Every checked line is a straight line of three distinct positions, and
      there are eight of them. */
  lemma LinesAreAligned()
    ensures |LinesToCheck()| == 8
    ensures forall l :: l in LinesToCheck() ==> |l| == 3 && Aligned(l[0], l[1], l[2])
  {
    LinesToCheckInOrder();
  }

  /** No line is listed twice. */
  lemma LinesDistinct()
    ensures Distinct(LinesToCheck())
  {
    LinesToCheckInOrder();
  }

  /** Where a position lies on the k-th checked line, in grid coordinates. */
  predicate OnLine(k: nat, p: CellPosition) {
    var x, y := Column(p.hPosition), Row(p.vPosition);
    if k == 0 then x == y
    else if k == 1 then x + y == 2
    else if k < 5 then x == k - 2
    else y == k - 5
  }

  lemma LineMembership(k: nat, p: CellPosition)
    requires k < |LinesToCheck()|
    ensures p in LinesToCheck()[k] <==> OnLine(k, p)
  {
    LinesToCheckInOrder();
    AxesHaveThreeValues(p.hPosition, p.vPosition);
  }

  /** Two different checked lines share at most one position, so no line is
      listed twice, in any order. */
  lemma LinesMeetOnce(i: nat, j: nat, a: CellPosition, b: CellPosition)
    requires i < |LinesToCheck()| && j < |LinesToCheck()|
    requires a != b
    requires a in LinesToCheck()[i] && b in LinesToCheck()[i]
    requires a in LinesToCheck()[j] && b in LinesToCheck()[j]
    ensures i == j
  {
    LineMembership(i, a);
    LineMembership(i, b);
    LineMembership(j, a);
    LineMembership(j, b);
    AxesHaveThreeValues(a.hPosition, a.vPosition);
    AxesHaveThreeValues(b.hPosition, b.vPosition);
  }

  /** Conversely, every straight line of the grid is one of the checked lines. */
  lemma AlignedIsChecked(a: CellPosition, b: CellPosition, c: CellPosition)
    requires Aligned(a, b, c)
    ensures exists l :: l in LinesToCheck() && a in l && b in l && c in l
  {
    var lines := LinesToCheck();
    LinesToCheckInOrder();
    AxesHaveThreeValues(a.hPosition, a.vPosition);
    AxesHaveThreeValues(b.hPosition, b.vPosition);
    AxesHaveThreeValues(c.hPosition, c.vPosition);
    if a.hPosition == b.hPosition && b.hPosition == c.hPosition {
      var l := lines[2 + Column(a.hPosition)];
      assert l == [Make(a.hPosition, Top), Make(a.hPosition, VCenter), Make(a.hPosition, Bottom)];
      assert a in l && b in l && c in l;
    } else if a.vPosition == b.vPosition && b.vPosition == c.vPosition {
      var l := lines[5 + Row(a.vPosition)];
      assert l == [Make(Left, a.vPosition), Make(HCenter, a.vPosition), Make(Right, a.vPosition)];
      assert a in l && b in l && c in l;
    } else if Column(a.hPosition) == Row(a.vPosition) && Column(b.hPosition) == Row(b.vPosition)
      && Column(c.hPosition) == Row(c.vPosition) {
      assert a in lines[0] && b in lines[0] && c in lines[0];
    } else {
      assert a in lines[1] && b in lines[1] && c in lines[1];
    }
  }

  // ---------------------------------------------------------------------------
  // Boards
  // ---------------------------------------------------------------------------

  /** Every position has a cell, so no lookup of `isGameWon` can fail. */
  ghost predicate Covers(cells: Board) {
    forall p :: HasCellAt(cells, p)
  }

  predicate DistinctPositions(cells: Board) {
    forall i, j :: 0 <= i < j < |cells| ==> cells[i].position != cells[j].position
  }

  /** The board invariant: one cell per position, in the order of
      `emptyGameBoard`. Such a board has nine cells at nine different
      positions and covers the grid. */
  predicate WellFormed(cells: Board)
    ensures WellFormed(cells) ==> |cells| == 9 && DistinctPositions(cells) && Covers(cells)
  {
    if Positions(cells) == AllPositions() then
      OrderedAsGridFacts(cells);
      true
    else false
  }

  lemma OrderedAsGridFacts(cells: Board)
    requires Positions(cells) == AllPositions()
    ensures |cells| == 9 && DistinctPositions(cells) && Covers(cells)
  {
    AllPositionsComplete();
    assert forall i :: 0 <= i < |cells| ==> cells[i].position == AllPositions()[i];
    forall p ensures HasCellAt(cells, p) {
      assert p in AllPositions();
      var i :| 0 <= i < 9 && AllPositions()[i] == p;
      assert cells[i].position == p;
    }
  }

  /** The empty board is well formed and every cell of it is empty. */
  lemma EmptyGameBoardFacts()
    ensures WellFormed(EmptyGameBoard()) && |EmptyGameBoard()| == 9
    ensures forall c :: c in EmptyGameBoard() ==> c.state == Empty
  {
    AllPositionsComplete();
    assert Positions(EmptyGameBoard()) == AllPositions();
  }

  /** `getCell`: `first(where: { $0.position == posToFind })!`. The force
      unwrap becomes the precondition that some cell sits at `posToFind`; the
      cell found is the first one there. */
  function GetCell(cells: Board, posToFind: CellPosition): (c: Cell)
    requires HasCellAt(cells, posToFind)
    ensures c in cells && c.position == posToFind
    ensures exists k :: 0 <= k < |cells| && cells[k] == c && NoneBefore(cells, k, posToFind)
  {
    if cells[0].position == posToFind then
      assert NoneBefore(cells, 0, posToFind);
      cells[0]
    else
      assert HasCellAt(cells[1..], posToFind) by {
        var i :| 0 <= i < |cells| && cells[i].position == posToFind;
        assert cells[1..][i - 1] == cells[i];
      }
      var c := GetCell(cells[1..], posToFind);
      assert exists k :: 0 <= k < |cells| && cells[k] == c && NoneBefore(cells, k, posToFind) by {
        var k :| 0 <= k < |cells| - 1 && cells[1..][k] == c && NoneBefore(cells[1..], k, posToFind);
        assert cells[k + 1] == c;
        forall j | 0 <= j < k + 1
          ensures cells[j].position != posToFind
        {
          if j > 0 {
            assert cells[j] == cells[1..][j - 1];
          }
        }
        assert NoneBefore(cells, k + 1, posToFind);
      }
      c
  }

  /** No cell before index `k` sits at `pos`. */
  predicate NoneBefore(cells: Board, k: int, pos: CellPosition)
    requires 0 <= k <= |cells|
  {
    forall j :: 0 <= j < k ==> cells[j].position != pos
  }

  /** On a board whose positions do not repeat, `getCell` finds the one cell
      at the position asked for. */
  lemma {:induction false} GetCellFinds(cells: Board, k: nat)
    requires k < |cells| && DistinctPositions(cells)
    ensures GetCell(cells, cells[k].position) == cells[k]
  {
    if k > 0 {
      assert cells[1..][k - 1] == cells[k];
      GetCellFinds(cells[1..], k - 1);
    }
  }

  /** `updateCell`: the cells at the position of `cell` are replaced by it,
      every other cell is kept, and length and order do not change. */
  function UpdateCell(cell: Cell, cells: Board): (r: Board)
    ensures |r| == |cells| && Positions(r) == Positions(cells)
    ensures forall i :: 0 <= i < |cells| && cells[i].position != cell.position ==> r[i] == cells[i]
    ensures forall i :: 0 <= i < |cells| && cells[i].position == cell.position ==> r[i] == cell
  {
    var r := seq(|cells|, i requires 0 <= i < |cells| =>
      if cells[i].position == cell.position then cell else cells[i]);
    assert Positions(r) == Positions(cells);
    r
  }

  /** Looking a position up after `updateCell` finds the new cell at its
      position and the old cell everywhere else. */
  lemma GetAfterUpdate(cell: Cell, cells: Board, q: CellPosition)
    requires WellFormed(cells)
    ensures var after := UpdateCell(cell, cells);
      WellFormed(after) && GetCell(after, q) == if q == cell.position then cell else GetCell(cells, q)
  {
    var after := UpdateCell(cell, cells);
    assert WellFormed(after);
    assert HasCellAt(cells, q);
    var j :| 0 <= j < |cells| && cells[j].position == q;
    GetCellFinds(cells, j);
    GetCellFinds(after, j);
  }

  /** `remainingMoves`: `filter { $0.state == .empty }`. */
  function RemainingMoves(cells: Board): (r: Board)
    ensures |r| <= |cells|
  {
    if cells == [] then []
    else (if cells[0].state == Empty then [cells[0]] else []) + RemainingMoves(cells[1..])
  }

  /** The remaining moves are exactly the empty cells of the board. */
  lemma {:induction false} RemainingMovesMembers(cells: Board)
    ensures forall c :: c in RemainingMoves(cells) <==> c in cells && c.state == Empty
  {
    if cells != [] {
      RemainingMovesMembers(cells[1..]);
      assert forall c :: c in cells <==> c == cells[0] || c in cells[1..];
    }
  }

  /** The filter distributes over concatenation, so the remaining moves are
      the empty cells in board order, each as often as on the board. */
  lemma {:induction false} RemainingMovesConcat(a: Board, b: Board)
    ensures RemainingMoves(a + b) == RemainingMoves(a) + RemainingMoves(b)
  {
    if a != [] {
      assert (a + b)[1..] == a[1..] + b;
      RemainingMovesConcat(a[1..], b);
    } else {
      assert a + b == b;
    }
  }

  /** The number of cells played by `player`. */
  function Count(player: Player, cells: Board): nat {
    if cells == [] then 0
    else (if cells[0].state == Played(player) then 1 else 0) + Count(player, cells[1..])
  }

  /** Every cell is empty or played by one of the two players. */
  lemma {:induction false} CellsAddUp(cells: Board)
    ensures |RemainingMoves(cells)| + Count(PlayerX, cells) + Count(Player0, cells) == |cells|
  {
    if cells != [] {
      CellsAddUp(cells[1..]);
      match cells[0].state
      case Empty =>
      case Played(p) => assert p == PlayerX || p == Player0;
    }
  }

  /** Replacing one cell changes each player's count by what the old and the
      new cell contribute. */
  lemma {:induction false} CountReplace(player: Player, cells: Board, k: nat, c: Cell)
    requires k < |cells|
    ensures Count(player, cells[k := c]) ==
      Count(player, cells) - (if cells[k].state == Played(player) then 1 else 0)
                           + (if c.state == Played(player) then 1 else 0)
  {
    if k == 0 {
      assert cells[k := c][1..] == cells[1..];
    } else {
      assert cells[k := c][1..] == cells[1..][k - 1 := c];
      CountReplace(player, cells[1..], k - 1, c);
    }
  }

  // ---------------------------------------------------------------------------
  // Win and tie detection
  // ---------------------------------------------------------------------------

  predicate CellWasPlayedBy(player: Player, cell: Cell) {
    match cell.state
    case Empty => false
    case Played(playerToCompare) => playerToCompare == player
  }

  predicate LineIsAllSamePlayer(player: Player, line: Line, cells: Board)
    requires Covers(cells)
  {
    forall pos :: pos in line ==> CellWasPlayedBy(player, GetCell(cells, pos))
  }

  /** `isGameWon`: some checked line has all its cells played by `player`. */
  predicate IsGameWon(player: Player, cells: Board)
    requires Covers(cells)
  {
    exists line :: line in LinesToCheck() && LineIsAllSamePlayer(player, line, cells)
  }

  /** The rule of the game, stated on the grid: `player` holds three aligned
      positions. */
  ghost predicate HasThreeInARow(player: Player, cells: Board) {
    exists a, b, c :: Aligned(a, b, c)
      && Cell(Played(player), a) in cells && Cell(Played(player), b) in cells && Cell(Played(player), c) in cells
  }

  /** On a well-formed board the cell at `pos` is played by `player` exactly
      when the board holds that played cell. */
  lemma PlayedAt(player: Player, cells: Board, pos: CellPosition)
    requires WellFormed(cells)
    ensures CellWasPlayedBy(player, GetCell(cells, pos)) <==> Cell(Played(player), pos) in cells
  {
    if Cell(Played(player), pos) in cells {
      var k :| 0 <= k < |cells| && cells[k] == Cell(Played(player), pos);
      GetCellFinds(cells, k);
    }
  }

  /** A line found by `isGameWon` is three aligned positions played by `player`. */
  lemma IsGameWonSound(player: Player, cells: Board)
    requires WellFormed(cells) && IsGameWon(player, cells)
    ensures HasThreeInARow(player, cells)
  {
    LinesAreAligned();
    var l :| l in LinesToCheck() && LineIsAllSamePlayer(player, l, cells);
    PlayedAt(player, cells, l[0]);
    PlayedAt(player, cells, l[1]);
    PlayedAt(player, cells, l[2]);
    assert Aligned(l[0], l[1], l[2]);
  }

  /** Three aligned positions played by `player` are always found. */
  lemma IsGameWonComplete(player: Player, cells: Board)
    requires WellFormed(cells) && HasThreeInARow(player, cells)
    ensures IsGameWon(player, cells)
  {
    var a, b, c :| Aligned(a, b, c)
      && Cell(Played(player), a) in cells && Cell(Played(player), b) in cells && Cell(Played(player), c) in cells;
    AlignedIsChecked(a, b, c);
    LinesAreAligned();
    var l :| l in LinesToCheck() && a in l && b in l && c in l;
    PlayedAt(player, cells, a);
    PlayedAt(player, cells, b);
    PlayedAt(player, cells, c);
    ThreeOfThree(l, a, b, c);
    assert LineIsAllSamePlayer(player, l, cells);
  }

  /** Three different members of a three-element list are all of it. */
  lemma ThreeOfThree<T>(l: seq<T>, a: T, b: T, c: T)
    requires |l| == 3 && a != b && b != c && a != c
    requires a in l && b in l && c in l
    ensures forall x :: x in l ==> x == a || x == b || x == c
  {
    assert l == [l[0], l[1], l[2]];
  }

  /** `isGameWon` decides the rule of the game. */
  lemma IsGameWonCorrect(player: Player, cells: Board)
    requires WellFormed(cells)
    ensures IsGameWon(player, cells) <==> HasThreeInARow(player, cells)
  {
    if IsGameWon(player, cells) {
      IsGameWonSound(player, cells);
    }
    if HasThreeInARow(player, cells) {
      IsGameWonComplete(player, cells);
    }
  }

  predicate CellWasPlayed(cell: Cell) {
    match cell.state
    case Empty => false
    case Played(_) => true
  }

  /** `isGameTied`: every cell has been played. */
  predicate IsGameTied(cells: Board) {
    forall c :: c in cells ==> CellWasPlayed(c)
  }

  /** A board is tied exactly when no move remains, that is when the two
      players together have played every cell. */
  lemma TiedIffFull(cells: Board)
    ensures IsGameTied(cells) <==> RemainingMoves(cells) == []
    ensures IsGameTied(cells) <==> Count(PlayerX, cells) + Count(Player0, cells) == |cells|
  {
    CellsAddUp(cells);
    RemainingMovesMembers(cells);
    if !IsGameTied(cells) {
      var c :| c in cells && !CellWasPlayed(c);
      assert c in RemainingMoves(cells);
    }
  }
}
