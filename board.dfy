/**
 * The rules of Ultimate Tic-Tac-Toe (src/game/board.rs): a 3x3 grid of
 * sub-boards, each a 3x3 grid of squares. A square is owned by the result
 * of the player who marked it; a sub-board is owned once someone completes a
 * line in it (or it fills up, which makes it a draw), and the game ends when
 * the owned sub-boards form a line on the macro board (or all are decided).
 */
module Boards {
  import opened Options
  import opened Players

  /** A square is represented by the result that owns it (`Square::result`). */
  type Square = Option<GameResult>

  /** Row-major slot of the cell in column x, row y of a 3x3 structure. */
  function Index(x: nat, y: nat): nat
  {
    3 * y + x
  }

  /** Inside the grid, coordinates and slots correspond one to one. */
  lemma IndexIsBijective()
    ensures forall x: nat, y: nat :: x < 3 && y < 3 ==> Index(x, y) < 9
    ensures forall x: nat, y: nat, x': nat, y': nat ::
      x < 3 && y < 3 && x' < 3 && y' < 3 && Index(x, y) == Index(x', y') ==> x == x' && y == y'
  {
  }

  /** `BoardStructure::get`: the item at (x, y). */
  function Get<T>(items: seq<T>, x: nat, y: nat): (r: T)
    requires |items| == 9 && Index(x, y) < 9
    ensures r == items[3 * y + x]
  {
    items[Index(x, y)]
  }

  /** `BoardStructure::set_result_at` on a grid of squares: (x, y) becomes owned by `r`. */
  function SetResultAt(items: seq<Square>, x: nat, y: nat, r: Square): (s: seq<Square>)
    requires |items| == 9 && Index(x, y) < 9
    ensures |s| == 9 && Get(s, x, y) == r
    ensures forall i :: 0 <= i < 9 && i != Index(x, y) ==> s[i] == items[i]
  {
    items[Index(x, y) := r]
  }

  /** Slots a, b and c hold the same owner, and k is one of them. */
  ghost predicate LineThrough(cells: seq<Square>, a: nat, b: nat, c: nat, k: nat)
    requires |cells| == 9 && a < 9 && b < 9 && c < 9
  {
    (k == a || k == b || k == c) && cells[a] == cells[b] && cells[b] == cells[c]
  }

  /** One of the eight lines of the grid passes through slot k and holds three equal owners. */
  ghost predicate CompletesLine(cells: seq<Square>, k: nat)
    requires |cells| == 9
  {
    // rows
    || LineThrough(cells, 0, 1, 2, k) || LineThrough(cells, 3, 4, 5, k) || LineThrough(cells, 6, 7, 8, k)
    // columns
    || LineThrough(cells, 0, 3, 6, k) || LineThrough(cells, 1, 4, 7, k) || LineThrough(cells, 2, 5, 8, k)
    // diagonals
    || LineThrough(cells, 0, 4, 8, k) || LineThrough(cells, 2, 4, 6, k)
  }

  /**
   * `BoardStructure::check_result`, looking only at lines through the cell
   * (lastX, lastY) just played: the diagonals (for corners and the centre),
   * then the column, then the row; with no such line a full grid is a draw.
   */
  function CheckResult(cells: seq<Square>, lastX: nat, lastY: nat): (r: Square)
    requires |cells| == 9 && lastX < 3 && lastY < 3
    ensures r.Some? ==> r == cells[Index(lastX, lastY)] || (r == Some(Draw) && None !in cells)
  {
    var centreCount := (if lastX == 1 then 1 else 0) + (if lastY == 1 then 1 else 0);
    if centreCount != 1 && lastX == lastY
       && Get(cells, 0, 0) == Get(cells, 1, 1) && Get(cells, 0, 0) == Get(cells, 2, 2) then
      Get(cells, 0, 0)
    else if centreCount != 1 && lastX == 2 - lastY
       && Get(cells, 0, 2) == Get(cells, 1, 1) && Get(cells, 0, 2) == Get(cells, 2, 0) then
      Get(cells, 0, 2)
    else if Get(cells, lastX, 0) == Get(cells, lastX, 1) && Get(cells, lastX, 0) == Get(cells, lastX, 2) then
      Get(cells, lastX, 0)
    else if Get(cells, 0, lastY) == Get(cells, 1, lastY) && Get(cells, 0, lastY) == Get(cells, 2, lastY) then
      Get(cells, 0, lastY)
    else if None in cells then
      None
    else
      Some(Draw)
  }

  /**
   * `check_result` is the ordinary tic-tac-toe test through the last cell:
   * nothing when that cell is empty; its owner when it completes one of the
   * eight lines; otherwise a draw exactly when no cell is empty.
   */
  lemma CheckResultIsLineTest(cells: seq<Square>, lastX: nat, lastY: nat)
    requires |cells| == 9 && lastX < 3 && lastY < 3
    ensures var k := Index(lastX, lastY);
      && (cells[k].None? ==> CheckResult(cells, lastX, lastY).None?)
      && (cells[k].Some? && CompletesLine(cells, k) ==> CheckResult(cells, lastX, lastY) == cells[k])
      && (cells[k].Some? && !CompletesLine(cells, k) ==>
            CheckResult(cells, lastX, lastY) == if None in cells then None else Some(Draw))
  {
  }

  /** A sub-board: nine squares and the result that owns the whole sub-board, if decided. */
  datatype SubBoard = SubBoard(squares: seq<Square>, result: Option<GameResult>)

  /** `SubBoard::new`: nine empty squares and no result. */
  function NewSubBoard(): (s: SubBoard)
    ensures s.result == None && |s.squares| == 9
    ensures forall i :: 0 <= i < 9 ==> s.squares[i] == None
  {
    SubBoard(seq(9, _ => None), None)
  }

  /** Nine sub-boards of nine squares each. */
  predicate WellFormed(subs: seq<SubBoard>)
  {
    |subs| == 9 && forall i :: 0 <= i < 9 ==> |subs[i].squares| == 9
  }

  /** The macro board seen as a grid of owners (`Owned::result` of each sub-board). */
  function Owners(subs: seq<SubBoard>): (cells: seq<Square>)
    requires |subs| == 9
    ensures |cells| == 9 && forall i :: 0 <= i < 9 ==> cells[i] == subs[i].result
  {
    seq(9, i requires 0 <= i < 9 => subs[i].result)
  }

  /** What `Board::make_move` leaves behind: the sub-boards, the next target and the game result. */
  datatype MoveOutcome = MoveOutcome(
    subs: seq<SubBoard>,
    nextX: Option<nat>,
    nextY: Option<nat>,
    gameResult: Option<GameResult>)

  /**
   * The move rule of `Board::make_move`: square (x, y) of sub-board
   * (subX, subY) is overwritten with `result`; when the mark completes a line
   * (or fills the sub-board) the sub-board is awarded to that outcome and the
   * macro board is checked through (subX, subY); the next player is sent to
   * sub-board (x, y) unless it is already decided.
   */
  function Play(subs: seq<SubBoard>, result: Option<GameResult>, subX: nat, subY: nat, x: nat, y: nat)
    : (o: MoveOutcome)
    requires WellFormed(subs) && subX < 3 && subY < 3 && x < 3 && y < 3
    ensures WellFormed(o.subs)
    // exactly one square changes, and it holds `result` afterwards
    ensures Get(Get(o.subs, subX, subY).squares, x, y) == result
    ensures forall j :: 0 <= j < 9 && j != Index(x, y) ==>
      Get(o.subs, subX, subY).squares[j] == Get(subs, subX, subY).squares[j]
    ensures forall i :: 0 <= i < 9 && i != Index(subX, subY) ==> o.subs[i] == subs[i]
    // the sub-board played in is re-decided only by the square just marked
    ensures var played := Get(o.subs, subX, subY);
      played.result == if result.Some? && CheckResult(played.squares, x, y).Some?
                       then CheckResult(played.squares, x, y)
                       else Get(subs, subX, subY).result
    // the game ends only through the sub-board just decided
    ensures result.None? ==> o.gameResult.None?
    ensures o.gameResult.Some? ==>
      && CheckResult(Get(o.subs, subX, subY).squares, x, y).Some?
      && o.gameResult == CheckResult(Owners(o.subs), subX, subY)
    ensures result.Some? && CheckResult(Get(o.subs, subX, subY).squares, x, y).Some? ==>
      o.gameResult == CheckResult(Owners(o.subs), subX, subY)
    // the next target is sub-board (x, y) while it is undecided, otherwise free
    ensures o.nextX.Some? <==> o.nextY.Some?
    ensures o.nextX.Some? <==> Get(o.subs, x, y).result.None?
    ensures o.nextX.Some? ==> o.nextX == Some(x) && o.nextY == Some(y)
  {
    var k := Index(subX, subY);
    var squares := SetResultAt(subs[k].squares, x, y, result);
    var decided := if result.Some? then CheckResult(squares, x, y) else None;
    var sub := SubBoard(squares, if decided.Some? then decided else subs[k].result);
    var subs' := subs[k := sub];
    var gameResult := if decided.Some? then CheckResult(Owners(subs'), subX, subY) else None;
    if subs'[Index(x, y)].result.None? then
      MoveOutcome(subs', Some(x), Some(y), gameResult)
    else
      MoveOutcome(subs', None, None, gameResult)
  }

  /**
   * A mark that completes a line of its sub-board wins that sub-board; if the
   * sub-boards won by the same outcome then complete a line of the macro
   * board through it, the game is won.
   */
  lemma PlayCompletingLine(subs: seq<SubBoard>, r: GameResult, subX: nat, subY: nat, x: nat, y: nat)
    requires WellFormed(subs) && subX < 3 && subY < 3 && x < 3 && y < 3
    requires CompletesLine(SetResultAt(Get(subs, subX, subY).squares, x, y, Some(r)), Index(x, y))
    ensures var o := Play(subs, Some(r), subX, subY, x, y);
      && Get(o.subs, subX, subY).result == Some(r)
      && (CompletesLine(Owners(o.subs), Index(subX, subY)) ==> o.gameResult == Some(r))
  {
    var o := Play(subs, Some(r), subX, subY, x, y);
    var played := Get(o.subs, subX, subY);
    CheckResultIsLineTest(played.squares, x, y);
    CheckResultIsLineTest(Owners(o.subs), subX, subY);
  }

  /** A move that leaves its square empty decides nothing. */
  lemma PlayEmptyMarkDecidesNothing(subs: seq<SubBoard>, subX: nat, subY: nat, x: nat, y: nat)
    requires WellFormed(subs) && subX < 3 && subY < 3 && x < 3 && y < 3
    ensures var o := Play(subs, None, subX, subY, x, y);
      && o.gameResult.None?
      && forall i :: 0 <= i < 9 ==> o.subs[i].result == subs[i].result
  {
  }

  /**
   * The game board (`Board`): its `BoardStructure<SubBoard>` is a fixed array
   * of nine sub-boards, updated in place by `MakeMove`.
   */
  class Board {
    const items: array<SubBoard>

    ghost predicate Valid()
      reads this, items
    {
      items.Length == 9 && WellFormed(items[..])
    }

    /** `Board::new`: nine fresh sub-boards. */
    constructor ()
      ensures Valid() && fresh(items)
      ensures forall i :: 0 <= i < 9 ==> items[i] == NewSubBoard()
    {
      items := new SubBoard[9](_ => NewSubBoard());
    }

    /** `Board::get`: the sub-board at (x, y). */
    function Get(x: nat, y: nat): (s: SubBoard)
      reads this, items
      requires Valid() && x < 3 && y < 3
      ensures s == items[Index(x, y)] && |s.squares| == 9
    {
      items[Index(x, y)]
    }

    /** `Board::make_move`, step by step on the array, as `Play` describes it. */
    method MakeMove(result: Option<GameResult>, subX: nat, subY: nat, x: nat, y: nat)
      returns (nextX: Option<nat>, nextY: Option<nat>, gameResult: Option<GameResult>)
      requires Valid() && subX < 3 && subY < 3 && x < 3 && y < 3
      modifies items
      ensures Valid()
      ensures var o := Play(old(items[..]), result, subX, subY, x, y);
        items[..] == o.subs && nextX == o.nextX && nextY == o.nextY && gameResult == o.gameResult
    {
      var k := Index(subX, subY);
      items[k] := items[k].(squares := SetResultAt(items[k].squares, x, y, result));
      gameResult := None;
      if result != None {
        var decided := CheckResult(items[k].squares, x, y);
        if decided.Some? {
          items[k] := items[k].(result := decided);
          var macro := CheckResult(Owners(items[..]), subX, subY);
          if macro.Some? {
            gameResult := macro;
          }
        }
      }
      if items[Index(x, y)].result.None? {
        nextX, nextY := Some(x), Some(y);
      } else {
        nextX, nextY := None, None;
      }
    }
  }
}
