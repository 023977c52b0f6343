# Ultimate Tic-Tac-Toe engine: game rules and search-tree bookkeeping

This project models the core of an Ultimate Tic-Tac-Toe engine written in Rust,
and proves properties of the model in Dafny. Ultimate Tic-Tac-Toe is played on a
3×3 grid of 3×3 sub-boards. The model covers:

- **Players and outcomes** (`player.dfy`, module `Players`). `Player` has `Next`, `Num`
  and `Wins`. `GameResult` has `ToString` and the reward table `Score`. The source
  declares `GameResult` twice, in `src/game/player.rs` and `src/game/game_result.rs`.
  The two copies have the same variants, messages and score table, so the model
  defines it once.
- **Moves** (`action.dfy`, module `Actions`). An `Action` is a record of four
  coordinates. Rust's derived equality and `clone` become those of a datatype value.
- **Board rules** (`board.dfy`, module `Boards`):
  - `BoardStructure<T>` is a row-major 3×3 grid of nine items (`Index`, `Get`, `SetResultAt`).
  - `CheckResult` is the win/draw test through the last cell played. It works on the
    grid of owners, so it serves both instances of the generic structure:
    - the squares of a sub-board;
    - the macro board, seen through each sub-board's result (`Owners`).
  - `Play` is the move rule of `Board::make_move`, as a function.
  - `Board` is a class holding the nine sub-boards in an array. `Board.MakeMove`
    performs the move step by step on that array, and is proved to leave exactly what
    `Play` describes.
- **Turn bookkeeping** (`game_state.dfy`, module `GameStates`). `GameState` is a class
  holding the board, the player to move and the mandated sub-board.
- **Search-tree node** (`mcts.dfy`, module `Mcts`):
  - `Node` is a class with visit/value statistics and its children, a finite map
    from moves to optional child nodes. `Expand` fills that map lazily.
  - `action_hash_map` is modelled through `Zip` and `Collect`.
  - `Mcts` is the root construction.

A square is owned by an `Option<GameResult>`: the mark of player P is `P.Wins()`.
`SubBoard` and `Square` are Rust `Copy` values stored by value in fixed arrays. So the
model keeps them as datatype values. Writing one of them in place is modelled by
replacing the array element (`Board.MakeMove`) or the sequence element (`SetResultAt`).

## Model

| member | source | states |
|---|---|---|
| `Players.Player.Next` | src/game/player.rs:8-10 | the next player always differs from the current one |
| `Players.NextIsInvolution` | src/game/player.rs:8-10 | `Next` applied twice gives the same player back, with no fixed point |
| `Players.Player.Num` | src/game/player.rs:12-14 | the number is 1 or 2, and it is 1 exactly for Player 1 |
| `Players.Player.Wins` | src/game/player.rs:16-18 | a player's win is never a draw and scores 1 for that player |
| `Players.WinsIsInjective` | src/game/player.rs:16-18 | different players have different winning outcomes |
| `Players.GameResult.Score` | src/game/player.rs:37-45 | every reward is 0, 1/2 or 1, and it is 1/2 exactly for a draw |
| `Players.ScoreOfOutcome` | src/game/game_result.rs:19-25 | the winner scores 1 and the loser 0; a draw gives 1/2 to each player (same table as src/game/player.rs:37-45) |
| `Players.ScoreIsZeroSum` | src/game/game_result.rs:19-27 | for every outcome and player, the two players' rewards sum to 1 and each lies in [0, 1] |
| `Players.GameResult.ToString` | src/game/player.rs:29-35 | a draw is announced as "Draw!", and a win as "Player n wins!" where n is the winner's `Num` (the same messages as src/game/game_result.rs:11-17) |
| `Players.ToStringIsInjective` | src/game/player.rs:29-35 | different outcomes have different messages (also src/game/game_result.rs:11-17) |
| `Actions.NewAction` | src/game/action.rs:10-17 | builds the move from the four given coordinates in order; any naturals are accepted |
| `Actions.NewActionIsInjective` | src/game/action.rs:10-17 | two constructed moves are equal iff all four arguments are equal |
| `Actions.ActionEquality` | src/game/action.rs:1-7 | equality of moves is structural over the four fields |
| `Boards.IndexIsBijective` | src/game/board.rs:107-113 | for x, y < 3 the slot `3*y + x` is below 9, and distinct coordinate pairs get distinct slots |
| `Boards.Get` | src/game/board.rs:107-109 | the item returned for (x, y) is the one in row-major slot `3*y + x` |
| `Boards.SetResultAt` | src/game/board.rs:115-117 | afterwards `get(x, y)` is the given owner, and the other eight items are unchanged |
| `Boards.CheckResult` | src/game/board.rs:119-153 | any result it returns is the owner of the last cell, or a draw on a grid with no empty cell |
| `Boards.CheckResultIsLineTest` | src/game/board.rs:119-153 | full characterisation against the eight tic-tac-toe lines: nothing when the last cell is empty; its owner when it completes a line (a line of `Draw` counts too); otherwise a draw iff no cell is empty |
| `Boards.NewSubBoard` | src/game/board.rs:70-72 | a new sub-board has no result and nine empty squares (`Square::new`, src/game/board.rs:164-181) |
| `Boards.Play` | src/game/board.rs:36-60 | only square (x, y) of sub-board (subX, subY) changes, with no emptiness check, and it holds the mark; no other sub-board changes; the sub-board gets a new owner only from a line or draw through that square; there is no game result when the mark is `None`; a game result appears only after the sub-board is decided, and it is the macro check through (subX, subY); the target is both `Some` (x, y) iff sub-board (x, y) is undecided, else both `None` |
| `Boards.PlayCompletingLine` | src/game/board.rs:43-53 | a mark that completes a line wins its sub-board; if that sub-board then completes a macro line, the game is won by the same outcome |
| `Boards.PlayEmptyMarkDecidesNothing` | src/game/board.rs:41-43 | writing `None` ends no game and changes no sub-board's result |
| `Boards.Board.constructor` | src/game/board.rs:14-18 | a new board holds nine new sub-boards (src/game/board.rs:157-161) |
| `Boards.Board.Get` | src/game/board.rs:28-30 | returns the sub-board in slot `3*y + x` of the board's array, which has nine squares |
| `Boards.Board.MakeMove` | src/game/board.rs:36-60 | the in-place move leaves exactly the sub-boards, target and game result that `Play` describes, and keeps the board well formed |
| `GameStates.GameState.constructor` | src/game/game_state.rs:12-19 | empty board, Player 1 to move, no mandated sub-board |
| `GameStates.GameState.CurrentPlayer` | src/game/game_state.rs:21-23 | returns the stored player to move unchanged |
| `GameStates.GameState.MakeMoveFullBoard` | src/game/game_state.rs:31-44 | the board moves as `Play` describes, with the mover's win as the mark. The mandated sub-board becomes the returned target, so both coordinates are `Some` or both `None`. The turn passes to the other player |
| `GameStates.GameState.MakeMove` | src/game/game_state.rs:25-29 | requires a mandated sub-board, since the source unwraps both coordinates. Plays (x, y) inside it, as `MakeMoveFullBoard` does |
| `Mcts.Zip` | src/ai/mcts.rs:99 | the zip is as long as the shorter input, and pairs equal positions |
| `Mcts.Collect` | src/ai/mcts.rs:100 | the collected map's keys are exactly the first components. Every entry comes from one of the pairs |
| `Mcts.CollectLastWins` | src/ai/mcts.rs:100 | for a repeated key, `collect` keeps the value of the last pair with that key, as inserting into a `HashMap` in order does |
| `Mcts.ActionHashMap` | src/ai/mcts.rs:95-101 | every key of the map is one of the given moves and has no child yet (by `ActionHashMapIsEmpty` the map in fact has no keys) |
| `Mcts.ActionHashMapIsEmpty` | src/ai/mcts.rs:95-101 | the move list is zipped with `None`, an empty iterator, so `action_hash_map` is the empty map for every move list |
| `Mcts.FullyExpandedIffNoneUnexpanded` | src/ai/mcts.rs:42-55 | a node is fully expanded iff its children map exists and no move in it lacks a child |
| `Mcts.ExpansionStep` | src/ai/mcts.rs:62-76 | one expansion keeps every child already created. It removes exactly the chosen move from the unexpanded set, so that set shrinks by one |
| `Mcts.Node.constructor` | src/ai/mcts.rs:16-24 | stores the given children, move and parent visit count; visits and value are 0 |
| `Mcts.Node.Weight` | src/ai/mcts.rs:34-36 | the weight is 0 for an unvisited node, and weight × visits = value otherwise. It lies in [0, 1] whenever value lies in [0, visits] |
| `Mcts.Node.FullyExpanded` | src/ai/mcts.rs:42-55 | false when there is no children map; otherwise true iff every entry holds a child |
| `Mcts.Node.Expand` | src/ai/mcts.rs:57-80 | precondition: after initialisation some move lacks a child (the source panics otherwise). Because `action_hash_map` is always empty, this can hold only for a node whose existing map has an unexpanded move; that map is kept. Some unexpanded move gets a fresh child: no children, that move, `parent_visits` = this node's visits, zero statistics. The keys and other entries are kept. The unexpanded count drops by one. The node's own statistics do not change. The move is returned |
| `Mcts.Tree.constructor` | src/ai/mcts.rs:87-93 | the tree owns the given root |
| `Mcts.Mcts` | src/ai/mcts.rs:103-113 | the root has an empty children map, no move and zero statistics, so it is already fully expanded |

## Left out

- Terminal interface, entry point and the player abstraction are not part of this model.
  These are `src/gui.rs`, `src/game/gui.rs`, `src/main.rs` and `src/actor.rs`.
- `Node::search_weight` (src/ai/mcts.rs:38-40) is not modelled, because it relies on
  floating-point `ln` and `sqrt`.
- Floating point is not modelled. `score` (an `f32`) and `value`/`weight` (`f64`) are
  exact reals. The scores 0, 1/2 and 1 are exact in binary floating point as well.
- Machine integer widths are not modelled. `usize` coordinates and visit counts are
  unbounded naturals, so no overflow is represented.
- `possible_actions` is not part of this model: the source calls it but does not define
  it. `Mcts.ActionHashMap`, `Mcts.Node.Expand` and `Mcts.Mcts` take the move list
  as a parameter instead.
- Mcts.Node.Expand: no node the source builds can be expanded. The root from `mcts()` has an empty map, and every child starts with no map, which `action_hash_map` would replace by an empty one. So in the source `expand` panics on every such node. The precondition states that panic. The replacement of a missing map is therefore never observable, and the contract describes only nodes whose children map was supplied to `Node::new`.
- Mcts.Node.Expand: the source picks the last unexpanded move in `HashMap` iteration
  order. The contract only promises some unexpanded move, since hashing and iteration
  order are not modelled.
- Boards.CheckResult: requires both coordinates below 3. For most other coordinates the
  source's indexing or `2 - last_y` panics. A few, like (3, 3), reach an early return
  or read aliased slots, and those are not modelled.
- Boards.Play: requires all four coordinates below 3, for the same reason.
- Boards.Board.MakeMove: requires all four coordinates below 3, for the same reason.
- GameStates.GameState.MakeMoveFullBoard: requires all four coordinates below 3, for the same reason.
- GameStates.GameState.MakeMove: requires both coordinates below 3, for the same reason.
- GameStates.GameState.MakeMoveFullBoard: several parts of this function do not match
  the rest of the source, and the model follows the evident rule instead:
  - It destructures a pair from `Board::make_move`, which returns a triple. The model
    keeps the target and returns the game result to the caller.
  - It passes a `Player` where an `Option<GameResult>` is expected. The model passes
    `Some(current_player.wins())`.
  - Both `make_move` methods take `self` by value, so the caller would never see the
    update. The model treats them as methods that update the state.
- The generic `BoardStructure::set_result_at` is never applied to the macro board in
  the source. The sub-board's owner is set through `Owned::set_result`, which
  `Board.MakeMove` models as a field update of the `SubBoard` value.
- The accessors `structure`, `structure_mut`, `get_mut`, `children` and `children_mut`
  are plain field or array accesses in the model.
