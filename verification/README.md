# Snake game tick, modelled in Dafny

This project models the game loop of a terminal snake game (`snake_game.py`).
The snake moves around a board of `sh` rows and `sw` columns. It grows when
its head reaches the food, and the game ends when the head hits the border or
the snake's own body. Each iteration of the loop (a *tick*) does six things:

1. It reads at most one key. No key (`-1`) keeps the direction, and `q`/`Q` quits.
2. It maps the WASD letters, in either case, onto the arrow keys.
3. It ignores a key that is the exact opposite of the current steering key.
4. It puts a new head, one cell further, in front of the snake.
5. It ends the game on a border cell or on a cell of the snake.
6. It either eats the food (score up by one, tail kept, new food drawn at random
   from the interior until a free cell comes up) or drops the tail.

Modules:

- `Keys` (`keys.dfy`): key codes, the WASD mapping, the table of opposite keys
  and how the steering key is resolved each tick.
- `Grid` (`grid.dfy`): cells, the head's one-cell step, the border and interior
  of the board, and the resampling loop that places food.
- `Tick` (`tick.dfy`): the game state as a value, the starting state, one tick
  as a function (`Tick`), a run of ticks (`Play`), and the lemmas about them.
- `GameLoop` (`game.dfy`): class `Game`. Its fields are updated in place.
  `Step` is one loop iteration and `Run` is the loop. Both are proved against
  `Tick` and `Play`.

The key codes are those of the terminal library: down 258, up 259, left 260,
right 261.

The random draws of the food placement are a parameter: a sequence of cells,
`samples`, one cell per draw. Every draw lies in the interior, as the random
generator's range guarantees. The food is the first draw that is not a cell of
the snake.

Two behaviours of the source are kept on purpose:

- A key that is neither an arrow nor a WASD letter becomes the steering key. The
  head then stays where it is, so it collides with the old head and the game
  ends (`UnmappedKeyEndsGame`).
- The head may not move onto the current tail, even though the tail would leave
  that cell in the same tick (`TailChaseEndsGame`).

Three more behaviours of the source to note:

- The steering key is any accepted key, not only one of four directions.
- The collision test `snake[0] in snake[1:]` runs after the insert. It is the
  same as testing the new head against the whole snake from before the tick.
- On game over the snake keeps the inserted head.

## Model

| member | source | states |
|---|---|---|
| Keys.MapKey | snake_game.py:70-77 | `w/W`, `a/A`, `s/S`, `d/D` become up, left, down and right; every other key is returned unchanged; the result is an arrow key exactly when the input is an arrow key or a WASD letter |
| Keys.MapKeyIdempotent | snake_game.py:70-77 | mapping an already mapped key changes nothing |
| Keys.OppositeIsReverse | snake_game.py:80-83 | the four-pair table of refused reversals is exactly "the pressed key is the arrow for the reverse of the current arrow's direction" |
| Keys.OppositeIrreflexiveSymmetric | snake_game.py:80-83 | no key is opposite itself; being opposite is symmetric |
| Keys.Opposite | snake_game.py:80-83 | the four refused pairs (down/up, up/down, left/right, right/left); only two different arrow keys are ever opposite |
| Keys.IsQuit | snake_game.py:65 | `q` or `Q`; a quit key is never "no key", an arrow key or a WASD letter, so the quit test and the mapping never compete |
| Keys.Resolve | snake_game.py:62-86 | no key keeps the current key; an exact reversal (after WASD mapping) keeps the current key; any other key, direction or not, becomes the new key; the result is never opposite the current key |
| Keys.ResolveNeverReverses | snake_game.py:79-86 | from any direction, no key press makes the steering key the reverse direction |
| Grid.Advance | snake_game.py:89-97 | down adds one to the row, up subtracts one, left subtracts one from the column, right adds one; the head moves exactly one cell iff the key is an arrow key, and stays put iff it is not |
| Grid.AdvanceReverse | snake_game.py:89-97 | a step in one direction followed by a step in the reverse direction returns to the start cell |
| Grid.OnBorder | snake_game.py:103-104 | the border test: row `0` or `sh-1`, or column `0` or `sw-1`; a border cell is never in the food's range `1..sh-2` by `1..sw-2` |
| Grid.FirstFreeIndex | snake_game.py:113-116 | the draw the resampling loop stops at is a free cell, and every earlier draw was a cell of the snake |
| Grid.ChooseFood | snake_game.py:113-116 | the resampling loop returns an interior cell that is not on the snake, namely the first free draw |
| Tick.Init | snake_game.py:29-46 | three distinct cells in row `sh//2` at columns `sw//4`, `sw//4-1`, `sw//4-2`, each one step right of the next; food at `(sh//2, sw//2)`; key right; score 0; running |
| Tick.InitInv | snake_game.py:29-46 | on a board at least two columns wide the starting state satisfies the loop invariant (food off the snake, no duplicates, length 3 + score, arrow key) |
| Tick.Tick | snake_game.py:57-121 | one loop iteration. Its own contract: the status is Quit exactly for `q`/`Q`, the score rises by at most one and never falls, and a running snake grew by exactly as much as the score. Its full behaviour is given by TickQuit, TickKey, TickOverIff, TickGrow and TickMove |
| Tick.TickQuit | snake_game.py:65-66 | `q`/`Q` stops the loop with snake, food, key and score unchanged |
| Tick.TickKey | snake_game.py:58-86 | after a tick that is not quit, the key is the resolved key, never opposite the old key; no key leaves it unchanged |
| Tick.TickOverIff | snake_game.py:100-107 | without quit, the game ends exactly when the new head's row is `0` or `sh-1`, or its column is `0` or `sw-1`, or it equals any cell of the pre-tick snake, the tail included; on game over the score and food are unchanged |
| Tick.UnmappedKeyEndsGame | snake_game.py:67-105 | a key that is not "no key", quit, an arrow or a WASD letter becomes the steering key, leaves the head in place and ends the game |
| Tick.TailChaseEndsGame | snake_game.py:100-107 | a head moving onto the current tail's cell ends the game |
| Tick.TickGrow | snake_game.py:110-117 | a surviving tick onto the food: the snake is the new head plus the whole old snake (length + 1), score + 1, new food in the interior and on no cell of the snake, head included |
| Tick.TickMove | snake_game.py:118-121 | a surviving tick that misses the food: the snake is the new head plus all old cells but the last; length, score and food unchanged |
| Tick.TickScore | snake_game.py:110-111 | a tick never lowers the score, raises it by at most one, and raises it exactly when the snake eats |
| Tick.PrependNoDuplicates | snake_game.py:100-105 | inserting a head that is not on a duplicate-free snake keeps it duplicate-free |
| Tick.TickPreservesInv | snake_game.py:100-121 | a tick the game survives keeps: no duplicate cells, length at least 3 and equal to 3 + score, food off the snake, steering key an arrow key |
| Tick.Play | snake_game.py:57 | the `while True` loop over a sequence of key reads, stopping when the keys run out or the game stops running; over the whole run the score never falls, and if the game still runs the snake grew by exactly as much as the score |
| Tick.PlayPreservesInv | snake_game.py:57-121 | over any run of ticks from an invariant state, the score never falls, and a game still running satisfies the invariant |
| Tick.EatAheadScenario | snake_game.py:109-117 | a 3-cell snake moving right on a 20x20 board with the food straight ahead ends the tick with 4 cells, score 1 and its tail in place |
| GameLoop.Game.constructor | snake_game.py:29-46 | the fields start as the starting state, which satisfies the invariant when the board is at least two columns wide |
| GameLoop.Game.Step | snake_game.py:57-121 | one loop iteration, with the new head inserted in front and the tail popped in place: the fields end as `Tick` says, and a running game keeps the invariant |
| GameLoop.Game.Run | snake_game.py:57-121 | the loop over the keys read each tick: the fields end as `Play` says; the score never falls and a running game keeps the invariant |

## Left out

- Terminal drawing is not modelled: hiding the cursor, the window, colours, the
  glyphs of snake and food, the instructions and score text, refreshing and
  clearing. The board size from the terminal is the parameters `sh` and `sw`.
- The instructions are drawn at columns `sw//2-12`, `sw//2-14` and `sw//2-9`.
  On a window narrower than 28 columns these are negative, and the terminal
  library raises an error before the loop starts. `Init`, `InitInv` and the
  class constructor still cover such boards, although the program never
  reaches them.
- Timing is not modelled: the 100 ms key timeout and the two-second pause
  before the loop.
- Reading keys is not modelled. The keys read in successive ticks are a
  parameter sequence, and `Run` stops when it runs out.
- The game-over screen and its wait for a key are not modelled. Its layout is
  display arithmetic. The model stops at status `Over`.
- The interrupt handler, terminal restoration and the goodbye message are
  process shutdown. They are not modelled.
- Random food placement is modelled as a stream of interior draws. The model
  does not model termination of the resampling loop. Instead it requires, on a
  tick that eats, that some draw is a free cell.
- The error the random generator raises when the interior is empty is not
  modelled. On such a board no stream of interior draws exists.
