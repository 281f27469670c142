/**
 The state of a game of snake as a value, the starting state, and one tick of
 the game loop as a function of the state, the key read during the tick and
 the stream of random cells the food placement draws from. The lemmas state
 what a tick does: quitting, dying, growing, moving, placing food, and the
 invariants every surviving tick keeps.
 */
module Tick {
  import opened Keys
  import opened Grid

  /** Running while the loop goes on; Over after a collision; Quit after q or Q. */
  datatype Status = Running | Over | Quit

  /**
   Everything the game loop changes: the snake (head first, tail last), the
   food cell, the current steering key, the score and whether the loop runs.
   */
  datatype State = State(snake: seq<Cell>, food: Cell, key: int, score: nat, status: Status)

  /** The snake holds no cell twice. */
  predicate NoDuplicates(cells: seq<Cell>)
  {
    forall i, j :: 0 <= i < j < |cells| ==> cells[i] != cells[j]
  }

  /**
   The starting state on a board of `sh` rows and `sw` columns: a horizontal
   snake of three cells in the middle row, head at a quarter of the width and
   pointing right, food in the middle of the board, score zero.
   */
  function Init(sh: int, sw: int): (s: State)
    ensures |s.snake| == 3 && NoDuplicates(s.snake)
    ensures s.snake[0] == Cell(sh / 2, sw / 4)
    ensures forall i :: 0 < i < 3 ==> Advance(s.snake[i], KeyRight) == s.snake[i - 1]
    ensures s.food == Cell(sh / 2, sw / 2)
    ensures s.key == KeyRight && s.score == 0 && s.status == Running
  {
    var y, x := sh / 2, sw / 4;
    State([Cell(y, x), Cell(y, x - 1), Cell(y, x - 2)], Cell(sh / 2, sw / 2), KeyRight, 0, Running)
  }

  /** The steering key after the tick's key press. */
  function NewKey(s: State, pressed: int): int
  {
    Resolve(s.key, pressed)
  }

  /** The cell the head moves to during the tick. */
  function NewHead(s: State, pressed: int): Cell
    requires |s.snake| >= 1
  {
    Advance(s.snake[0], NewKey(s, pressed))
  }

  /**
   The tick is fatal: the new head is on the border, or on a cell of the snake
   as it was before the tick (the tail included, which has not moved yet).
   */
  predicate Collides(sh: int, sw: int, s: State, pressed: int)
    requires |s.snake| >= 1
  {
    OnBorder(sh, sw, NewHead(s, pressed)) || NewHead(s, pressed) in s.snake
  }

  /** The tick is survived and the head lands on the food. */
  predicate Eats(sh: int, sw: int, s: State, pressed: int)
    requires |s.snake| >= 1
  {
    !IsQuit(pressed) && !Collides(sh, sw, s, pressed) && NewHead(s, pressed) == s.food
  }

  /**
   What the tick needs of the stream of random cells: every draw lies in the
   interior (the range the random generator draws from), and when the snake
   eats, some draw is free of the grown snake, so that resampling stops.
   */
  predicate SamplesReady(sh: int, sw: int, s: State, pressed: int, samples: seq<Cell>)
    requires |s.snake| >= 1
  {
    AllInInterior(sh, sw, samples) &&
    (Eats(sh, sw, s, pressed) ==> HasFree(samples, [NewHead(s, pressed)] + s.snake))
  }

  /**
   One iteration of the game loop. A quit key stops the loop and changes
   nothing else. Otherwise the steering key is resolved, the new head is put in
   front of the snake, and the game is over if the head hit the border or the
   snake. A surviving snake that reached the food keeps its tail, scores one
   and gets new food from the random stream; otherwise its tail is dropped.
   */
  function Tick(sh: int, sw: int, s: State, pressed: int, samples: seq<Cell>): (r: State)
    requires s.status == Running && |s.snake| >= 1
    requires SamplesReady(sh, sw, s, pressed, samples)
    ensures r.status == Quit <==> IsQuit(pressed)
    ensures s.score <= r.score <= s.score + 1
    ensures r.status == Running ==> |r.snake| - |s.snake| == r.score - s.score
  {
    if IsQuit(pressed) then s.(status := Quit)
    else
      var key := NewKey(s, pressed);
      var head := NewHead(s, pressed);
      var snake := [head] + s.snake;
      if OnBorder(sh, sw, head) || head in snake[1..] then
        State(snake, s.food, key, s.score, Over)
      else if head == s.food then
        State(snake, samples[FirstFreeIndex(samples, snake)], key, s.score + 1, Running)
      else
        State(snake[..|snake| - 1], s.food, key, s.score, Running)
  }

  /** A quit key ends the loop with the snake, food, key and score as they were. */
  lemma TickQuit(sh: int, sw: int, s: State, pressed: int, samples: seq<Cell>)
    requires s.status == Running && |s.snake| >= 1
    requires SamplesReady(sh, sw, s, pressed, samples)
    requires IsQuit(pressed)
    ensures var r := Tick(sh, sw, s, pressed, samples);
      r.status == Quit && r.snake == s.snake && r.food == s.food &&
      r.key == s.key && r.score == s.score
  {
  }

  /**
   Without a quit key the game ends exactly when the new head is on the border
   or on a cell of the snake before the tick; it then ends with the score
   unchanged. A game that does not end is still running.
   */
  lemma TickOverIff(sh: int, sw: int, s: State, pressed: int, samples: seq<Cell>)
    requires s.status == Running && |s.snake| >= 1
    requires SamplesReady(sh, sw, s, pressed, samples)
    requires !IsQuit(pressed)
    ensures var r := Tick(sh, sw, s, pressed, samples);
      (r.status == Over <==>
         (var h := NewHead(s, pressed);
          h.row == 0 || h.row == sh - 1 || h.col == 0 || h.col == sw - 1 ||
          exists i :: 0 <= i < |s.snake| && s.snake[i] == h)) &&
      (r.status == Over ==> r.score == s.score && r.food == s.food) &&
      r.status != Quit
  {
  }

  /** The steering key after a tick that is not quit is the resolved key. */
  lemma TickKey(sh: int, sw: int, s: State, pressed: int, samples: seq<Cell>)
    requires s.status == Running && |s.snake| >= 1
    requires SamplesReady(sh, sw, s, pressed, samples)
    requires !IsQuit(pressed)
    ensures var r := Tick(sh, sw, s, pressed, samples);
      r.key == Resolve(s.key, pressed) && !Opposite(s.key, r.key) &&
      (pressed == NoKey ==> r.key == s.key)
  {
  }

  /**
   A surviving tick whose head reaches the food: the snake is the new head in
   front of the whole old snake (one longer), the score is one higher, and the
   new food is an interior cell that is no cell of the snake, head included.
   */
  lemma TickGrow(sh: int, sw: int, s: State, pressed: int, samples: seq<Cell>)
    requires s.status == Running && |s.snake| >= 1
    requires SamplesReady(sh, sw, s, pressed, samples)
    requires Eats(sh, sw, s, pressed)
    ensures var r := Tick(sh, sw, s, pressed, samples);
      r.status == Running &&
      r.snake == [NewHead(s, pressed)] + s.snake &&
      |r.snake| == |s.snake| + 1 && r.score == s.score + 1 &&
      InInterior(sh, sw, r.food) && r.food !in r.snake
  {
  }

  /**
   A surviving tick that misses the food: the snake is the new head followed
   by every old cell but the last, so its length, the score and the food stay
   as they were.
   */
  lemma TickMove(sh: int, sw: int, s: State, pressed: int, samples: seq<Cell>)
    requires s.status == Running && |s.snake| >= 1
    requires SamplesReady(sh, sw, s, pressed, samples)
    requires !IsQuit(pressed) && !Collides(sh, sw, s, pressed)
    requires NewHead(s, pressed) != s.food
    ensures var r := Tick(sh, sw, s, pressed, samples);
      r.status == Running &&
      r.snake == [NewHead(s, pressed)] + s.snake[..|s.snake| - 1] &&
      |r.snake| == |s.snake| && r.score == s.score && r.food == s.food
  {
  }

  /**
   A key that is neither "no key", a quit key, an arrow key nor a WASD letter
   becomes the steering key, leaves the head in place, and so ends the game:
   the unmoved head is a cell of the old snake.
   */
  lemma UnmappedKeyEndsGame(sh: int, sw: int, s: State, pressed: int, samples: seq<Cell>)
    requires s.status == Running && |s.snake| >= 1
    requires SamplesReady(sh, sw, s, pressed, samples)
    requires pressed != NoKey && !IsQuit(pressed)
    requires !IsDirection(pressed) && LetterDirection(pressed).None?
    ensures var r := Tick(sh, sw, s, pressed, samples);
      r.status == Over && r.key == pressed && r.snake[0] == s.snake[0]
  {
  }

  /**
   Moving onto the cell the tail occupies is fatal, although the tail would
   have left that cell during the same tick.
   */
  lemma TailChaseEndsGame(sh: int, sw: int, s: State, pressed: int, samples: seq<Cell>)
    requires s.status == Running && |s.snake| >= 1
    requires SamplesReady(sh, sw, s, pressed, samples)
    requires !IsQuit(pressed)
    requires NewHead(s, pressed) == s.snake[|s.snake| - 1]
    ensures Tick(sh, sw, s, pressed, samples).status == Over
  {
  }

  /** A tick never lowers the score and raises it by at most one. */
  lemma TickScore(sh: int, sw: int, s: State, pressed: int, samples: seq<Cell>)
    requires s.status == Running && |s.snake| >= 1
    requires SamplesReady(sh, sw, s, pressed, samples)
    ensures var r := Tick(sh, sw, s, pressed, samples);
      s.score <= r.score <= s.score + 1 &&
      (r.score == s.score + 1 <==> Eats(sh, sw, s, pressed))
  {
  }

  /**
   What holds of every state the game loop runs in: the snake has at least
   three cells, its length is three plus the score, no cell is held twice, the
   food is off the snake, and the steering key is an arrow key.
   */
  predicate Inv(s: State)
  {
    s.status == Running &&
    |s.snake| >= 3 && |s.snake| == 3 + s.score &&
    NoDuplicates(s.snake) && s.food !in s.snake && IsDirection(s.key)
  }

  /** On a board at least two columns wide the starting state satisfies the invariant. */
  lemma InitInv(sh: int, sw: int)
    requires sw >= 2
    ensures Inv(Init(sh, sw))
  {
  }

  /** Putting a cell that is not in a duplicate-free sequence in front keeps it duplicate-free. */
  lemma {:induction false} PrependNoDuplicates(c: Cell, cells: seq<Cell>)
    requires NoDuplicates(cells) && c !in cells
    ensures NoDuplicates([c] + cells)
  {
    var t := [c] + cells;
    forall i, j | 0 <= i < j < |t| ensures t[i] != t[j] {
      assert t[j] == cells[j - 1];
      if i > 0 {
        assert t[i] == cells[i - 1];
      }
    }
  }

  /** Every tick the game survives keeps the invariant. */
  lemma {:induction false} TickPreservesInv(sh: int, sw: int, s: State, pressed: int, samples: seq<Cell>)
    requires Inv(s)
    requires SamplesReady(sh, sw, s, pressed, samples)
    requires Tick(sh, sw, s, pressed, samples).status == Running
    ensures Inv(Tick(sh, sw, s, pressed, samples))
  {
    var r := Tick(sh, sw, s, pressed, samples);
    var head := NewHead(s, pressed);
    var snake := [head] + s.snake;
    assert snake[1..] == s.snake;
    assert !IsQuit(pressed) && head !in s.snake;
    PrependNoDuplicates(head, s.snake);
    assert r.key == Resolve(s.key, pressed);
    assert IsDirection(r.key) by {
      assert s.snake[0] in s.snake;
    }
    if head == s.food {
      TickGrow(sh, sw, s, pressed, samples);
    } else {
      TickMove(sh, sw, s, pressed, samples);
      assert r.snake == snake[..|snake| - 1];
      forall i, j | 0 <= i < j < |r.snake| ensures r.snake[i] != r.snake[j] {
        assert r.snake[i] == snake[i] && r.snake[j] == snake[j];
      }
      assert s.food !in r.snake by {
        forall i | 0 <= i < |r.snake| ensures r.snake[i] != s.food {
          if i > 0 {
            assert r.snake[i] == s.snake[i - 1];
          }
        }
      }
    }
  }

  /**
   Whether a run of ticks can be taken: one stream of random cells per key,
   and every tick while the game runs has a stream it can place food from.
   */
  predicate Feasible(sh: int, sw: int, s: State, keys: seq<int>, streams: seq<seq<Cell>>)
    decreases |keys|
  {
    |streams| >= |keys| &&
    (|keys| == 0 || s.status != Running ||
     (|s.snake| >= 1 && SamplesReady(sh, sw, s, keys[0], streams[0]) &&
      Feasible(sh, sw, Tick(sh, sw, s, keys[0], streams[0]), keys[1..], streams[1..])))
  }

  /**
   The game loop over a sequence of key reads: ticks are taken one key at a
   time until the keys run out or the game stops running.
   */
  function Play(sh: int, sw: int, s: State, keys: seq<int>, streams: seq<seq<Cell>>): (r: State)
    requires Feasible(sh, sw, s, keys, streams)
    ensures r.score >= s.score
    ensures r.status == Running ==> |r.snake| - |s.snake| == r.score - s.score
    decreases |keys|
  {
    if |keys| == 0 || s.status != Running then s
    else Play(sh, sw, Tick(sh, sw, s, keys[0], streams[0]), keys[1..], streams[1..])
  }

  /**
   Over any run of ticks from a state that satisfies the invariant, the score
   never falls, and a game still running at the end satisfies the invariant:
   in particular its snake has no duplicate cells and is three cells longer
   than the number of food items eaten.
   */
  lemma {:induction false} PlayPreservesInv(sh: int, sw: int, s: State, keys: seq<int>, streams: seq<seq<Cell>>)
    requires Inv(s)
    requires Feasible(sh, sw, s, keys, streams)
    ensures var r := Play(sh, sw, s, keys, streams);
      r.score >= s.score && (r.status == Running ==> Inv(r))
    decreases |keys|
  {
    if |keys| > 0 {
      var t := Tick(sh, sw, s, keys[0], streams[0]);
      TickScore(sh, sw, s, keys[0], streams[0]);
      if t.status == Running {
        TickPreservesInv(sh, sw, s, keys[0], streams[0]);
        PlayPreservesInv(sh, sw, t, keys[1..], streams[1..]);
      }
    }
  }

  /**
   A snake of three cells moving right on a 20 by 20 board with the food right
   ahead of its head: after one tick with no key it has four cells, the score
   is one, and the tail is still in place.
   */
  lemma EatAheadScenario(samples: seq<Cell>)
    requires AllInInterior(20, 20, samples)
    requires |samples| > 0 && samples[0] == Cell(5, 5)
    ensures var s := State([Cell(10, 5), Cell(10, 4), Cell(10, 3)], Cell(10, 6), KeyRight, 0, Running);
      var r := Tick(20, 20, s, NoKey, samples);
      r.status == Running && |r.snake| == 4 && r.score == 1 &&
      r.snake[3] == Cell(10, 3) && r.food == Cell(5, 5)
  {
  }
}
