/**
 The game loop with its state held in fields that every tick updates in
 place: the snake list gets its new head inserted in front and its tail
 popped, and the key, score, food and status are reassigned. The board size
 is fixed when the game starts. Each method is proved against the tick
 function of module Tick.
 */
module GameLoop {
  import opened Keys
  import opened Grid
  import opened Tick

  class Game {
    const sh: int
    const sw: int
    var snake: seq<Cell>
    var food: Cell
    var key: int
    var score: nat
    var status: Status

    /** The fields as a value of the tick function's state type. */
    function Model(): State
      reads this
    {
      State(snake, food, key, score, status)
    }

    /** The starting state on a board of `sh` rows and `sw` columns. */
    constructor (sh: int, sw: int)
      ensures this.sh == sh && this.sw == sw
      ensures Model() == Init(sh, sw)
      ensures sw >= 2 ==> Inv(Model())
    {
      this.sh, this.sw := sh, sw;
      var y, x := sh / 2, sw / 4;
      snake := [Cell(y, x), Cell(y, x - 1), Cell(y, x - 2)];
      food := Cell(sh / 2, sw / 2);
      key := KeyRight;
      score := 0;
      status := Running;
      if sw >= 2 {
        InitInv(sh, sw);
      }
    }

    /**
     One iteration of the game loop with `pressed` the key read during it and
     `samples` the random cells the food placement draws from. The fields end
     as the tick function says, and a game that satisfied the invariant and is
     still running satisfies it again.
     */
    method Step(pressed: int, samples: seq<Cell>)
      requires status == Running && |snake| >= 1
      requires SamplesReady(sh, sw, Model(), pressed, samples)
      modifies this
      ensures Model() == Tick.Tick(sh, sw, old(Model()), pressed, samples)
      ensures old(Inv(Model())) && status == Running ==> Inv(Model())
    {
      ghost var s := Model();
      if IsQuit(pressed) {
        status := Quit;
        return;
      }
      key := Resolve(key, pressed);
      var head := Advance(snake[0], key);
      snake := [head] + snake;
      if OnBorder(sh, sw, head) || head in snake[1..] {
        status := Over;
        return;
      }
      if head == food {
        score := score + 1;
        food := ChooseFood(sh, sw, samples, snake);
      } else {
        snake := snake[..|snake| - 1];
      }
      if Inv(s) {
        TickPreservesInv(sh, sw, s, pressed, samples);
      }
    }

    /**
     The game loop over the keys read in successive ticks, one stream of random
     cells per tick: it takes ticks until the keys run out or the game stops
     running. The fields end as the run of ticks says; from a state that
     satisfies the invariant the score never falls and a game still running
     satisfies the invariant.
     */
    method Run(keys: seq<int>, streams: seq<seq<Cell>>)
      requires Feasible(sh, sw, Model(), keys, streams)
      modifies this
      ensures Model() == Play(sh, sw, old(Model()), keys, streams)
      ensures old(Inv(Model())) ==> score >= old(score) && (status == Running ==> Inv(Model()))
    {
      ghost var s := Model();
      var i := 0;
      while i < |keys| && status == Running
        invariant 0 <= i <= |keys|
        invariant Feasible(sh, sw, Model(), keys[i..], streams[i..])
        invariant Play(sh, sw, Model(), keys[i..], streams[i..]) == Play(sh, sw, s, keys, streams)
        decreases |keys| - i
      {
        assert keys[i..][1..] == keys[i + 1..] && streams[i..][1..] == streams[i + 1..];
        Step(keys[i], streams[i]);
        i := i + 1;
      }
      if Inv(s) {
        PlayPreservesInv(sh, sw, s, keys, streams);
      }
    }
  }
}
