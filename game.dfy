/** The round controller: one snake, one bonus and the running flag, advanced
    tick by tick on a 640x480 window of 20-pixel cells. */
module Games {
  import opened Grid
  import opened Snakes

  const Width := 640
  const Height := 480
  const CellSize := 20

  /** The board in cells: 24 rows by 32 columns. */
  const Rows := Height / CellSize
  const Cols := Width / CellSize

  predicate InBoard(c: Cell) {
    0 <= c.0 < Rows && 0 <= c.1 < Cols
  }

  /** A row lies below the window exactly when its pixel offset reaches the
      window height; likewise for columns and the window width. */
  lemma PixelBounds(c: Cell)
    ensures c.0 * CellSize >= Height <==> c.0 >= Rows
    ensures c.1 * CellSize >= Width <==> c.1 >= Cols
  {
  }

  // ---------------------------------------------------------------------
  // Bonus placement by rejection sampling

  /** The random draws of one bonus placement, in order. Each draw is a cell
      of the board, as the random generator promises. */
  predicate Draws(draws: seq<Cell>) {
    forall i :: 0 <= i < |draws| ==> InBoard(draws[i])
  }

  /** Some draw misses every occupied cell, so the sampling loop ends. */
  predicate HasFree(draws: seq<Cell>, occupied: seq<Cell>) {
    exists i :: 0 <= i < |draws| && draws[i] !in occupied
  }

  /** The index of the draw the sampling loop accepts: the first free one. */
  function FirstFree(draws: seq<Cell>, occupied: seq<Cell>): (k: nat)
    requires HasFree(draws, occupied)
    ensures k < |draws| && draws[k] !in occupied
    ensures forall j :: 0 <= j < k ==> draws[j] in occupied
    decreases |draws|
  {
    if draws[0] !in occupied then 0
    else
      assert HasFree(draws[1..], occupied) by {
        var i :| 0 <= i < |draws| && draws[i] !in occupied;
        assert i >= 1 && draws[1..][i - 1] == draws[i];
      }
      1 + FirstFree(draws[1..], occupied)
  }

  // ---------------------------------------------------------------------
  // Input

  datatype Key = Down | Up | Left | Right | OtherKey

  /** The events the round reacts to; every other kind is ignored. */
  datatype Event = QuitEvent | KeyDown(key: Key) | OtherEvent

  /** The direction each arrow key stands for. */
  function KeyDirection(k: Key): (d: Cell)
    requires k != OtherKey
    ensures d.0 * d.0 + d.1 * d.1 == 1
  {
    match k
    case Down => (1, 0)
    case Up => (-1, 0)
    case Left => (0, -1)
    case Right => (0, 1)
  }

  /** The direction the key handler passes to the snake for key `k` while the
      snake heads along `current`, or None when its own reversal guard stops it. */
  function Requested(k: Key, current: Cell): (r: Option<Cell>)
    ensures k == OtherKey ==> r == None
    ensures k != OtherKey ==> (r.Some? <==> KeyDirection(k) != Neg(current))
    ensures r.Some? ==> r.value == KeyDirection(k) && r.value != Neg(current)
  {
    if k == Down && current != (-1, 0) then Some((1, 0))
    else if k == Up && current != (1, 0) then Some((-1, 0))
    else if k == Left && current != (0, 1) then Some((0, -1))
    else if k == Right && current != (0, -1) then Some((0, 1))
    else None
  }

  /** The part of the round that input handling can change. */
  datatype Controls = Controls(direction: Cell, locked: bool, running: bool)

  /** One event: a quit clears the running flag, an arrow key that passes the
      handler's guard becomes one change request to the snake. */
  function HandleEvent(c: Controls, e: Event): (r: Controls)
    ensures r.running <==> c.running && e != QuitEvent
    ensures r.locked <==> c.locked || (e.KeyDown? && Requested(e.key, c.direction).Some?)
    ensures c.locked ==> r.direction == c.direction
    ensures c.direction != (0, 0) ==> r.direction != Neg(c.direction)
  {
    var c1 := if e == QuitEvent then c.(running := false) else c;
    if e.KeyDown? then
      match Requested(e.key, c1.direction)
      case None => c1
      case Some(w) => c1.(direction := Steer(c1.direction, c1.locked, w), locked := true)
    else c1
  }

  /** The events of one tick, handled in order. */
  function HandleEvents(c: Controls, events: seq<Event>): (r: Controls)
    ensures r.running ==> c.running
    ensures c.locked ==> r.locked && r.direction == c.direction
    decreases |events|
  {
    if events == [] then c
    else HandleEvent(HandleEvents(c, events[..|events| - 1]), events[|events| - 1])
  }

  /** The first direction the key handler passes on, for a snake heading along
      `dir` (before it has accepted anything, the direction has not moved). */
  function FirstRequest(dir: Cell, events: seq<Event>): (r: Option<Cell>)
    ensures r.Some? ==> r.value != Neg(dir)
    ensures r.Some? ==> exists i :: 0 <= i < |events| && events[i].KeyDown?
                                    && Requested(events[i].key, dir) == r
                                    && forall j :: 0 <= j < i && events[j].KeyDown?
                                                   ==> Requested(events[j].key, dir).None?
    ensures r.None? ==> forall i :: 0 <= i < |events| && events[i].KeyDown?
                                    ==> Requested(events[i].key, dir).None?
    decreases |events|
  {
    if events == [] then None
    else
      var n := |events| - 1;
      var earlier := FirstRequest(dir, events[..n]);
      var e := events[n];
      assert forall i :: 0 <= i < n ==> events[..n][i] == events[i];
      if earlier.Some? then earlier
      else if e.KeyDown? then Requested(e.key, dir)
      else None
  }

  /** However many keys arrive in one tick, at most one turn happens: the
      first request that passes the handler's guard, and only if the lock was
      clear. The lock is set exactly when some request reached the snake. */
  lemma {:induction false} OneTurnPerTick(c: Controls, events: seq<Event>)
    ensures var r := HandleEvents(c, events);
            r.direction == (match FirstRequest(c.direction, events)
                            case None => c.direction
                            case Some(w) => if c.locked then c.direction else w)
            && r.locked == (c.locked || FirstRequest(c.direction, events).Some?)
  {
    if events != [] {
      OneTurnPerTick(c, events[..|events| - 1]);
    }
  }

  /** A tick's input never turns the snake straight back on itself. */
  lemma NoReversalPerTick(c: Controls, events: seq<Event>)
    requires c.direction != (0, 0)
    ensures HandleEvents(c, events).direction != Neg(c.direction)
  {
    OneTurnPerTick(c, events);
  }

  /** The running flag falls exactly when a quit event arrives, and never comes back. */
  lemma {:induction false} RunningFalls(c: Controls, events: seq<Event>)
    ensures HandleEvents(c, events).running <==> c.running && QuitEvent !in events
  {
    if events != [] {
      var n := |events|;
      RunningFalls(c, events[..n - 1]);
      assert events == events[..n - 1] + [events[n - 1]];
    }
  }

  /** The handler's own reversal guard never changes which direction results
      from an arrow key; it only keeps a reverse key from taking the lock. */
  lemma HandlerGuardOnlySavesLock(c: Controls, k: Key)
    requires k != OtherKey
    ensures HandleEvent(c, KeyDown(k)).direction == Steer(c.direction, c.locked, KeyDirection(k))
    ensures HandleEvent(c, KeyDown(k)).locked <==> c.locked || KeyDirection(k) != Neg(c.direction)
  {
  }

  // ---------------------------------------------------------------------
  // The round

  /** The inputs of one tick of the main loop: its events and the random
      draws a bonus placement would use. */
  datatype Tick = Tick(events: seq<Event>, draws: seq<Cell>)

  /** Whether a snake with body `segs` heading along `dir` eats `bonus` on its next step. */
  predicate EatsNext(segs: seq<Cell>, dir: Cell, bonus: Cell)
    requires |segs| >= 1
  {
    Add(segs[0], dir) == bonus
  }

  /** A step that misses the bonus leaves it off the body. */
  lemma StepKeepsBonusClear(segs: seq<Cell>, dir: Cell, bonus: Cell)
    requires |segs| >= 2 && bonus !in segs
    ensures !EatsNext(segs, dir, bonus) ==> bonus !in Advance(segs, dir)
  {
  }

  /** The collision test on a body: the head is off the board or on the body. */
  predicate Collided(segs: seq<Cell>)
    requires |segs| >= 1
  {
    !InBoard(segs[0]) || segs[0] in segs[1..]
  }

  /** The observable state of a round between ticks. */
  datatype Round = Round(segs: seq<Cell>, dir: Cell, locked: bool, bonus: Cell, running: bool)

  /** The round after the input of one tick has been handled. */
  function AfterInput(s: Round, events: seq<Event>): (r: Round)
    ensures r.segs == s.segs && r.bonus == s.bonus
    ensures r.running ==> s.running
    ensures s.locked ==> r.locked && r.dir == s.dir
  {
    var c := HandleEvents(Controls(s.dir, s.locked, s.running), events);
    s.(dir := c.direction, locked := c.locked, running := c.running)
  }

  /** One update from `s` to `s'` with the draws `draws`: the snake steps; if
      the new head is on the bonus it grows and the bonus becomes the first
      free draw; the lock is cleared; the round stops on a collision. */
  predicate Stepped(s: Round, draws: seq<Cell>, s': Round) {
    |s.segs| >= 2 &&
    var moved := Advance(s.segs, s.dir);
    (if moved[0] == s.bonus then
       s'.segs == Extend(moved) && HasFree(draws, s'.segs)
       && s'.bonus == draws[FirstFree(draws, s'.segs)]
     else
       s'.segs == moved && s'.bonus == s.bonus)
    && s'.dir == s.dir && !s'.locked
    && (s'.running <==> s.running && !Collided(s'.segs))
  }

  /** An update keeps the invariant of the round: a body of at least two
      cells and the bonus on the board and off the body. The body grows by
      one exactly when the bonus is eaten, and a stopped round stays stopped. */
  lemma SteppedKeepsBonusClear(s: Round, draws: seq<Cell>, s': Round)
    requires |s.segs| >= 2 && InBoard(s.bonus) && s.bonus !in s.segs
    requires Draws(draws) && Stepped(s, draws, s')
    ensures |s'.segs| >= 2 && InBoard(s'.bonus) && s'.bonus !in s'.segs
    ensures |s'.segs| == |s.segs| + (if EatsNext(s.segs, s.dir, s.bonus) then 1 else 0)
    ensures s'.running ==> s.running
  {
    StepKeepsBonusClear(s.segs, s.dir, s.bonus);
  }

  /** The first `n` ticks ran one after the other: each started on a running
      round and took the state after its input to the next entry. */
  ghost predicate Ran(ticks: seq<Tick>, trace: seq<Round>, n: nat)
    requires n < |trace| && n <= |ticks|
  {
    forall t :: 0 <= t < n ==>
      trace[t].running && Stepped(AfterInput(trace[t], ticks[t].events), ticks[t].draws, trace[t + 1])
  }

  /** A trace of `n` ticks extends by the state after one more tick. */
  lemma RanOneMore(ticks: seq<Tick>, trace: seq<Round>, n: nat, input: Round, next: Round)
    requires n < |ticks| && |trace| == n + 1 && Ran(ticks, trace, n)
    requires trace[n].running && input == AfterInput(trace[n], ticks[n].events)
    requires Stepped(input, ticks[n].draws, next)
    ensures Ran(ticks, trace + [next], n + 1)
  {
  }

  class Game {
    const snake: Snake
    var bonus: Cell
    var running: bool

    /** The bonus lies on the board and never under the snake. */
    ghost predicate Valid()
      reads this, snake
    {
      snake.Valid() && InBoard(bonus) && bonus !in snake.segments
    }

    ghost function State(): Round
      reads this, snake
    {
      Round(snake.segments, snake.direction, snake.blockDirection, bonus, running)
    }

    constructor (draws: seq<Cell>)
      requires Draws(draws) && HasFree(draws, [(12, 8), (12, 7)])
      ensures Valid() && fresh(snake) && running
      ensures snake.segments == [(12, 8), (12, 7)]
      ensures snake.direction == (0, 1) && !snake.blockDirection
      ensures bonus == draws[FirstFree(draws, snake.segments)]
    {
      snake := new Snake((Height / 2 / CellSize, Width / 4 / CellSize), (0, 1));
      running := true;
      new;
      bonus := GenerateBonus(draws);
    }

    /** Rejection sampling: the first draw that is not a snake segment. */
    method GenerateBonus(draws: seq<Cell>) returns (b: Cell)
      requires Draws(draws) && HasFree(draws, snake.segments)
      ensures b == draws[FirstFree(draws, snake.segments)]
      ensures InBoard(b) && b !in snake.segments
    {
      var i := 0;
      while true
        invariant 0 <= i < |draws|
        invariant forall j :: 0 <= j < i ==> draws[j] in snake.segments
        invariant exists k :: i <= k < |draws| && draws[k] !in snake.segments
        decreases |draws| - i
      {
        var candidate := draws[i];
        if candidate !in snake.GetSegments() {
          return candidate;
        }
        i := i + 1;
      }
    }

    method ProcessInput(events: seq<Event>)
      requires Valid()
      modifies this, snake
      ensures Valid()
      ensures Controls(snake.direction, snake.blockDirection, running)
           == HandleEvents(Controls(old(snake.direction), old(snake.blockDirection), old(running)), events)
      ensures snake.segments == old(snake.segments) && bonus == old(bonus)
      ensures State() == AfterInput(old(State()), events)
    {
      ghost var start := Controls(snake.direction, snake.blockDirection, running);
      for i := 0 to |events|
        invariant Valid()
        invariant Controls(snake.direction, snake.blockDirection, running) == HandleEvents(start, events[..i])
        invariant snake.segments == old(snake.segments) && bonus == old(bonus)
      {
        assert events[..i + 1][..i] == events[..i];
        var event := events[i];
        if event == QuitEvent {
          running := false;
        }
        if event.KeyDown? {
          if event.key == Down && snake.direction != (-1, 0) {
            snake.ChangeDirection((1, 0));
          } else if event.key == Up && snake.direction != (1, 0) {
            snake.ChangeDirection((-1, 0));
          } else if event.key == Left && snake.direction != (0, 1) {
            snake.ChangeDirection((0, -1));
          } else if event.key == Right && snake.direction != (0, -1) {
            snake.ChangeDirection((0, 1));
          }
        }
      }
      assert events[..|events|] == events;
    }

    /** Leaving the board or running into the own body ends the round. */
    function CheckCollision(): (dead: bool)
      reads this, snake
      requires snake.Valid()
      ensures dead <==> !InBoard(snake.GetHead()) || snake.IsCollision()
    {
      PixelBounds(snake.GetHead());
      var head := snake.GetHead();
      head.0 < 0 || head.0 * CellSize >= Height ||
      head.1 < 0 || head.1 * CellSize >= Width ||
      snake.IsCollision()
    }

    /** One tick: step, eat and respawn the bonus if the head landed on it,
        then stop the round on a collision. */
    method Update(draws: seq<Cell>)
      requires Valid() && Draws(draws)
      requires EatsNext(snake.segments, snake.direction, bonus) ==>
               HasFree(draws, Extend(Advance(snake.segments, snake.direction)))
      modifies this, snake
      ensures Valid()
      ensures var moved := Advance(old(snake.segments), old(snake.direction));
              if moved[0] == old(bonus) then
                snake.segments == Extend(moved) && bonus == draws[FirstFree(draws, snake.segments)]
              else
                snake.segments == moved && bonus == old(bonus)
      ensures |snake.segments| == old(|snake.segments|) + (if snake.segments[0] == old(bonus) then 1 else 0)
      ensures snake.direction == old(snake.direction) && !snake.blockDirection
      ensures running <==> old(running) && !CheckCollision()
      ensures running <==> old(running) && !Collided(snake.segments)
      ensures Stepped(old(State()), draws, State())
    {
      StepKeepsBonusClear(snake.segments, snake.direction, bonus);
      snake.Move();
      if snake.GetHead() == bonus {
        snake.Grow();
        bonus := GenerateBonus(draws);
      }
      if CheckCollision() {
        running := false;
      }
    }

    /** The main loop over the supplied ticks while the round is running.
        `performed` counts the ticks whose update ran and `trace` holds the
        state before the first of them and after each; `starved` reports a
        tick whose bonus placement found no free cell among its draws (the
        sampling loop would go on drawing), after that tick's input. */
    method Run(ticks: seq<Tick>) returns (performed: nat, starved: bool, ghost trace: seq<Round>)
      requires Valid()
      requires forall t :: 0 <= t < |ticks| ==> Draws(ticks[t].draws)
      modifies this, snake
      ensures Valid()
      ensures performed <= |ticks| && |trace| == performed + 1 && trace[0] == old(State())
      ensures forall t :: 0 <= t < performed ==>
                trace[t].running
                && Stepped(AfterInput(trace[t], ticks[t].events), ticks[t].draws, trace[t + 1])
      ensures !starved ==> State() == trace[performed]
      ensures !starved && performed < |ticks| ==> !running
      ensures starved ==> performed < |ticks| && trace[performed].running
                          && State() == AfterInput(trace[performed], ticks[performed].events)
                          && EatsNext(snake.segments, snake.direction, bonus)
                          && !HasFree(ticks[performed].draws, Extend(Advance(snake.segments, snake.direction)))
      ensures running ==> old(running)
      ensures !old(running) ==> performed == 0 && !starved && snake.segments == old(snake.segments)
    {
      performed, starved, trace := 0, false, [State()];
      while running && performed < |ticks|
        invariant Valid()
        invariant performed <= |ticks| && |trace| == performed + 1 && trace[0] == old(State())
        invariant Ran(ticks, trace, performed)
        invariant State() == trace[performed]
        invariant running ==> old(running)
        invariant !old(running) ==> performed == 0 && snake.segments == old(snake.segments)
        decreases |ticks| - performed
      {
        var tick := ticks[performed];
        ProcessInput(tick.events);
        if EatsNext(snake.segments, snake.direction, bonus)
           && !HasFree(tick.draws, Extend(Advance(snake.segments, snake.direction))) {
          starved := true;
          return;
        }
        ghost var input := State();
        Update(tick.draws);
        RanOneMore(ticks, trace, performed, input, State());
        performed, trace := performed + 1, trace + [State()];
      }
    }
  }

  /** The first tick of a round whose first bonus lands at (0, 0): the head
      moves right to (12, 9), the length stays 2 and the round goes on. */
  method FirstTick() {
    assert [(0, 0)][0] !in [(12, 8), (12, 7)];
    var game := new Game([(0, 0)]);
    assert game.bonus == (0, 0);
    assert !EatsNext(game.snake.segments, game.snake.direction, game.bonus);
    game.Update([]);
    assert game.snake.segments == [(12, 9), (12, 8)];
    assert !game.snake.IsCollision() && game.running;
  }
}
