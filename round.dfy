/** The round as a whole in game.js: the module-level state (score, bubbles,
    lastSpawn, gameTimer, gameRunning), what one animation frame and one
    one-second timer tick do to it, and what any interleaving of the two
    leads to. The class in game.dfy is proved to follow these functions. */
module Round {
  import opened Selection
  import opened Bubbles

  const START_TIME: int := 60
  /** A bubble may spawn only when more than this many milliseconds have
      passed since the last spawn. */
  const SPAWN_INTERVAL: int := 1000

  /** The canvas size in pixels, fixed when the page loads. */
  datatype Screen = Screen(width: nat, height: nat)

  /** Where the dragon sits: the centre of the canvas, never moved. */
  function DragonX(screen: Screen): real { screen.width as real / 2.0 }
  function DragonY(screen: Screen): real { screen.height as real / 2.0 }

  datatype State = State(score: int, bubbles: seq<Bubble>, lastSpawn: int, timer: int, running: bool)

  function Initial(): State
  {
    State(0, [], 0, START_TIME, true)
  }

  // ---------------------------------------------------------------------
  // One animation frame

  predicate SpawnDue(lastSpawn: int, ts: int)
  {
    ts - lastSpawn > SPAWN_INTERVAL
  }

  /** The spawn gate at the end of `gameLoop`. */
  function SpawnGate(st: State, ts: int, d: Draws, screen: Screen): (r: State)
    requires ValidDraws(d)
    ensures r.score == st.score && r.timer == st.timer && r.running == st.running
    ensures |r.bubbles| == |st.bubbles| + (if SpawnDue(st.lastSpawn, ts) then 1 else 0)
    ensures r.bubbles[..|st.bubbles|] == st.bubbles
    ensures SpawnDue(st.lastSpawn, ts) ==>
      r.bubbles[|st.bubbles|] == Spawned(d, screen.width) && r.lastSpawn == ts
    ensures !SpawnDue(st.lastSpawn, ts) ==> r == st
  {
    if SpawnDue(st.lastSpawn, ts) then
      st.(bubbles := st.bubbles + [Spawned(d, screen.width)], lastSpawn := ts)
    else st
  }

  /** `gameLoop(ts)` without its drawing: nothing once the round is over;
      otherwise move and cull, resolve collisions against the dragon, then
      the spawn gate. */
  function Frame(st: State, ts: int, d: Draws, screen: Screen): (r: State)
    requires ValidDraws(d)
    ensures !st.running ==> r == st
    ensures st.running ==> r.running && r.timer == st.timer
    ensures st.running ==>
      r.lastSpawn == (if SpawnDue(st.lastSpawn, ts) then ts else st.lastSpawn)
  {
    if !st.running then st
    else
      var moved := Update(st.bubbles, screen.height);
      var hit := Pass(moved, st.score, DragonX(screen), DragonY(screen));
      SpawnGate(st.(bubbles := hit.survivors, score := hit.score), ts, d, screen)
  }

  // ---------------------------------------------------------------------
  // One timer tick

  /** The body of the one-second interval callback, with `endGame`'s switch
      of the running flag. */
  function Tick(st: State): (r: State)
    ensures !st.running ==> r == st
    ensures st.running ==> r.timer == st.timer - 1
    ensures r.running <==> st.running && st.timer - 1 > 0
    ensures r.score == st.score && r.bubbles == st.bubbles && r.lastSpawn == st.lastSpawn
  {
    if !st.running then st
    else
      var t := st.timer - 1;
      st.(timer := t, running := !(t <= 0))
  }

  // ---------------------------------------------------------------------
  // Any interleaving of frames and ticks

  /** A frame at timestamp `ts` with the random draws it would consume, or a
      one-second tick. The two fire in no fixed order relative to each other. */
  datatype Event = FrameAt(ts: int, draws: Draws) | Second

  predicate EventOk(e: Event)
  {
    e.FrameAt? ==> ValidDraws(e.draws)
  }

  function Step(st: State, e: Event, screen: Screen): State
    requires EventOk(e)
  {
    match e
    case FrameAt(ts, d) => Frame(st, ts, d, screen)
    case Second => Tick(st)
  }

  function Run(st: State, events: seq<Event>, screen: Screen): State
    requires forall i :: 0 <= i < |events| ==> EventOk(events[i])
    decreases |events|
  {
    if events == [] then st else Run(Step(st, events[0], screen), events[1..], screen)
  }

  /** The number of timer ticks among `events`. */
  function Seconds(events: seq<Event>): nat
  {
    if events == [] then 0 else (if events[0].Second? then 1 else 0) + Seconds(events[1..])
  }

  /** Once the round has ended, nothing that follows changes anything. */
  lemma {:induction false} EndedIsTerminal(st: State, events: seq<Event>, screen: Screen)
    requires !st.running
    requires forall i :: 0 <= i < |events| ==> EventOk(events[i])
    ensures Run(st, events, screen) == st
    decreases |events|
  {
    if events != [] {
      assert Step(st, events[0], screen) == st;
      EndedIsTerminal(st, events[1..], screen);
    }
  }

  /** The round never comes back to life: if it runs at the end, it ran at
      the start. */
  lemma {:induction false} NeverRestarts(st: State, events: seq<Event>, screen: Screen)
    requires forall i :: 0 <= i < |events| ==> EventOk(events[i])
    ensures Run(st, events, screen).running ==> st.running
  {
    if !st.running {
      EndedIsTerminal(st, events, screen);
    }
  }

  /** However frames and ticks interleave, a running round with `T` seconds
      left ends at exactly its `T`-th tick: before it the timer reads `T`
      minus the ticks so far, and from it on the timer stays at 0. */
  lemma {:induction false} Countdown(st: State, events: seq<Event>, screen: Screen)
    requires st.running && st.timer >= 1
    requires forall i :: 0 <= i < |events| ==> EventOk(events[i])
    ensures var r := Run(st, events, screen);
      && (Seconds(events) < st.timer ==> r.running && r.timer == st.timer - Seconds(events))
      && (Seconds(events) >= st.timer ==> !r.running && r.timer == 0)
    decreases |events|
  {
    if events != [] {
      var next := Step(st, events[0], screen);
      if next.running {
        Countdown(next, events[1..], screen);
      } else {
        assert events[0].Second? && st.timer == 1 && next.timer == 0;
        EndedIsTerminal(next, events[1..], screen);
      }
    }
  }

  /** A round that starts with 60 seconds is over after its 60th tick and
      the timer never goes below 0, even if a 61st tick fires. */
  lemma SixtySecondRound(screen: Screen)
    ensures Seconds(seq(60, i => Second)) == 60
    ensures Run(Initial(), seq(60, i => Second), screen) == Initial().(timer := 0, running := false)
    ensures Run(Initial(), seq(61, i => Second), screen) == Initial().(timer := 0, running := false)
  {
    var sixty := seq(60, i => Second);
    SecondsOfTicks(60);
    SecondsOfTicks(61);
    Countdown(Initial(), sixty, screen);
    Countdown(Initial(), seq(61, i => Second), screen);
    TicksKeepTheRest(Initial(), 60, screen);
    TicksKeepTheRest(Initial(), 61, screen);
  }

  lemma {:induction false} SecondsOfTicks(n: nat)
    ensures Seconds(seq(n, i => Second)) == n
  {
    if n > 0 {
      assert seq(n, i => Second)[1..] == seq(n - 1, i => Second);
      SecondsOfTicks(n - 1);
    }
  }

  lemma {:induction false} TicksKeepTheRest(st: State, n: nat, screen: Screen)
    ensures var r := Run(st, seq(n, i => Second), screen);
      r.score == st.score && r.bubbles == st.bubbles && r.lastSpawn == st.lastSpawn
    decreases n
  {
    if n > 0 {
      assert seq(n, i => Second)[1..] == seq(n - 1, i => Second);
      TicksKeepTheRest(Tick(st), n - 1, screen);
    }
  }

  // ---------------------------------------------------------------------
  // The round's invariant

  /** A bubble as `spawnBubble` makes it, up to its position. */
  predicate WellFormed(b: Bubble)
  {
    b.radius == BUBBLE_RADIUS && MIN_SPEED <= b.speed < MIN_SPEED + SPEED_SPREAD
  }

  /** What holds between any two frames or ticks: the score is never
      negative, the timer never below 0 and above 0 while running, and every
      bubble on the list is well formed and above the cull line. */
  predicate Invariant(st: State, screen: Screen)
  {
    && st.score >= 0
    && st.timer >= 0
    && (st.running ==> st.timer > 0)
    && (forall j :: 0 <= j < |st.bubbles| ==>
          WellFormed(st.bubbles[j]) && st.bubbles[j].y < CullLimit(screen.height))
  }

  lemma InitialInvariant(screen: Screen)
    ensures Invariant(Initial(), screen)
  {
  }

  /** Moving and culling keeps every bubble well formed. */
  lemma UpdateWellFormed(s: seq<Bubble>, height: nat)
    requires forall j :: 0 <= j < |s| ==> WellFormed(s[j])
    ensures forall j :: 0 <= j < |Update(s, height)| ==> WellFormed(Update(s, height)[j])
  {
    UpdateExact(s, height);
  }

  /** The survivors of a pass are bubbles of the list it was given. */
  lemma SurvivorsFromList(s: seq<Bubble>, score: int, px: real, py: real)
    ensures forall k :: 0 <= k < |Pass(s, score, px, py).survivors| ==>
      Pass(s, score, px, py).survivors[k] in s
  {
    SelectedValues(s, Survives(Verdicts(s, px, py)));
  }

  lemma FrameInvariant(st: State, ts: int, d: Draws, screen: Screen)
    requires Invariant(st, screen) && ValidDraws(d)
    ensures Invariant(Frame(st, ts, d, screen), screen)
  {
    if st.running {
      var moved := Update(st.bubbles, screen.height);
      var px, py := DragonX(screen), DragonY(screen);
      var hit := Pass(moved, st.score, px, py);
      UpdateWellFormed(st.bubbles, screen.height);
      UpdateBounded(st.bubbles, screen.height);
      SurvivorsFromList(moved, st.score, px, py);
      PassScoreNonNegative(moved, st.score, px, py);
      var mid := st.(bubbles := hit.survivors, score := hit.score);
      assert Invariant(mid, screen);
      var r := SpawnGate(mid, ts, d, screen);
      forall j | 0 <= j < |r.bubbles|
        ensures WellFormed(r.bubbles[j]) && r.bubbles[j].y < CullLimit(screen.height)
      {
        if j < |mid.bubbles| {
          assert r.bubbles[j] == r.bubbles[..|mid.bubbles|][j];
        }
      }
    }
  }

  lemma TickInvariant(st: State, screen: Screen)
    requires Invariant(st, screen)
    ensures Invariant(Tick(st), screen)
  {
  }

  /** The invariant holds at every point of every round. */
  lemma {:induction false} RunInvariant(st: State, events: seq<Event>, screen: Screen)
    requires Invariant(st, screen)
    requires forall i :: 0 <= i < |events| ==> EventOk(events[i])
    ensures Invariant(Run(st, events, screen), screen)
    decreases |events|
  {
    if events != [] {
      match events[0] {
        case FrameAt(ts, d) => FrameInvariant(st, ts, d, screen);
        case Second => TickInvariant(st, screen);
      }
      RunInvariant(Step(st, events[0], screen), events[1..], screen);
    }
  }

  // ---------------------------------------------------------------------
  // Worked cases

  /** A word bubble 10 pixels from the dragon is caught: +10, and it is gone. */
  lemma CaughtWord()
    ensures var b := Bubble("\U{798F}", 110.0, 100.0, 3.0, Word, BUBBLE_RADIUS);
      Pass([b], 0, 100.0, 100.0) == Resolution([], [b], 10)
  {
    var b := Bubble("\U{798F}", 110.0, 100.0, 3.0, Word, BUBBLE_RADIUS);
    PassLastHit([b], 0, 100.0, 100.0);
  }

  /** A bubble far from the dragon survives and the score stays. */
  lemma DistantBubble()
    ensures var b := Bubble("\U{26BD}", 1000.0, 1000.0, 3.0, Emoji, BUBBLE_RADIUS);
      Pass([b], 7, 0.0, 0.0) == Resolution([b], [], 7)
  {
    var b := Bubble("\U{26BD}", 1000.0, 1000.0, 3.0, Emoji, BUBBLE_RADIUS);
    PassNoContact([b], 7, 0.0, 0.0);
  }

  /** An emoji caught with 3 points leaves 0, not -2. */
  lemma PenaltyClamped()
    ensures var b := Bubble("\U{26BD}", 0.0, 0.0, 3.0, Emoji, BUBBLE_RADIUS);
      Pass([b], 3, 0.0, 0.0).score == 0
  {
    var b := Bubble("\U{26BD}", 0.0, 0.0, 3.0, Emoji, BUBBLE_RADIUS);
    PassLastHit([b], 3, 0.0, 0.0);
  }

  /** With the last spawn at 0, a frame at 500 spawns nothing; one at 1001
      spawns and records 1001. */
  lemma SpawnGateTiming(st: State, d: Draws, screen: Screen)
    requires ValidDraws(d) && st.lastSpawn == 0
    ensures SpawnGate(st, 500, d, screen) == st
    ensures SpawnGate(st, 1001, d, screen).lastSpawn == 1001
    ensures SpawnGate(st, 1001, d, screen).bubbles == st.bubbles + [Spawned(d, screen.width)]
  {
  }
}
